/** The small types and functions shared by the models. */
module Wrappers {
  type byte = b: int | 0 <= b < 256

  datatype Option<+T> = None | Some(value: T)

  function SaturatingSub(a: nat, b: nat): (r: nat) {
    if b <= a then a - b else 0
  }

  function Min(a: int, b: int): (r: int) {
    if a <= b then a else b
  }

  ghost predicate Distinct<T>(s: seq<T>) {
    forall i, j :: 0 <= i < j < |s| ==> s[i] != s[j]
  }

  /** `a * b`, by repeated addition: proofs that only move areas around stay linear. */
  function Product(a: nat, b: nat): (p: nat) {
    if b == 0 then 0 else a + Product(a, b - 1)
  }

  lemma {:induction false} ProductIsMultiplication(a: nat, b: nat)
    ensures Product(a, b) == a * b
  {
    if b > 0 {
      ProductIsMultiplication(a, b - 1);
      assert a * b == a + a * (b - 1);
    }
  }

  /** `n / d`, by repeated subtraction, for the same reason. */
  function Quotient(n: nat, d: nat): (q: nat)
    requires d > 0
  {
    if n < d then 0 else 1 + Quotient(n - d, d)
  }

  lemma {:induction false} MulStep(n: nat, a: nat, b: nat)
    requires a < b
    ensures n * a + n <= n * b
    decreases b
  {
    assert n * b == n * (b - 1) + n;
    if a < b - 1 {
      MulStep(n, a, b - 1);
    }
  }

  lemma {:induction false} QuotientSpec(n: nat, d: nat)
    requires d > 0
    ensures d * Quotient(n, d) <= n < d * Quotient(n, d) + d
  {
    if n >= d {
      var q := Quotient(n - d, d);
      QuotientSpec(n - d, d);
      assert d * (q + 1) == d * q + d;
    }
  }

  lemma QuotientIsDivision(n: nat, d: nat)
    requires d > 0
    ensures Quotient(n, d) == n / d
  {
    var q, r := Quotient(n, d), n / d;
    QuotientSpec(n, d);
    assert d * r <= n < d * r + d;
    if q < r {
      MulStep(d, q, r);
    } else if r < q {
      MulStep(d, r, q);
    }
  }
}
