/**
 UTF-8 (section 3 of RFC 3629): the bytes of a character, reading one back, and the lengths that
 cut the bytes of a text into characters.
 */
module Utf8 {
  import opened Wrappers

  /** Number of bytes of a character. */
  function Utf8Len(c: char): (n: nat) {
    if c as int < 0x80 then 1 else if c as int < 0x800 then 2 else if c as int < 0x1_0000 then 3 else 4
  }

  function CharLengths(text: string): (lengths: seq<nat>) {
    seq(|text|, i requires 0 <= i < |text| => Utf8Len(text[i]))
  }

  /** A lead byte that tells the number of bytes, then six bits in each of the others. */
  function EncodeChar(c: char): (b: seq<byte>) {
    var n := c as int;
    if n < 0x80 then [n]
    else if n < 0x800 then [0xC0 + n / 64, 0x80 + n % 64]
    else if n < 0x1_0000 then [0xE0 + n / 4096, 0x80 + n / 64 % 64, 0x80 + n % 64]
    else [0xF0 + n / 262144, 0x80 + n / 4096 % 64, 0x80 + n / 64 % 64, 0x80 + n % 64]
  }

  function EncodeText(text: string): (b: seq<byte>) {
    if text == "" then [] else EncodeChar(text[0]) + EncodeText(text[1..])
  }

  /** The number of bytes a lead byte announces, or zero for a byte that leads nothing. */
  function Announced(lead: byte): (n: nat) {
    if lead < 0x80 then 1
    else if lead < 0xC0 then 0
    else if lead < 0xE0 then 2
    else if lead < 0xF0 then 3
    else if lead < 0xF8 then 4 else 0
  }

  /** The six bits a continuation byte carries. */
  function Low6(b: byte): (v: nat) {
    b as int % 64
  }

  /** The code point read at the front of some bytes, and how many it took. */
  function ReadChar(b: seq<byte>): (r: Option<(nat, nat)>) {
    if b == [] || Announced(b[0]) == 0 || Announced(b[0]) > |b| then None
    else Some((CodePoint(b[..Announced(b[0])]), Announced(b[0])))
  }

  function CodePoint(b: seq<byte>): (n: nat)
    requires 1 <= |b| <= 4
  {
    var lead := b[0] as int;
    if |b| == 1 then lead
    else if |b| == 2 then lead % 32 * 64 + Low6(b[1])
    else if |b| == 3 then (lead % 16 * 64 + Low6(b[1])) * 64 + Low6(b[2])
    else ((lead % 8 * 64 + Low6(b[1])) * 64 + Low6(b[2])) * 64 + Low6(b[3])
  }

  lemma Digits64(n: nat)
    requires n < 0x20_0000
    ensures n / 4096 == n / 64 / 64 && n / 262144 == n / 64 / 64 / 64 && n / 262144 < 8
    ensures n == n / 64 * 64 + n % 64 && n / 64 == n / 4096 * 64 + n / 64 % 64
    ensures n / 4096 == n / 262144 * 64 + n / 4096 % 64
  {
  }

  lemma TwoBytes(a: nat, b: nat)
    requires a < 32 && b < 64
    ensures CodePoint([0xC0 + a, 0x80 + b]) == a * 64 + b && Announced(0xC0 + a) == 2
  {
  }

  lemma ThreeBytes(a: nat, b: nat, c: nat)
    requires a < 16 && b < 64 && c < 64
    ensures CodePoint([0xE0 + a, 0x80 + b, 0x80 + c]) == (a * 64 + b) * 64 + c && Announced(0xE0 + a) == 3
  {
  }

  lemma FourBytes(a: nat, b: nat, c: nat, d: nat)
    requires a < 8 && b < 64 && c < 64 && d < 64
    ensures CodePoint([0xF0 + a, 0x80 + b, 0x80 + c, 0x80 + d]) == ((a * 64 + b) * 64 + c) * 64 + d
    ensures Announced(0xF0 + a) == 4
  {
  }

  lemma CodePointReadsBack(c: char)
    ensures |EncodeChar(c)| == Utf8Len(c) == Announced(EncodeChar(c)[0])
    ensures CodePoint(EncodeChar(c)) == c as int
  {
    var n := c as int;
    Digits64(n);
    if 0x80 <= n < 0x800 {
      TwoBytes(n / 64, n % 64);
    } else if 0x800 <= n < 0x1_0000 {
      ThreeBytes(n / 4096, n / 64 % 64, n % 64);
    } else if 0x1_0000 <= n {
      FourBytes(n / 262144, n / 4096 % 64, n / 64 % 64, n % 64);
    }
  }

  /** A character reads back from its bytes, and takes as many as its length says. */
  lemma CharReadsBack(c: char, rest: seq<byte>)
    ensures |EncodeChar(c)| == Utf8Len(c)
    ensures ReadChar(EncodeChar(c) + rest) == Some((c as int, Utf8Len(c)))
  {
    CodePointReadsBack(c);
    assert (EncodeChar(c) + rest)[..|EncodeChar(c)|] == EncodeChar(c);
  }

  /** The encoding is the shortest: fewer bytes, led by a byte that announces them, are another
      character. */
  lemma NothingShorter(c: char, b: seq<byte>)
    requires 1 <= |b| < Utf8Len(c) && Announced(b[0]) == |b|
    ensures CodePoint(b) != c as int
  {
  }

  function Sum(ns: seq<nat>): (s: nat) {
    if ns == [] then 0 else ns[0] + Sum(ns[1..])
  }

  /** The lengths of the characters add up to the number of bytes. */
  lemma {:induction false} LengthsAddUp(text: string)
    ensures |CharLengths(text)| == |text| && Sum(CharLengths(text)) == |EncodeText(text)|
  {
    if text != "" {
      CharReadsBack(text[0], []);
      LengthsAddUp(text[1..]);
      assert CharLengths(text)[1..] == CharLengths(text[1..]);
    }
  }

  /** Where the bytes of a character begin. */
  function Offset(text: string, i: nat): (at: nat)
    requires i <= |text|
  {
    Sum(CharLengths(text)[..i])
  }

  lemma OffsetStep(text: string, i: nat)
    requires 0 < i <= |text|
    ensures Offset(text, i) == Utf8Len(text[0]) + Offset(text[1..], i - 1)
  {
    assert CharLengths(text)[..i][1..] == CharLengths(text[1..])[..i - 1];
  }

  lemma DropBoth<T>(a: seq<T>, b: seq<T>, k: nat)
    requires k <= |b|
    ensures (a + b)[|a| + k..] == b[k..]
  {
  }

  /** The lengths before a character say where its bytes begin: reading there gives it back. */
  lemma {:induction false} LengthsLocate(text: string, i: nat)
    requires i < |text|
    ensures Offset(text, i) <= |EncodeText(text)|
    ensures ReadChar(EncodeText(text)[Offset(text, i)..]) == Some((text[i] as int, Utf8Len(text[i])))
  {
    var rest := EncodeText(text[1..]);
    CharReadsBack(text[0], rest);
    if i == 0 {
      assert EncodeText(text)[0..] == EncodeChar(text[0]) + rest;
    } else {
      LengthsLocate(text[1..], i - 1);
      RestOfText(text, i);
    }
  }

  lemma RestOfText(text: string, i: nat)
    requires 0 < i <= |text| && Offset(text[1..], i - 1) <= |EncodeText(text[1..])|
    ensures Offset(text, i) <= |EncodeText(text)|
    ensures EncodeText(text)[Offset(text, i)..] == EncodeText(text[1..])[Offset(text[1..], i - 1)..]
  {
    CharReadsBack(text[0], []);
    OffsetStep(text, i);
    DropBoth(EncodeChar(text[0]), EncodeText(text[1..]), Offset(text[1..], i - 1));
  }
}
