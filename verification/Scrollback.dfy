/**
 The scrollback ring and its searches. The ring refines a bounded queue of rows that keeps
 the most recent ones; both searches are the cyclic successor and predecessor on the rows
 that match.
 */
module Scrollback {
  import opened Wrappers

  // ----- The bounded queue -----

  /** The last `n` elements. */
  function LastN<T>(s: seq<T>, n: nat): (r: seq<T>) {
    s[SaturatingSub(|s|, n)..]
  }

  datatype Queue<T> = Queue(capacity: nat, rows: seq<T>)

  datatype Op<T> = Push(row: T) | SetCapacity(capacity: nat)

  function Apply<T>(q: Queue<T>, op: Op<T>): (n: Queue<T>) {
    match op
    case Push(row) => Queue(q.capacity, LastN(q.rows + [row], q.capacity))
    case SetCapacity(c) =>
      var capacity := if c == 0 then 1 else c;
      Queue(capacity, LastN(q.rows, capacity))
  }

  function Run<T>(q: Queue<T>, ops: seq<Op<T>>): (n: Queue<T>) {
    if ops == [] then q else Apply(Run(q, ops[..|ops| - 1]), ops[|ops| - 1])
  }

  function Pushed<T>(ops: seq<Op<T>>): (rows: seq<T>) {
    if ops == [] then []
    else Pushed(ops[..|ops| - 1]) + (if ops[|ops| - 1].Push? then [ops[|ops| - 1].row] else [])
  }

  /** The queue holds the last rows of `all`, within a positive capacity. */
  ghost predicate HoldsSuffix<T>(q: Queue<T>, all: seq<T>) {
    && 1 <= q.capacity && |q.rows| <= q.capacity
    && |q.rows| <= |all| && q.rows == LastN(all, |q.rows|)
  }

  lemma PushKeepsSuffix<T>(q: Queue<T>, all: seq<T>, row: T)
    requires HoldsSuffix(q, all)
    ensures HoldsSuffix(Apply(q, Push(row)), all + [row])
  {
    LastNStep(q.rows, row, q.capacity);
  }

  lemma ResizeKeepsSuffix<T>(q: Queue<T>, all: seq<T>, c: nat)
    requires HoldsSuffix(q, all)
    ensures HoldsSuffix(Apply(q, Op<T>.SetCapacity(c)), all)
  {
  }

  /** Over every run the queue holds a suffix of all rows ever pushed, never more than its
      capacity, which stays positive. */
  lemma {:induction false} RunKeepsSuffix<T>(capacity: nat, ops: seq<Op<T>>)
    requires capacity >= 1
    ensures HoldsSuffix(Run(Queue(capacity, []), ops), Pushed(ops))
  {
    if ops != [] {
      var front, op := ops[..|ops| - 1], ops[|ops| - 1];
      RunKeepsSuffix(capacity, front);
      match op
      case Push(row) => PushKeepsSuffix(Run(Queue(capacity, []), front), Pushed(front), row);
      case SetCapacity(c) => ResizeKeepsSuffix(Run(Queue(capacity, []), front), Pushed(front), c);
    }
  }

  /** With no resize in between, the queue holds exactly the last `capacity` rows pushed. */
  lemma {:induction false} PushesKeepLast<T>(capacity: nat, ops: seq<Op<T>>)
    requires capacity >= 1 && forall i :: 0 <= i < |ops| ==> ops[i].Push?
    ensures Run(Queue(capacity, []), ops) == Queue(capacity, LastN(Pushed(ops), capacity))
  {
    if ops != [] {
      PushesKeepLast(capacity, ops[..|ops| - 1]);
      var all, row := Pushed(ops[..|ops| - 1]), ops[|ops| - 1].row;
      assert LastN(LastN(all, capacity) + [row], capacity) == LastN(all + [row], capacity);
    }
  }

  /** As many of the last rows as there are, up to `most`. */
  ghost function MostRecent<T>(rows: seq<T>, most: nat): (r: seq<T>)
    ensures |r| == Min(|rows|, most)
    ensures forall i :: 0 <= i < |r| ==> r[i] == rows[|rows| - |r| + i]
  {
    rows[|rows| - Min(|rows|, most)..]
  }

  lemma {:induction false} Resized<T>(q: Queue<T>, c: nat)
    ensures var cap := if c < 1 then 1 else c;
            var n := Apply(q, Op<T>.SetCapacity(c));
            && n == Queue(cap, q.rows[SaturatingSub(|q.rows|, cap)..])
            && n.rows == MostRecent(q.rows, cap)
            && (|q.rows| <= cap ==> n.rows == q.rows)
  {
  }

  /** A resize after any run keeps the most recent rows, as many as were held and now fit. */
  lemma {:induction false} ResizeKeepsRecent<T>(capacity: nat, ops: seq<Op<T>>, c: nat)
    ensures var q, n := Run(Queue(capacity, []), ops), Run(Queue(capacity, []), ops + [SetCapacity(c)]);
            && n.capacity == (if c < 1 then 1 else c)
            && |n.rows| == Min(|q.rows|, n.capacity)
            && n.rows == q.rows[|q.rows| - |n.rows|..]
  {
    var all := ops + [Op<T>.SetCapacity(c)];
    assert all[..|all| - 1] == ops && all[|all| - 1] == Op<T>.SetCapacity(c);
  }

  /** The capacity in force after a run, read off the operations. */
  function InForce<T>(capacity: nat, ops: seq<Op<T>>): (c: nat) {
    if ops == [] then capacity
    else
      match ops[|ops| - 1]
      case Push(_) => InForce(capacity, ops[..|ops| - 1])
      case SetCapacity(c) => if c < 1 then 1 else c
  }

  /** How many rows the first `m` operations push after the one at position `k`. */
  function NewerAt<T>(ops: seq<Op<T>>, k: nat, m: nat): (n: int)
    requires k <= m <= |ops|
  {
    |Pushed(ops[..m])| - |Pushed(ops[..k])| - 1
  }

  lemma {:induction false} RunStep<T>(capacity: nat, ops: seq<Op<T>>)
    requires ops != []
    ensures var q, n := Run(Queue(capacity, []), ops[..|ops| - 1]), Run(Queue(capacity, []), ops);
            var last := ops[|ops| - 1];
            && |n.rows| == Min(|q.rows| + (if last.Push? then 1 else 0), n.capacity)
            && |Pushed(ops)| == |Pushed(ops[..|ops| - 1])| + (if last.Push? then 1 else 0)
  {
  }

  lemma {:induction false} CapacityInForce<T>(capacity: nat, ops: seq<Op<T>>)
    ensures Run(Queue(capacity, []), ops).capacity == InForce(capacity, ops)
  {
    if ops != [] {
      CapacityInForce(capacity, ops[..|ops| - 1]);
    }
  }

  /** At no step since it was pushed did the rows newer than the one of step `k` fill the queue. */
  ghost predicate NeverCrowdedOut<T>(capacity: nat, ops: seq<Op<T>>, k: nat)
    requires k < |ops|
  {
    forall m :: k < m <= |ops| ==> NewerAt(ops, k, m) < InForce(capacity, ops[..m])
  }

  lemma {:induction false} CrowdedStep<T>(capacity: nat, ops: seq<Op<T>>, k: nat)
    requires k + 1 < |ops|
    ensures NeverCrowdedOut(capacity, ops, k) <==>
            && NeverCrowdedOut(capacity, ops[..|ops| - 1], k)
            && NewerAt(ops, k, |ops|) < InForce(capacity, ops)
  {
    var front := ops[..|ops| - 1];
    assert ops[..|ops|] == ops;
    forall m | 0 <= m < |ops|
      ensures ops[..m] == front[..m]
    {
    }
    forall m | k < m < |ops|
      ensures NewerAt(ops, k, m) == NewerAt(front, k, m)
    {
    }
  }

  /** Over every run, resizes included: a row is among those held exactly when at every step since
      it was pushed fewer newer rows had been pushed than the capacity then in force. */
  lemma {:induction false} HeldIffNeverCrowdedOut<T>(capacity: nat, ops: seq<Op<T>>, k: nat)
    requires capacity >= 1 && k < |ops| && ops[k].Push?
    ensures var held := |Run(Queue(capacity, []), ops).rows|;
            0 <= NewerAt(ops, k, |ops|) && (NewerAt(ops, k, |ops|) < held <==> NeverCrowdedOut(capacity, ops, k))
  {
    RunStep(capacity, ops);
    CapacityInForce(capacity, ops);
    RunKeepsSuffix(capacity, ops);
    assert ops[..|ops|] == ops;
    if k == |ops| - 1 {
      assert NewerAt(ops, k, |ops|) == 0;
    } else {
      var front := ops[..|ops| - 1];
      HeldIffNeverCrowdedOut(capacity, front, k);
      CrowdedStep(capacity, ops, k);
      assert front[..|front|] == front && front[..k] == ops[..k];
    }
  }

  /** A row that is held is the one pushed, as many places from the newest end as rows were pushed
      after it. */
  lemma {:induction false} HeldRowIsPushed<T>(capacity: nat, ops: seq<Op<T>>, k: nat)
    requires capacity >= 1 && k < |ops| && ops[k].Push? && NeverCrowdedOut(capacity, ops, k)
    ensures var rows, newer := Run(Queue(capacity, []), ops).rows, NewerAt(ops, k, |ops|);
            0 <= newer < |rows| && rows[|rows| - 1 - newer] == ops[k].row
  {
    HeldIffNeverCrowdedOut(capacity, ops, k);
    RunKeepsSuffix(capacity, ops);
    PushedAt(ops, k);
    assert ops[..|ops|] == ops;
  }

  lemma {:induction false} PushedAt<T>(ops: seq<Op<T>>, k: nat)
    requires k < |ops| && ops[k].Push?
    ensures |Pushed(ops[..k])| < |Pushed(ops)| && Pushed(ops)[|Pushed(ops[..k])|] == ops[k].row
  {
    var front := ops[..|ops| - 1];
    if k < |front| {
      assert front[..k] == ops[..k];
      PushedAt(front, k);
    }
  }

  /** The capacity a push divides by is zero exactly when the queue began with none and was never
      resized; such a queue is empty. */
  lemma {:induction false} DividesByZeroIff<T>(capacity: nat, ops: seq<Op<T>>)
    ensures var q := Run(Queue(capacity, []), ops);
            && (q.capacity == 0 <==> capacity == 0 && forall i :: 0 <= i < |ops| ==> ops[i].Push?)
            && (q.capacity == 0 ==> q.rows == [])
  {
    if ops != [] {
      var front, last := ops[..|ops| - 1], ops[|ops| - 1];
      DividesByZeroIff(capacity, front);
      assert (forall i :: 0 <= i < |ops| ==> ops[i].Push?) <==>
             (forall i :: 0 <= i < |front| ==> front[i].Push?) && last.Push? by {
        assert forall i :: 0 <= i < |front| ==> front[i] == ops[i];
      }
    }
  }

  // ----- Cyclic search over the matching rows -----

  /** Positions of the rows that match, ascending. */
  function Hits<T>(rows: seq<T>, p: T -> bool): (hs: seq<nat>) {
    if rows == [] then []
    else Hits(rows[..|rows| - 1], p) + (if p(rows[|rows| - 1]) then [|rows| - 1] else [])
  }

  lemma {:induction false} HitsSpec<T>(rows: seq<T>, p: T -> bool)
    ensures var hs := Hits(rows, p);
            && (forall i :: 0 <= i < |hs| ==> hs[i] < |rows| && p(rows[hs[i]]))
            && (forall i, j :: 0 <= i < j < |hs| ==> hs[i] < hs[j])
            && forall r :: 0 <= r < |rows| && p(rows[r]) ==> r in hs
  {
    if rows != [] {
      var front, hs := rows[..|rows| - 1], Hits(rows, p);
      HitsSpec(front, p);
      forall r | 0 <= r < |rows| && p(rows[r])
        ensures r in hs
      {
        if r < |front| {
          assert front[r] == rows[r];
        } else {
          assert hs[|hs| - 1] == r;
        }
      }
    }
  }

  /** Remainder of a sum below twice the modulus. */
  lemma WrapOnce(x: nat, n: nat)
    requires n > 0 && x < 2 * n
    ensures x % n == if x < n then x else x - n
  {
    if x >= n {
      assert x == n * 1 + (x - n);
      DivModUnique(x, n, 1, x - n);
    } else {
      DivModUnique(x, n, 0, x);
    }
  }

  lemma DivModUnique(x: nat, n: nat, q: nat, r: nat)
    requires n > 0 && r < n && x == n * q + r
    ensures x % n == r
  {
    assert x == n * (x / n) + x % n;
    if x / n > q {
      MulStep(n, q, x / n);
    } else if x / n < q {
      MulStep(n, x / n, q);
    }
  }

  lemma Distributes(n: nat, p: nat, q: nat)
    ensures n * (p + q) == n * p + n * q
  {
  }

  /** Adding first or reducing first makes no difference. */
  lemma ModOfSum(a: nat, b: nat, n: nat)
    requires n > 0
    ensures (a + b) % n == (a % n + b) % n
  {
    var q := a / n;
    assert a == n * q + a % n;
    var c := a % n + b;
    assert c == n * (c / n) + c % n;
    Distributes(n, q, c / n);
    DivModUnique(a + b, n, q + c / n, c % n);
  }

  /** `k` rows on from `from`, cyclically. */
  function Ahead(from: nat, k: nat, n: nat): (r: nat)
    requires n > 0
    ensures r < n
  {
    (from + k) % n
  }

  /** `k` rows back from `before`, cyclically. */
  function Back(before: nat, k: nat, n: nat): (r: nat)
    requires n > 0 && k <= n
    ensures r < n
  {
    (before + n - k) % n
  }

  /** `r` is the first match at or after `from`, in cyclic order. */
  ghost predicate IsNext<T>(rows: seq<T>, p: T -> bool, from: nat, r: Option<nat>) {
    if r.None? then forall k :: 0 <= k < |rows| ==> !p(rows[k])
    else exists k :: 0 <= k < |rows| && r.value == Ahead(from, k, |rows|) && p(rows[r.value])
                     && forall j :: 0 <= j < k ==> !p(rows[Ahead(from, j, |rows|)])
  }

  /** `r` is the first match strictly before `before`, in cyclic order. */
  ghost predicate IsPrev<T>(rows: seq<T>, p: T -> bool, before: nat, r: Option<nat>) {
    if r.None? then forall k :: 0 <= k < |rows| ==> !p(rows[k])
    else exists k :: 1 <= k <= |rows| && r.value == Back(before, k, |rows|) && p(rows[r.value])
                     && forall j :: 1 <= j < k ==> !p(rows[Back(before, j, |rows|)])
  }

  /** Every row is met once on the way round. */
  lemma AheadCovers(from: nat, n: nat, r: nat)
    requires r < n
    ensures exists k :: 0 <= k < n && Ahead(from, k, n) == r
  {
    var b := from % n;
    var k := if r >= b then r - b else r + n - b;
    ModOfSum(from, k, n);
    WrapOnce(b + k, n);
    assert Ahead(from, k, n) == r;
  }

  lemma BackCovers(before: nat, n: nat, r: nat)
    requires r < n
    ensures exists k :: 1 <= k <= n && Back(before, k, n) == r
  {
    var b := before % n;
    var k := if r < b then b - r else b + n - r;
    BackFrom(before, k, n);
    assert Back(before, k, n) == r;
  }

  lemma AheadFrom(from: nat, k: nat, n: nat)
    requires from <= n && k < n
    ensures Ahead(from, k, n) == if from + k < n then from + k else from + k - n
  {
    WrapOnce(from + k, n);
  }

  lemma BackFrom(before: nat, k: nat, n: nat)
    requires n > 0 && 1 <= k <= n
    ensures Back(before, k, n) == if k <= before % n then before % n - k else before % n + n - k
  {
    ModOfSum(before, n - k, n);
    WrapOnce(before % n + n - k, n);
  }

  /** From the row after a match, the next match is the next hit, cyclically. */
  lemma NextIsNextHit<T>(rows: seq<T>, p: T -> bool, i: nat, r: Option<nat>)
    requires i < |Hits(rows, p)| && IsNext(rows, p, Hits(rows, p)[i] + 1, r)
    ensures var hs := Hits(rows, p); r == Some(hs[if i + 1 < |hs| then i + 1 else 0])
  {
    var hs, n := Hits(rows, p), |rows|;
    HitsSpec(rows, p);
    var from := hs[i] + 1;
    assert r.Some? by {
      assert p(rows[hs[i]]);
    }
    var k :| 0 <= k < n && r.value == Ahead(from, k, n) && p(rows[r.value])
             && forall j :: 0 <= j < k ==> !p(rows[Ahead(from, j, n)]);
    AheadFrom(from, k, n);
    var next := if i + 1 < |hs| then hs[i + 1] else hs[0];
    var dist := if i + 1 < |hs| then next - from else next + n - from;
    assert hs[0] <= hs[i];
    AheadFrom(from, dist, n);
    assert Ahead(from, dist, n) == next && p(rows[next]);
    assert k <= dist;
    assert r.value in hs;
    var a :| 0 <= a < |hs| && hs[a] == r.value;
    HitBetween(rows, p, i, a, k);
  }

  /** No hit lies strictly between two neighbouring hits. */
  lemma HitBetween<T>(rows: seq<T>, p: T -> bool, i: nat, a: nat, k: nat)
    requires var hs := Hits(rows, p); i < |hs| && a < |hs|
    requires var hs, n := Hits(rows, p), |rows|;
             var dist := if i + 1 < |hs| then hs[i + 1] - hs[i] - 1 else hs[0] + n - hs[i] - 1;
             0 <= k <= dist && k < n && hs[a] == Ahead(hs[i] + 1, k, n)
    ensures a == if i + 1 < |Hits(rows, p)| then i + 1 else 0
  {
    var hs, n := Hits(rows, p), |rows|;
    HitsSpec(rows, p);
    AheadFrom(hs[i] + 1, k, n);
    assert hs[0] <= hs[a] <= hs[|hs| - 1];
    if i + 1 < |hs| {
      assert a > i;
    }
  }

  /** Before a match, the previous match is the hit before it, cyclically. */
  lemma PrevIsPrevHit<T>(rows: seq<T>, p: T -> bool, i: nat, r: Option<nat>)
    requires i < |Hits(rows, p)| && IsPrev(rows, p, Hits(rows, p)[i], r)
    ensures var hs := Hits(rows, p); r == Some(hs[if i == 0 then |hs| - 1 else i - 1])
  {
    var hs, n := Hits(rows, p), |rows|;
    HitsSpec(rows, p);
    assert r.Some? by {
      assert p(rows[hs[i]]);
    }
    var k :| 1 <= k <= n && r.value == Back(hs[i], k, n) && p(rows[r.value])
             && forall j :: 1 <= j < k ==> !p(rows[Back(hs[i], j, n)]);
    WrapOnce(hs[i], n);
    BackFrom(hs[i], k, n);
    var prev := if i == 0 then hs[|hs| - 1] else hs[i - 1];
    assert hs[i] <= hs[|hs| - 1];
    var dist := if i == 0 then hs[i] + n - prev else hs[i] - prev;
    BackFrom(hs[i], dist, n);
    assert Back(hs[i], dist, n) == prev && p(rows[prev]);
    assert k <= dist;
    assert r.value in hs;
    var a :| 0 <= a < |hs| && hs[a] == r.value;
    assert hs[0] <= hs[a] <= hs[|hs| - 1];
  }

  /** Searching back from the row reached finds the match the search came from. */
  lemma PrevUndoesNext<T>(rows: seq<T>, p: T -> bool, from: nat, reached: Option<nat>, back: Option<nat>)
    requires from < |rows| && p(rows[from])
    requires IsNext(rows, p, from + 1, reached)
    requires reached.Some? ==> IsPrev(rows, p, reached.value, back)
    ensures reached.Some? && back == Some(from)
  {
    HitsSpec(rows, p);
    var hs := Hits(rows, p);
    var i :| 0 <= i < |hs| && hs[i] == from;
    NextIsNextHit(rows, p, i, reached);
    PrevIsPrevHit(rows, p, if i + 1 < |hs| then i + 1 else 0, back);
  }

  /** A walk that keeps searching on from the row after each match. */
  ghost predicate Walks<T>(rows: seq<T>, p: T -> bool, walk: seq<nat>) {
    forall t :: 0 <= t && t + 1 < |walk| ==> IsNext(rows, p, walk[t] + 1, Some(walk[t + 1]))
  }

  function Cycle(i: nat, t: nat, m: nat): (c: nat)
    requires i < m
    ensures c < m
  {
    (i + t) % m
  }

  lemma CycleStep(i: nat, t: nat, m: nat)
    requires i < m
    ensures Cycle(i, 0, m) == i
    ensures Cycle(i, t + 1, m) == if Cycle(i, t, m) + 1 < m then Cycle(i, t, m) + 1 else 0
  {
    WrapOnce(i, m);
    ModOfSum(i + t, 1, m);
    WrapOnce(Cycle(i, t, m) + 1, m);
  }

  /** Such a walk goes through the hits in order, round and round. */
  lemma {:induction false} WalkGoesRound<T>(rows: seq<T>, p: T -> bool, walk: seq<nat>, i: nat, t: nat)
    requires i < |Hits(rows, p)| && t < |walk| && Walks(rows, p, walk) && walk[0] == Hits(rows, p)[i]
    ensures walk[t] == Hits(rows, p)[Cycle(i, t, |Hits(rows, p)|)]
  {
    var m := |Hits(rows, p)|;
    CycleStep(i, 0, m);
    if t > 0 {
      WalkGoesRound(rows, p, walk, i, t - 1);
      CycleStep(i, t - 1, m);
      NextIsNextHit(rows, p, Cycle(i, t - 1, m), Some(walk[t]));
    }
  }

  /** Positions on a cycle: `t` steps from `i` reach `a`, and different steps differ. */
  lemma CycleReaches(i: nat, a: nat, m: nat) returns (t: nat)
    requires i < m && a < m
    ensures t < m && Cycle(i, t, m) == a
  {
    t := if a >= i then a - i else a + m - i;
    WrapOnce(i + t, m);
  }

  lemma CycleIsInjective(i: nat, a: nat, b: nat, m: nat)
    requires i < m && a < b < m
    ensures Cycle(i, a, m) != Cycle(i, b, m)
  {
    WrapOnce(i + a, m);
    WrapOnce(i + b, m);
  }

  lemma WalkIsDistinct<T>(rows: seq<T>, p: T -> bool, walk: seq<nat>, i: nat)
    requires i < |Hits(rows, p)| == |walk| && Walks(rows, p, walk) && walk[0] == Hits(rows, p)[i]
    ensures Distinct(walk)
  {
    HitsSpec(rows, p);
    forall a, b | 0 <= a < b < |walk|
      ensures walk[a] != walk[b]
    {
      WalkGoesRound(rows, p, walk, i, a);
      WalkGoesRound(rows, p, walk, i, b);
      CycleIsInjective(i, a, b, |walk|);
    }
  }

  lemma WalkMeets<T>(rows: seq<T>, p: T -> bool, walk: seq<nat>, i: nat, r: nat)
    requires i < |Hits(rows, p)| == |walk| && Walks(rows, p, walk) && walk[0] == Hits(rows, p)[i]
    ensures r in walk <==> r in Hits(rows, p)
  {
    var hs := Hits(rows, p);
    if r in walk {
      var t :| 0 <= t < |walk| && walk[t] == r;
      WalkGoesRound(rows, p, walk, i, t);
    }
    if r in hs {
      var a :| 0 <= a < |hs| && hs[a] == r;
      var t := CycleReaches(i, a, |hs|);
      WalkGoesRound(rows, p, walk, i, t);
    }
  }

  /** A walk of one full cycle meets every matching row exactly once. */
  lemma OneCycleMeetsEveryMatchOnce<T>(rows: seq<T>, p: T -> bool, walk: seq<nat>, r: nat)
    requires |walk| == |Hits(rows, p)| > 0 && Walks(rows, p, walk) && walk[0] in Hits(rows, p)
    ensures Distinct(walk)
    ensures r in walk <==> r < |rows| && p(rows[r])
  {
    var hs := Hits(rows, p);
    var i :| 0 <= i < |hs| && hs[i] == walk[0];
    WalkIsDistinct(rows, p, walk, i);
    WalkMeets(rows, p, walk, i, r);
    HitsSpec(rows, p);
  }

  lemma LastNStep<T>(rows: seq<T>, row: T, n: nat)
    requires |rows| <= n && n > 0
    ensures LastN(rows + [row], n) == if |rows| < n then rows + [row] else rows[1..] + [row]
  {
  }

  /** Writing over the oldest line and moving the head drops it and appends. */
  lemma OverwriteOldest<T>(lines: seq<T>, head: nat, row: T)
    requires head < |lines|
    ensures var n, next := lines[head := row], if head + 1 < |lines| then head + 1 else 0;
            n[next..] + n[..next] == (lines[head..] + lines[..head])[1..] + [row]
  {
  }

  // ----- The ring -----

  class Ring<T> {
    var capacity: nat
    var lines: seq<T>
    var head: nat
    var len: nat

    /** Fewer rows than the capacity lie in order; a full ring starts at `head`. */
    ghost predicate Valid()
      reads this
    {
      && |lines| == len <= capacity
      && (len < capacity ==> head == len)
      && (len == capacity > 0 ==> head < capacity)
    }

    /** The retained rows, oldest first. */
    ghost function Rows(): (rows: seq<T>)
      reads this
      requires Valid()
    {
      if len < capacity || capacity == 0 then lines else lines[head..] + lines[..head]
    }

    ghost function Abs(): (q: Queue<T>)
      reads this
      requires Valid()
    {
      Queue(capacity, Rows())
    }

    constructor (cap: nat)
      ensures Valid() && Abs() == Queue(cap, [])
    {
      capacity, lines, head, len := cap, [], 0, 0;
    }

    /** Append a row. The program divides by the capacity, so it must not be zero. */
    method PushLine(line: T)
      requires Valid() && capacity >= 1
      modifies this
      ensures Valid() && Abs() == Apply(old(Abs()), Push(line))
    {
      ghost var was := Rows();
      Store(line);
      if len < capacity {
        len := len + 1;
      }
      Advance();
      LastNStep(was, line, capacity);
      if old(len) < capacity {
        assert head == 0 ==> lines[head..] + lines[..head] == lines;
      } else {
        OverwriteOldest(old(lines), old(head), line);
      }
    }

    method Advance()
      requires head < capacity
      modifies this`head
      ensures head == if old(head) + 1 < capacity then old(head) + 1 else 0
    {
      WrapOnce(head + 1, capacity);
      head := (head + 1) % capacity;
    }

    /** Append the line to a ring that is not full, or write it over the oldest. */
    method Store(line: T)
      requires Valid() && capacity >= 1
      modifies this`lines
      ensures lines == if len < capacity then old(lines) + [line] else old(lines)[head := line]
    {
      if len < capacity {
        if |lines| <= head {
          lines := lines + [line];
        } else {
          assert false;
        }
      } else {
        if |lines| <= head {
          assert false;
        } else {
          lines := lines[head := line];
        }
      }
    }

    /** The i-th retained row, through the ring. */
    method Get(idx: nat) returns (row: Option<T>)
      requires Valid()
      ensures row == if idx < |Rows()| then Some(Rows()[idx]) else None
    {
      if idx >= len {
        return None;
      }
      var actual := if len < capacity then idx else (head + idx) % capacity;
      if len >= capacity {
        WrapOnce(head + idx, capacity);
      }
      row := if actual < |lines| then Some(lines[actual]) else None;
    }

    /** Read off the rows from one on, in order. */
    method Retained(keepFrom: nat) returns (kept: seq<T>)
      requires Valid() && keepFrom <= len
      ensures kept == Rows()[keepFrom..]
    {
      kept := [];
      var idx := keepFrom;
      while idx < len
        invariant keepFrom <= idx <= len
        invariant kept == Rows()[keepFrom..idx]
      {
        var row := Get(idx);
        match row {
          case Some(r) => kept := kept + [r];
          case None =>
        }
        idx := idx + 1;
      }
    }

    /** Keep the most recent rows under a new capacity of at least one. */
    method SetCapacity(newCapacity: nat)
      requires Valid()
      modifies this
      ensures Valid() && Abs() == Apply(old(Abs()), Op<T>.SetCapacity(newCapacity))
      ensures capacity == (if newCapacity < 1 then 1 else newCapacity)
      ensures Rows() == MostRecent(old(Rows()), capacity)
    {
      Resized(Abs(), newCapacity);
      var cap := if newCapacity < 1 then 1 else newCapacity;
      if cap == capacity {
        return;
      }
      var kept := Retained(SaturatingSub(len, cap));
      Rebuild(kept, cap);
    }

    /** Start over with these rows, in order. */
    method Rebuild(kept: seq<T>, cap: nat)
      requires 1 <= cap && |kept| <= cap
      modifies this
      ensures Valid() && Abs() == Queue(cap, kept)
    {
      capacity := cap;
      len := |kept|;
      lines := kept;
      head := len % capacity;
      WrapOnce(len, capacity);
      assert lines[0..] + lines[..0] == lines;
    }

    /** First match at or after `from`, wrapping round. `re` is None for an empty or malformed
        pattern. */
    method SearchNext(re: Option<T -> bool>, from: nat) returns (r: Option<nat>)
      requires Valid()
      ensures re.None? ==> r == None
      ensures re.Some? ==> IsNext(Rows(), re.value, from, r)
    {
      if re.None? {
        return None;
      }
      var offset := 0;
      while offset < len
        invariant offset <= len
        invariant forall j :: 0 <= j < offset ==> !re.value(Rows()[Ahead(from, j, len)])
      {
        var rowIdx := (from + offset) % len;
        var row := Get(rowIdx);
        assert rowIdx == Ahead(from, offset, len);
        if row.Some? && re.value(row.value) {
          return Some(rowIdx);
        }
        offset := offset + 1;
      }
      forall k | 0 <= k < len
        ensures !re.value(Rows()[k])
      {
        AheadCovers(from, len, k);
      }
      return None;
    }

    /** First match strictly before `before`, wrapping round. */
    method SearchPrev(re: Option<T -> bool>, before: nat) returns (r: Option<nat>)
      requires Valid()
      ensures re.None? ==> r == None
      ensures re.Some? ==> IsPrev(Rows(), re.value, before, r)
    {
      if re.None? || len == 0 {
        return None;
      }
      var offset := 1;
      while offset <= len
        invariant 1 <= offset <= len + 1
        invariant forall j :: 1 <= j < offset ==> !re.value(Rows()[Back(before, j, len)])
      {
        var rowIdx := (before + len - offset) % len;
        var row := Get(rowIdx);
        assert rowIdx == Back(before, offset, len);
        if row.Some? && re.value(row.value) {
          return Some(rowIdx);
        }
        offset := offset + 1;
      }
      forall k | 0 <= k < len
        ensures !re.value(Rows()[k])
      {
        BackCovers(before, len, k);
      }
      return None;
    }
  }
}
