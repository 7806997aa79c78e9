/**
 Smooth cursor motion over exact reals. Instants are nanosecond counts; elapsed time is taken in
 whole milliseconds and never goes negative.
 */
module CursorMotion {

  datatype Motion = Motion(prevCol: real, prevRow: real, targetCol: nat, targetRow: nat, start: nat)
  datatype Point = Point(col: real, row: real)

  function Begin(col: nat, row: nat, now: nat): (s: Motion) {
    Motion(col as real, row as real, col, row, now)
  }

  function EaseOutCubic(t: real): (e: real) {
    var inv := 1.0 - t;
    1.0 - inv * inv * inv
  }

  /** Half way through the time, an eighth of the way is left, and what is left of a share of the
      time left is the product of what is left of each. */
  lemma EaseIsCubic(a: real, b: real)
    ensures EaseOutCubic(0.5) == 0.875
    ensures 1.0 - EaseOutCubic(1.0 - Share(a, b))
            == Share(1.0 - EaseOutCubic(1.0 - a), 1.0 - EaseOutCubic(1.0 - b))
  {
  }

  function ElapsedMs(start: nat, now: nat): (ms: nat)
    ensures now <= start ==> ms == 0
    ensures start <= now ==> 1_000_000 * ms <= now - start < 1_000_000 * (ms + 1)
  {
    if now <= start then 0 else (now - start) / 1_000_000
  }

  function AnimationT(elapsedMs: nat, durationMs: nat): (t: real) {
    if durationMs == 0 then 1.0
    else
      var raw := elapsedMs as real / durationMs as real;
      if raw > 1.0 then 1.0 else raw
  }

  /** A share of a distance. */
  function Share(d: real, e: real): (x: real) {
    d * e
  }

  function Interpolate(prev: real, target: real, e: real): (x: real) {
    prev + Share(target - prev, e)
  }

  /** How much of the current glide is done, eased. */
  function Progress(start: nat, now: nat, durationMs: nat): (e: real) {
    EaseOutCubic(AnimationT(ElapsedMs(start, now), durationMs))
  }

  function VisiblePosition(s: Motion, now: nat, durationMs: nat): (p: Point) {
    var e := Progress(s.start, now, durationMs);
    Point(Interpolate(s.prevCol, s.targetCol as real, e), Interpolate(s.prevRow, s.targetRow as real, e))
  }

  function UpdateTarget(s: Motion, col: nat, row: nat, now: nat, durationMs: nat): (n: Motion) {
    if s.targetCol == col && s.targetRow == row then s
    else
      var p := VisiblePosition(s, now, durationMs);
      Motion(p.col, p.row, col, row, now)
  }

  // ----- Progress -----

  lemma SquareMono(u: real, v: real)
    requires 0.0 <= u <= v
    ensures 0.0 <= u * u <= v * v
  {
    assert v * v - u * u == (v - u) * (v + u);
  }

  lemma ProductMono(a: real, b: real, c: real, d: real)
    requires 0.0 <= a <= b && 0.0 <= c <= d
    ensures 0.0 <= a * c <= b * d
  {
    assert a * c <= b * c;
    assert b * c <= b * d;
  }

  lemma CubeMono(u: real, v: real)
    requires 0.0 <= u <= v
    ensures 0.0 <= u * u * u <= v * v * v
  {
    SquareMono(u, v);
    ProductMono(u * u, v * v, u, v);
  }

  lemma CubeIsZeroIff(u: real)
    ensures u * u * u == 0.0 <==> u == 0.0
  {
    if u > 0.0 {
      assert u * u > 0.0;
      assert u * u * u > 0.0;
    } else if u < 0.0 {
      assert u * u > 0.0;
      assert u * u * u < 0.0;
    }
  }

  lemma EaseMono(t: real, u: real)
    requires 0.0 <= t <= u <= 1.0
    ensures 0.0 <= EaseOutCubic(t) <= EaseOutCubic(u) <= 1.0
    ensures t == 0.0 ==> EaseOutCubic(t) == 0.0
    ensures EaseOutCubic(u) == 1.0 <==> u == 1.0
  {
    CubeMono(1.0 - u, 1.0 - t);
    CubeMono(1.0 - t, 1.0);
    CubeIsZeroIff(1.0 - u);
  }

  lemma CubeGap(a: real, h: real)
    ensures a * a * a - (a - h) * (a - h) * (a - h) == h * (3.0 * (a * (a - h)) + h * h)
  {
    var b := a - h;
    assert a * a * a == (b + h) * (b + h) * (b + h);
    assert (b + h) * (b + h) * (b + h) == b * b * b + 3.0 * (b * b) * h + 3.0 * b * (h * h) + h * h * h;
    assert 3.0 * (a * b) == 3.0 * (b * b) + 3.0 * (h * b);
    assert h * (3.0 * (a * b) + h * h) == 3.0 * (b * b) * h + 3.0 * b * (h * h) + h * h * h;
  }

  /** The glide slows down: the same span of time covers strictly less ground later on. */
  lemma EaseDecelerates(t: real, u: real, h: real)
    requires 0.0 <= t < u && h > 0.0 && u + h <= 1.0
    ensures EaseOutCubic(u + h) - EaseOutCubic(u) < EaseOutCubic(t + h) - EaseOutCubic(t)
  {
    var a, b := 1.0 - t, 1.0 - u;
    CubeGap(a, h);
    CubeGap(b, h);
    StrictProduct(b, a, b - h, a - h);
    PositiveGap(h, 3.0 * (b * (b - h)) + h * h, 3.0 * (a * (a - h)) + h * h);
  }

  lemma StrictProduct(a: real, b: real, c: real, d: real)
    requires 0.0 < a < b && 0.0 <= c < d
    ensures a * c < b * d
  {
    assert b * d - a * c == (b - a) * d + a * (d - c);
    assert (b - a) * d >= 0.0;
    assert a * (d - c) > 0.0;
  }

  lemma PositiveGap(h: real, x: real, y: real)
    requires h > 0.0 && x < y
    ensures h * x < h * y
  {
    assert h * (y - x) > 0.0;
  }

  lemma ElapsedMono(start: nat, now: nat, later: nat)
    requires now <= later
    ensures ElapsedMs(start, now) <= ElapsedMs(start, later)
  {
  }

  lemma ElapsedAtLeast(start: nat, now: nat, ms: nat)
    requires now >= start + ms * 1_000_000
    ensures ElapsedMs(start, now) >= ms
  {
  }

  lemma SignOfProduct(a: real, r: real)
    requires r > 0.0
    ensures a * r >= 0.0 <==> a >= 0.0
  {
    if a >= 0.0 {
      assert a * r >= 0.0;
    } else {
      assert a * r < 0.0;
    }
  }

  lemma OrderByProduct(x: real, y: real, r: real)
    requires r > 0.0
    ensures x * r <= y * r <==> x <= y
  {
    assert (y - x) * r == y * r - x * r;
    SignOfProduct(y - x, r);
  }

  lemma AtLeastOne(y: real, r: real, b: real)
    requires r > 0.0 && y * r == b
    ensures y >= 1.0 <==> b >= r
  {
    assert (y - 1.0) * r == b - r;
    SignOfProduct(y - 1.0, r);
  }

  lemma RatioMono(a: nat, b: nat, d: nat)
    requires a <= b && d > 0
    ensures 0.0 <= a as real / d as real <= b as real / d as real
    ensures b as real / d as real >= 1.0 <==> b >= d
  {
    var x, y, r := a as real / d as real, b as real / d as real, d as real;
    assert x * r == a as real && y * r == b as real;
    SignOfProduct(x, r);
    OrderByProduct(x, y, r);
    AtLeastOne(y, r, b as real);
  }

  lemma AnimationMono(a: nat, b: nat, d: nat)
    requires a <= b
    ensures 0.0 <= AnimationT(a, d) <= AnimationT(b, d) <= 1.0
    ensures AnimationT(b, d) == 1.0 <==> b >= d
    ensures d > 0 ==> AnimationT(0, d) == 0.0
  {
    if d > 0 {
      RatioMono(a, b, d);
    }
  }

  /** Progress starts at zero, never falls, and is complete exactly when the duration is over. */
  lemma ProgressMono(start: nat, now: nat, later: nat, d: nat)
    requires now <= later
    ensures 0.0 <= Progress(start, now, d) <= Progress(start, later, d) <= 1.0
    ensures Progress(start, later, d) == 1.0 <==> ElapsedMs(start, later) >= d
    ensures d > 0 && now <= start ==> Progress(start, now, d) == 0.0
  {
    var a, b := ElapsedMs(start, now), ElapsedMs(start, later);
    ElapsedMono(start, now, later);
    AnimationMono(a, b, d);
    EaseMono(AnimationT(a, d), AnimationT(b, d));
  }

  // ----- One glide -----

  lemma InterpolateEnds(prev: real, target: real, e: real)
    ensures e == 0.0 ==> Interpolate(prev, target, e) == prev
    ensures e == 1.0 ==> Interpolate(prev, target, e) == target
    ensures Interpolate(prev, target, e) == target <==> prev == target || e == 1.0
  {
    if Interpolate(prev, target, e) == target {
      assert (target - prev) * (1.0 - e) == 0.0;
      ZeroProduct(target - prev, 1.0 - e);
    }
  }

  lemma ZeroProduct(a: real, b: real)
    requires a * b == 0.0
    ensures a == 0.0 || b == 0.0
  {
    if b != 0.0 {
      assert a == (a * b) / b;
    }
  }

  /** `x` lies between `from` and `to`. */
  predicate Between(from: real, x: real, to: real) {
    from <= x <= to || to <= x <= from
  }

  lemma ScaledMono(d: real, e: real, f: real)
    requires d >= 0.0 && 0.0 <= e <= f <= 1.0
    ensures 0.0 <= d * e <= d * f <= d
  {
    ProductMono(d, d, e, f);
    ProductMono(d, d, f, 1.0);
  }

  lemma ScaledDown(d: real, e: real, f: real)
    requires d <= 0.0 && 0.0 <= e <= f <= 1.0
    ensures d <= d * f <= d * e <= 0.0
  {
    ScaledMono(-d, e, f);
    assert (-d) * e == -(d * e) && (-d) * f == -(d * f);
  }

  lemma SharesUp(d: real, e: real, f: real)
    requires d >= 0.0 && 0.0 <= e <= f <= 1.0
    ensures 0.0 <= Share(d, e) <= Share(d, f) <= d
  {
    ScaledMono(d, e, f);
  }

  lemma SharesDown(d: real, e: real, f: real)
    requires d <= 0.0 && 0.0 <= e <= f <= 1.0
    ensures d <= Share(d, f) <= Share(d, e) <= 0.0
  {
    ScaledDown(d, e, f);
  }

  lemma SharesInOrder(d: real, e: real, f: real)
    requires 0.0 <= e <= f <= 1.0
    ensures 0.0 <= Share(d, e) <= Share(d, f) <= d || d <= Share(d, f) <= Share(d, e) <= 0.0
  {
    if d >= 0.0 {
      SharesUp(d, e, f);
    } else {
      SharesDown(d, e, f);
    }
  }

  lemma InterpolateMono(prev: real, target: real, e: real, f: real)
    requires 0.0 <= e <= f <= 1.0
    ensures Between(Interpolate(prev, target, e), Interpolate(prev, target, f), target)
  {
    SharesInOrder(target - prev, e, f);
  }

  /** Between retargets the cursor only ever moves towards its target. */
  lemma MovesTowardTarget(s: Motion, now: nat, later: nat, d: nat)
    requires now <= later
    ensures var p, q := VisiblePosition(s, now, d), VisiblePosition(s, later, d);
            && Between(p.col, q.col, s.targetCol as real)
            && Between(p.row, q.row, s.targetRow as real)
  {
    ProgressMono(s.start, now, later, d);
    InterpolateMono(s.prevCol, s.targetCol as real, Progress(s.start, now, d), Progress(s.start, later, d));
    InterpolateMono(s.prevRow, s.targetRow as real, Progress(s.start, now, d), Progress(s.start, later, d));
  }

  function Target(s: Motion): (p: Point) {
    Point(s.targetCol as real, s.targetRow as real)
  }

  function Previous(s: Motion): (p: Point) {
    Point(s.prevCol, s.prevRow)
  }

  /** The cursor is on its target exactly when the duration is over or it never had to move. */
  lemma OnTargetIff(s: Motion, now: nat, d: nat)
    ensures VisiblePosition(s, now, d) == Target(s) <==> ElapsedMs(s.start, now) >= d || Previous(s) == Target(s)
  {
    ProgressMono(s.start, now, now, d);
    InterpolateEnds(s.prevCol, s.targetCol as real, Progress(s.start, now, d));
    InterpolateEnds(s.prevRow, s.targetRow as real, Progress(s.start, now, d));
  }

  /** A new motion stands still on its cell. */
  lemma BeginStandsStill(col: nat, row: nat, start: nat, now: nat, d: nat)
    ensures VisiblePosition(Begin(col, row, start), now, d) == Point(col as real, row as real)
  {
    OnTargetIff(Begin(col, row, start), now, d);
  }

  /** A retarget does not move the visible cursor exactly when motion is on or the target stays. */
  lemma RetargetIsContinuousIff(s: Motion, col: nat, row: nat, now: nat, d: nat)
    ensures VisiblePosition(UpdateTarget(s, col, row, now, d), now, d) == VisiblePosition(s, now, d)
            <==> d > 0 || (s.targetCol == col && s.targetRow == row)
  {
    if s.targetCol != col || s.targetRow != row {
      var p, n := VisiblePosition(s, now, d), UpdateTarget(s, col, row, now, d);
      if d > 0 {
        ProgressMono(now, now, now, d);
        InterpolateEnds(p.col, col as real, 0.0);
        InterpolateEnds(p.row, row as real, 0.0);
      } else {
        OnTargetIff(s, now, 0);
        OnTargetIff(n, now, 0);
        assert p == Target(s) && VisiblePosition(n, now, d) == Target(n);
      }
    }
  }

  // ----- Runs of retargets -----

  datatype Report = Report(col: nat, row: nat, now: nat)

  /** Reports arrive at non-decreasing times, none before `from`. */
  predicate InOrder(reports: seq<Report>, from: nat) {
    |reports| > 0 ==> reports[0].now >= from && InOrder(reports[1..], reports[0].now)
  }

  function Run(s: Motion, reports: seq<Report>, d: nat): (n: Motion)
    decreases |reports|
  {
    if reports == [] then s
    else Run(UpdateTarget(s, reports[0].col, reports[0].row, reports[0].now, d), reports[1..], d)
  }

  /** A half-plane of the grid. */
  datatype HalfPlane = HalfPlane(a: real, b: real, k: real)

  function Height(h: HalfPlane, x: real, y: real): (v: real) {
    h.a * x + h.b * y
  }

  predicate Holds(h: HalfPlane, p: Point) {
    Height(h, p.col, p.row) <= h.k
  }

  predicate HoldsAll(h: HalfPlane, reports: seq<Report>) {
    |reports| > 0 ==> Holds(h, Point(reports[0].col as real, reports[0].row as real)) && HoldsAll(h, reports[1..])
  }

  lemma LineStep(a: real, x: real, u: real, e: real)
    ensures a * Interpolate(x, u, e) == Interpolate(a * x, a * u, e)
  {
    var w := u - x;
    assert a * (x + w * e) == a * x + a * (w * e);
    assert a * (w * e) == (a * w) * e;
    assert a * w == a * u - a * x;
  }

  lemma InterpolateSum(p: real, u: real, q: real, v: real, e: real)
    ensures Interpolate(p, u, e) + Interpolate(q, v, e) == Interpolate(p + q, u + v, e)
  {
    assert (u - p) * e + (v - q) * e == ((u - p) + (v - q)) * e;
  }

  lemma InterpolateBelow(p: real, u: real, e: real, k: real)
    requires p <= k && u <= k && 0.0 <= e <= 1.0
    ensures Interpolate(p, u, e) <= k
  {
    InterpolateMono(p, u, 0.0, e);
    InterpolateEnds(p, u, 0.0);
  }

  lemma LineStaysBelow(a: real, b: real, k: real, p: real, u: real, q: real, v: real, e: real)
    requires a * p + b * q <= k && a * u + b * v <= k && 0.0 <= e <= 1.0
    ensures a * Interpolate(p, u, e) + b * Interpolate(q, v, e) <= k
  {
    var px, ux, qx, vx := a * p, a * u, b * q, b * v;
    LineStep(a, p, u, e);
    LineStep(b, q, v, e);
    InterpolateSum(px, ux, qx, vx, e);
    InterpolateBelow(px + qx, ux + vx, e, k);
  }

  /** A half-plane that holds both ends of a glide holds all of it. */
  lemma GlideStaysIn(h: HalfPlane, s: Motion, now: nat, d: nat)
    requires Holds(h, Previous(s)) && Holds(h, Target(s))
    ensures Holds(h, VisiblePosition(s, now, d))
  {
    ProgressMono(s.start, now, now, d);
    LineStaysBelow(h.a, h.b, h.k, s.prevCol, s.targetCol as real, s.prevRow, s.targetRow as real,
                   Progress(s.start, now, d));
  }

  lemma RetargetStaysIn(h: HalfPlane, s: Motion, r: Report, d: nat)
    requires Holds(h, Previous(s)) && Holds(h, Target(s)) && Holds(h, Point(r.col as real, r.row as real))
    ensures var n := UpdateTarget(s, r.col, r.row, r.now, d); Holds(h, Previous(n)) && Holds(h, Target(n))
  {
    GlideStaysIn(h, s, r.now, d);
    RetargetEnds(s, r, d);
  }

  lemma RetargetEnds(s: Motion, r: Report, d: nat)
    ensures var n := UpdateTarget(s, r.col, r.row, r.now, d);
            && Target(n) == Point(r.col as real, r.row as real)
            && (Previous(n) == VisiblePosition(s, r.now, d) || n == s)
  {
  }

  /** The visible cursor never leaves the convex hull of where it began and every target so
      far: each half-plane that holds those points holds the cursor, at any later time. */
  lemma {:induction false} NeverLeavesHull(h: HalfPlane, s: Motion, reports: seq<Report>, now: nat, d: nat)
    requires Holds(h, Previous(s)) && Holds(h, Target(s)) && HoldsAll(h, reports)
    ensures Holds(h, VisiblePosition(Run(s, reports, d), now, d))
    decreases |reports|
  {
    if reports == [] {
      GlideStaysIn(h, s, now, d);
    } else {
      var r := reports[0];
      RetargetStaysIn(h, s, r, d);
      NeverLeavesHull(h, UpdateTarget(s, r.col, r.row, r.now, d), reports[1..], now, d);
    }
  }

  /** The target is the last one reported, and the glide began no later than that report. */
  lemma {:induction false} RunTracksLast(s: Motion, reports: seq<Report>, d: nat)
    requires |reports| > 0 && InOrder(reports, s.start)
    ensures var n, r := Run(s, reports, d), reports[|reports| - 1];
            n.targetCol == r.col && n.targetRow == r.row && n.start <= r.now
    decreases |reports|
  {
    var r := reports[0];
    var n := UpdateTarget(s, r.col, r.row, r.now, d);
    if |reports| > 1 {
      assert InOrder(reports[1..], n.start) by {
        assert reports[1..][0].now >= r.now >= n.start;
      }
      RunTracksLast(n, reports[1..], d);
      assert reports[1..][|reports| - 2] == reports[|reports| - 1];
    } else {
      assert Run(n, reports[1..], d) == n;
    }
  }

  /** Once a full duration has passed since the last report, the cursor is where it was reported. */
  lemma RunSettles(s: Motion, reports: seq<Report>, now: nat, d: nat)
    requires |reports| > 0 && InOrder(reports, s.start)
    requires now >= reports[|reports| - 1].now + d * 1_000_000
    ensures var r := reports[|reports| - 1];
            VisiblePosition(Run(s, reports, d), now, d) == Point(r.col as real, r.row as real)
  {
    var n := Run(s, reports, d);
    RunTracksLast(s, reports, d);
    ElapsedAtLeast(n.start, now, d);
    OnTargetIff(n, now, d);
  }

  /** Over a whole run the cursor never jumps: each report leaves it where it was. */
  lemma {:induction false} RunIsContinuous(s: Motion, reports: seq<Report>, i: nat, d: nat)
    requires d > 0 && i < |reports|
    ensures VisiblePosition(Run(s, reports[..i + 1], d), reports[i].now, d)
         == VisiblePosition(Run(s, reports[..i], d), reports[i].now, d)
    decreases i
  {
    var r := reports[0];
    var n := UpdateTarget(s, r.col, r.row, r.now, d);
    if i == 0 {
      assert reports[..1] == [r] && reports[..0] == [];
      assert Run(n, [], d) == n;
      RetargetIsContinuousIff(s, r.col, r.row, r.now, d);
    } else {
      RunIsContinuous(n, reports[1..], i - 1, d);
      assert reports[..i + 1][1..] == reports[1..][..i];
      assert reports[..i][1..] == reports[1..][..i - 1];
    }
  }

  /** Reporting the position again does not restart the glide. */
  lemma RepeatedReportIsIgnored(s: Motion, r: Report, again: nat, d: nat)
    ensures Run(s, [r, r.(now := again)], d) == Run(s, [r], d)
  {
    var n := UpdateTarget(s, r.col, r.row, r.now, d);
    var twice, once := [r, r.(now := again)], [r];
    assert twice[1..] == [r.(now := again)] && twice[1..][1..] == [] && once[1..] == [];
    assert Run(s, once, d) == Run(n, [], d) == n;
    assert Run(s, twice, d) == Run(n, twice[1..], d);
    assert Run(n, twice[1..], d) == Run(n, [], d);
  }
}
