/**
 How large the atlas becomes: over runs of operations, and over frames, where an overflow is
 answered with a growth until the configured maximum is reached.
 */
module AtlasGrowth {
  import opened Wrappers
  import opened LruCache
  import opened AtlasModel
  import opened AtlasRuns
  import opened PaneCache
  import opened FrameDrawing

  /** `side` doubled `n` times. */
  function Doubled(side: nat, n: nat): (d: nat)
    ensures d >= side
    decreases n
  {
    if n == 0 then side else Doubled(2 * side, n - 1)
  }

  lemma {:induction false} DoubledMono(a: nat, b: nat, n: nat)
    requires a <= b
    ensures Doubled(a, n) <= Doubled(b, n)
    decreases n
  {
    if n > 0 {
      DoubledMono(2 * a, 2 * b, n - 1);
    }
  }

  /** Doubling after a stop at the maximum ends where doubling without the stop does. */
  lemma {:induction false} DoubledUpTo(side: nat, max: nat, n: nat)
    ensures Min(max, Doubled(Min(side, max), n)) == Min(max, Doubled(side, n))
  {
    if side > max {
      DoubledMono(max, side, n);
    }
  }

  // ----- Runs of operations -----

  function Growths(ops: seq<Op>): (n: nat) {
    if ops == [] then 0 else (if ops[0].Enlarge? then 1 else 0) + Growths(ops[1..])
  }

  lemma {:induction false} InsertKeepsSides(s: State, key: AtlasKey, bitmap: Bitmap)
    ensures var n := GetOrInsert(s, key, bitmap).0;
            && n.size == s.size && n.sizeMax == s.sizeMax
            && (n.needsGrow <==> s.needsGrow || (n.history.resets != s.history.resets && s.size < s.sizeMax))
  {
  }

  lemma {:induction false} StepSides(s: State, op: Op)
    requires s.size <= s.sizeMax
    ensures var n := Step(s, op);
            && n.sizeMax == s.sizeMax
            && n.size == if op.Enlarge? then Min(2 * s.size, s.sizeMax) else s.size
  {
    if op.Draw? {
      InsertKeepsSides(s, op.key, op.bitmap);
    }
  }

  lemma {:induction false} RunSides(s: State, ops: seq<Op>)
    requires s.size <= s.sizeMax
    ensures var n := Run(s, ops);
            && n.sizeMax == s.sizeMax
            && n.size == Min(s.sizeMax, Doubled(s.size, Growths(ops)))
    decreases |ops|
  {
    if ops != [] {
      StepSides(s, ops[0]);
      RunSides(Step(s, ops[0]), ops[1..]);
      DoubledUpTo(2 * s.size, s.sizeMax, Growths(ops[1..]));
    }
  }

  /** How many growths it takes from start-up to the maximum. */
  function GrowthsNeeded(max: nat): (n: nat) {
    if max <= 1024 then 0 else if max <= 2048 || max % 2 == 0 then 1 else 2
  }

  lemma {:induction false} DoubledFromHalf(max: nat, n: nat)
    requires max >= 1024
    ensures Doubled(if max / 2 < 1024 then 1024 else max / 2, n) >= max <==> n >= GrowthsNeeded(max)
  {
    var half := if max / 2 < 1024 then 1024 else max / 2;
    if n == 1 {
      assert Doubled(half, 1) == Doubled(2 * half, 0);
    } else if n >= 2 {
      assert Doubled(half, n) == Doubled(2 * half, n - 1) == Doubled(2 * (2 * half), n - 2);
    }
  }

  /** The side after any run from a newly configured atlas: the first side doubled once for every
      growth, up to the configured maximum, which is reached after at most two growths. */
  lemma {:induction false} SideAfterRun(atlasSize: nat, blank: Texture, ops: seq<Op>)
    ensures var s := NewWithConfig(atlasSize, blank);
            var n := Run(s, ops);
            && n.sizeMax == (if atlasSize < 1024 then 1024 else atlasSize)
            && n.size == Min(n.sizeMax, Doubled(s.size, Growths(ops)))
            && (n.size == n.sizeMax <==> Growths(ops) >= GrowthsNeeded(n.sizeMax))
  {
    var s := NewWithConfig(atlasSize, blank);
    RunSides(s, ops);
    DoubledFromHalf(s.sizeMax, Growths(ops));
  }

  // ----- Frames -----

  lemma {:induction false} DrawAllSides(s: State, ds: seq<Drawing>)
    ensures var n := DrawAll(s, ds).0;
            && n.size == s.size && n.sizeMax == s.sizeMax
            && (n.needsGrow <==> s.needsGrow || (AnyOverflow(s, ds) && s.size < s.sizeMax))
    decreases |ds|
  {
    if ds != [] {
      InsertKeepsSides(s, ds[0].key, ds[0].bitmap);
      OverflowResets(s, ds[0]);
      DrawAllSides(GetOrInsert(s, ds[0].key, ds[0].bitmap).0, ds[1..]);
    }
  }

  lemma {:induction false} PaneSides(r: Renderer, pane: Pane)
    ensures var s, n := r.atlas, DrawPane(r, pane).atlas;
            && n.size == s.size && n.sizeMax == s.sizeMax
            && (n.needsGrow <==> s.needsGrow || (PaneOverflows(r, pane) && s.size < s.sizeMax))
  {
    if pane.grid.Some? {
      DrawAllSides(r.atlas, pane.grid.value.drawings);
    }
    DrawAllSides(GridDone(r, pane).atlas, pane.uncached);
  }

  lemma {:induction false} PanesSides(r: Renderer, panes: seq<Pane>)
    ensures var s, n := r.atlas, DrawPanes(r, panes).atlas;
            && n.size == s.size && n.sizeMax == s.sizeMax
            && (n.needsGrow <==> s.needsGrow || (PanesOverflow(r, panes) && s.size < s.sizeMax))
    decreases |panes|
  {
    if panes != [] {
      PaneSides(r, panes[0]);
      PanesSides(DrawPane(r, panes[0]), panes[1..]);
    }
  }

  /** A frame ends with a larger atlas exactly when a glyph overflowed it and it was not yet at the
      maximum; the growth it asked for is done by then. */
  lemma {:induction false} FrameGrowsIffOverflow(r: Renderer, f: Frame)
    requires !r.atlas.needsGrow && r.atlas.size <= r.atlas.sizeMax
    ensures var s, n := r.atlas, RenderFrame(r, f).atlas;
            && n.sizeMax == s.sizeMax && !n.needsGrow
            && n.size == if FrameOverflows(r, f) then Min(2 * s.size, s.sizeMax) else s.size
  {
    PanesSides(BeginRender(r), f.panes);
    DrawAllSides(PanesDone(r, f).atlas, f.overlays);
  }

  /** In how many of the frames a glyph overflowed the atlas. */
  function Overflowing(r: Renderer, fs: seq<Frame>): (n: nat)
    decreases |fs|
  {
    if fs == [] then 0 else (if FrameOverflows(r, fs[0]) then 1 else 0) + Overflowing(RenderFrame(r, fs[0]), fs[1..])
  }

  lemma {:induction false} FramesGrow(r: Renderer, fs: seq<Frame>)
    requires !r.atlas.needsGrow && r.atlas.size <= r.atlas.sizeMax
    ensures var s, n := r.atlas, RenderAll(r, fs).atlas;
            && n.sizeMax == s.sizeMax && !n.needsGrow
            && n.size == Min(s.sizeMax, Doubled(s.size, Overflowing(r, fs)))
    decreases |fs|
  {
    if fs != [] {
      FrameGrowsIffOverflow(r, fs[0]);
      FramesGrow(RenderFrame(r, fs[0]), fs[1..]);
      DoubledUpTo(2 * r.atlas.size, r.atlas.sizeMax, Overflowing(RenderFrame(r, fs[0]), fs[1..]));
    }
  }

  /** From start-up the atlas is at its configured maximum exactly once enough frames, two at the
      most, have overflowed it. */
  lemma {:induction false} OverflowsReachMaximum(atlasSize: nat, blank: Texture, fs: seq<Frame>)
    ensures var r := Startup(atlasSize, blank);
            var n := RenderAll(r, fs).atlas;
            && n.sizeMax == (if atlasSize < 1024 then 1024 else atlasSize)
            && (n.size == n.sizeMax <==> Overflowing(r, fs) >= GrowthsNeeded(n.sizeMax))
  {
    var r := Startup(atlasSize, blank);
    FramesGrow(r, fs);
    DoubledFromHalf(r.atlas.sizeMax, Overflowing(r, fs));
  }
}
