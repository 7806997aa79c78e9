/**
 What a whole frame draws, and the texture it is submitted with: when the atlas is not reset in
 the course of a frame, everything drawn in it is right.
 */
module FrameDrawing {
  import opened Wrappers
  import opened LruCache
  import opened AtlasModel
  import opened AtlasRuns
  import opened PaneCache

  // ----- What a frame draws -----

  function GridShown(r: Renderer, grid: Grid): (ps: seq<Placement>) {
    if Reuses(r, grid) then r.cached[grid.id].placements else DrawAll(r.atlas, grid.drawings).1
  }

  function PaneShown(r: Renderer, pane: Pane): (ps: seq<Placement>) {
    (if pane.grid.Some? then GridShown(r, pane.grid.value) else [])
    + DrawAll(GridDone(r, pane).atlas, pane.uncached).1
  }

  function PanesShown(r: Renderer, panes: seq<Pane>): (ps: seq<Placement>)
    decreases |panes|
  {
    if panes == [] then [] else PaneShown(r, panes[0]) + PanesShown(DrawPane(r, panes[0]), panes[1..])
  }

  /** Every glyph the frame appends to the vertex buffers, from a kept batch or drawn now. */
  function FrameShown(r: Renderer, f: Frame): (ps: seq<Placement>) {
    PanesShown(BeginRender(r), f.panes) + DrawAll(PanesDone(r, f).atlas, f.overlays).1
  }

  // ----- When all that a frame draws is right -----

  predicate GridOverflows(r: Renderer, grid: Grid) {
    !Reuses(r, grid) && AnyOverflow(r.atlas, grid.drawings)
  }

  predicate PaneOverflows(r: Renderer, pane: Pane) {
    || (pane.grid.Some? && GridOverflows(r, pane.grid.value))
    || AnyOverflow(GridDone(r, pane).atlas, pane.uncached)
  }

  predicate PanesOverflow(r: Renderer, panes: seq<Pane>)
    decreases |panes|
  {
    panes != [] && (PaneOverflows(r, panes[0]) || PanesOverflow(DrawPane(r, panes[0]), panes[1..]))
  }

  /** Some glyph of the frame meets the guard of the reset when it is drawn. */
  predicate FrameOverflows(r: Renderer, f: Frame) {
    PanesOverflow(BeginRender(r), f.panes) || AnyOverflow(PanesDone(r, f).atlas, f.overlays)
  }

  lemma {:induction false} PaneResetsIff(r: Renderer, pane: Pane)
    ensures var n := DrawPane(r, pane).atlas.history.resets;
            n >= r.atlas.history.resets && (n == r.atlas.history.resets <==> !PaneOverflows(r, pane))
  {
    if pane.grid.Some? {
      ResetsIffOverflow(r.atlas, pane.grid.value.drawings);
    }
    ResetsIffOverflow(GridDone(r, pane).atlas, pane.uncached);
  }

  lemma {:induction false} PanesResetIff(r: Renderer, panes: seq<Pane>)
    ensures var n := DrawPanes(r, panes).atlas.history.resets;
            n >= r.atlas.history.resets && (n == r.atlas.history.resets <==> !PanesOverflow(r, panes))
    decreases |panes|
  {
    if panes != [] {
      PaneResetsIff(r, panes[0]);
      PanesResetIff(DrawPane(r, panes[0]), panes[1..]);
    }
  }

  /** The atlas is reset in the course of a frame if and only if one of its glyphs overflows. */
  lemma {:induction false} FrameResetsIffOverflow(r: Renderer, f: Frame)
    ensures Submitted(r, f).history.resets >= r.atlas.history.resets
    ensures Submitted(r, f).history.resets == r.atlas.history.resets <==> !FrameOverflows(r, f)
  {
    PanesResetIff(BeginRender(r), f.panes);
    ResetsIffOverflow(PanesDone(r, f).atlas, f.overlays);
  }

  /** All these glyphs are live: the texture holds them, and will until the next reset. */
  ghost predicate AllLive(s: State, ps: seq<Placement>) {
    forall p :: p in ps ==> p in s.history.live
  }

  /** Nothing was reset from `s` to `n`, and nothing live was lost. */
  ghost predicate Follows(s: State, n: State) {
    Inv(n) && n.size == s.size && n.history.resets == s.history.resets && s.history.live <= n.history.live
  }

  lemma {:induction false} DrawAllLive(s: State, ds: seq<Drawing>)
    requires Inv(s) && FitAll(s, ds) && !AnyOverflow(s, ds)
    ensures Follows(s, DrawAll(s, ds).0) && AllLive(DrawAll(s, ds).0, DrawAll(s, ds).1)
  {
    DrawAllSpec(s, ds);
    ResetsIffOverflow(s, ds);
  }

  lemma {:induction false} GridLive(r: Renderer, grid: Grid)
    requires BatchInv(r) && Current(r) && FitAll(r.atlas, grid.drawings) && !GridOverflows(r, grid)
    ensures Follows(r.atlas, DrawGrid(r, grid).atlas) && AllLive(DrawGrid(r, grid).atlas, GridShown(r, grid))
  {
    if Reuses(r, grid) {
      assert BatchOk(r.cached[grid.id], r.atlas);
    } else {
      DrawAllLive(r.atlas, grid.drawings);
    }
  }

  lemma {:induction false} FollowsFit(s: State, n: State, ps: seq<Placement>)
    requires Follows(s, n) && AllLive(s, ps)
    ensures AllLive(n, ps)
  {
  }

  lemma {:induction false} PaneLive(r: Renderer, pane: Pane)
    requires BatchInv(r) && Current(r) && FitPane(r.atlas, pane) && !PaneOverflows(r, pane)
    ensures Follows(r.atlas, DrawPane(r, pane).atlas) && AllLive(DrawPane(r, pane).atlas, PaneShown(r, pane))
  {
    var g := GridDone(r, pane);
    if pane.grid.Some? {
      GridLive(r, pane.grid.value);
      DrawAllLive(g.atlas, pane.uncached);
      FollowsFit(g.atlas, DrawPane(r, pane).atlas, GridShown(r, pane.grid.value));
    } else {
      DrawAllLive(r.atlas, pane.uncached);
    }
  }

  /** A pane that does not overflow leaves the batches current. */
  lemma {:induction false} PaneKeepsCurrent(r: Renderer, pane: Pane)
    requires BatchInv(r) && Current(r) && FitPane(r.atlas, pane) && !PaneOverflows(r, pane)
    ensures BatchInv(DrawPane(r, pane)) && Current(DrawPane(r, pane))
  {
    DrawPaneSpec(r, pane);
    PaneResetsIff(r, pane);
  }

  lemma {:induction false} LiveJoin(s: State, m: State, n: State, ps: seq<Placement>, qs: seq<Placement>)
    requires Follows(s, m) && Follows(m, n) && AllLive(m, ps) && AllLive(n, qs)
    ensures Follows(s, n) && AllLive(n, ps + qs)
  {
  }

  lemma {:induction false} PanesLive(r: Renderer, panes: seq<Pane>)
    requires BatchInv(r) && Current(r) && FitPanes(r.atlas, panes) && !PanesOverflow(r, panes)
    ensures Follows(r.atlas, DrawPanes(r, panes).atlas) && AllLive(DrawPanes(r, panes).atlas, PanesShown(r, panes))
    ensures BatchInv(DrawPanes(r, panes)) && Current(DrawPanes(r, panes))
    decreases |panes|
  {
    if panes != [] {
      var n := DrawPane(r, panes[0]);
      FitRest(r.atlas, r.atlas, panes);
      PaneLive(r, panes[0]);
      PaneKeepsCurrent(r, panes[0]);
      FitRest(r.atlas, n.atlas, panes);
      PanesLive(n, panes[1..]);
      LiveJoin(r.atlas, n.atlas, DrawPanes(n, panes[1..]).atlas, PaneShown(r, panes[0]), PanesShown(n, panes[1..]));
    }
  }

  lemma {:induction false} LiveShow(s: State, ps: seq<Placement>)
    requires Inv(s) && AllLive(s, ps)
    ensures AllShow(s.texture, ps)
  {
  }

  /** In a frame without overflow that starts with current batches, every glyph drawn, from a kept
      batch or now, shows its pixels in the texture the frame is submitted with. */
  lemma {:induction false} FrameShowsRight(r: Renderer, f: Frame)
    requires BatchInv(r) && Current(r) && LegalFrame(r, f) && !FrameOverflows(r, f)
    ensures AllShow(Submitted(r, f).texture, FrameShown(r, f))
    ensures forall id :: id in PanesDone(r, f).cached ==>
              AllShow(Submitted(r, f).texture, PanesDone(r, f).cached[id].placements)
  {
    var b := BeginRender(r);
    var d := DrawPanes(b, f.panes);
    BeginKeeps(r);
    PanesLive(b, f.panes);
    DrawAllLive(d.atlas, f.overlays);
    FollowsFit(d.atlas, Submitted(r, f), PanesShown(b, f.panes));
    LiveShow(Submitted(r, f), FrameShown(r, f));
    KeptStayLive(PanesDone(r, f), Submitted(r, f));
  }

  lemma {:induction false} KeptStayLive(p: Renderer, s: State)
    requires BatchInv(p) && Current(p) && Follows(p.atlas, s)
    ensures forall id :: id in p.cached ==> AllShow(s.texture, p.cached[id].placements)
  {
    forall id | id in p.cached
      ensures AllShow(s.texture, p.cached[id].placements)
    {
      assert BatchOk(p.cached[id], p.atlas);
      FollowsFit(p.atlas, s, p.cached[id].placements);
      LiveShow(s, p.cached[id].placements);
    }
  }

  // ----- Over whole runs of frames -----

  function RenderAll(r: Renderer, fs: seq<Frame>): (n: Renderer)
    decreases |fs|
  {
    if fs == [] then r else RenderAll(RenderFrame(r, fs[0]), fs[1..])
  }

  /** Every frame draws glyphs that fit, and none breaks the trust in the cache. */
  ghost predicate TrustedFrames(r: Renderer, fs: seq<Frame>)
    decreases |fs|
  {
    fs == [] || (LegalFrame(r, fs[0]) && Trusted(r, fs[0]) && TrustedFrames(RenderFrame(r, fs[0]), fs[1..]))
  }

  /** The renderer as it starts up. */
  function Startup(atlasSize: nat, blank: Texture): (r: Renderer) {
    Renderer(NewWithConfig(atlasSize, blank), map[])
  }

  lemma {:induction false} TrustedFramesKeep(r: Renderer, fs: seq<Frame>)
    requires BatchInv(r) && Current(r) && !r.atlas.needsGrow && TrustedFrames(r, fs)
    ensures var n := RenderAll(r, fs); BatchInv(n) && Current(n) && !n.atlas.needsGrow
    decreases |fs|
  {
    if fs != [] {
      CacheTrustedIff(r, fs[0]);
      TrustedFramesKeep(RenderFrame(r, fs[0]), fs[1..]);
    }
  }

  /** From start-up: after frames in which no overlay overflowed the atlas while batches were kept,
      a frame without overflow shows all it draws right when it is submitted. */
  lemma {:induction false} TrustedFramesDrawRight(atlasSize: nat, blank: Texture, fs: seq<Frame>, f: Frame)
    requires TrustedFrames(Startup(atlasSize, blank), fs)
    requires LegalFrame(RenderAll(Startup(atlasSize, blank), fs), f)
    requires !FrameOverflows(RenderAll(Startup(atlasSize, blank), fs), f)
    ensures var r := RenderAll(Startup(atlasSize, blank), fs);
            AllShow(Submitted(r, f).texture, FrameShown(r, f))
  {
    NewWithConfigInv(atlasSize, blank);
    TrustedFramesKeep(Startup(atlasSize, blank), fs);
    FrameShowsRight(RenderAll(Startup(atlasSize, blank), fs), f);
  }
}
