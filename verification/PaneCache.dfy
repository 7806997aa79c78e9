/**
 The renderer's per-pane vertex cache, which keeps glyph rectangles across frames.

 A frame clears the reset flag, draws the panes (reusing cached batches while the flag is
 down), drops every batch if the flag went up, draws the overlays, submits, and finally grows
 the atlas if it asked for that. Uploads are queued as the glyphs are drawn and everything is
 submitted at once, so all that a frame draws is sampled from the texture as its last upload
 left it. This module says exactly when the batches kept for the next frame are right.
 */
module PaneCache {
  import opened Wrappers
  import opened LruCache
  import opened AtlasModel
  import opened AtlasRuns

  datatype Drawing = Drawing(key: AtlasKey, bitmap: Bitmap)

  /** The rectangles a pane's vertices point into, and the reset count when it was built. */
  datatype Batch = Batch(placements: seq<Placement>, epoch: nat)

  datatype Renderer = Renderer(atlas: State, cached: map<nat, Batch>)

  /** A pane's live grid. `reusable` says that neither content nor layout has changed. */
  datatype Grid = Grid(id: nat, reusable: bool, drawings: seq<Drawing>)

  /** One pane of a frame: the grid, unless the pane is scrolled back, and what is drawn outside
      the cache after it: scrollback text and command-block marks. */
  datatype Pane = Pane(grid: Option<Grid>, uncached: seq<Drawing>)

  datatype Frame = Frame(panes: seq<Pane>, overlays: seq<Drawing>, blank: Texture)

  predicate FitAll(s: State, ds: seq<Drawing>) {
    forall i :: 0 <= i < |ds| ==> Fits(s, ds[i].bitmap)
  }

  predicate FitPane(s: State, pane: Pane) {
    FitAll(s, pane.uncached) && (pane.grid.Some? ==> FitAll(s, pane.grid.value.drawings))
  }

  predicate FitPanes(s: State, panes: seq<Pane>) {
    forall i :: 0 <= i < |panes| ==> FitPane(s, panes[i])
  }

  // ----- The steps of a frame -----

  /** Draw in order, collecting the rectangles handed out. */
  function DrawAll(s: State, ds: seq<Drawing>): (r: (State, seq<Placement>))
    decreases |ds|
  {
    if ds == [] then (s, [])
    else
      var (s1, rect) := GetOrInsert(s, ds[0].key, ds[0].bitmap);
      var shown := if ds[0].key in s1.history.shown then s1.history.shown[ds[0].key] else ds[0].bitmap;
      var (s2, rest) := DrawAll(s1, ds[1..]);
      (s2, [Placement(ds[0].key, rect, shown)] + rest)
  }

  predicate Reuses(r: Renderer, grid: Grid) {
    !r.atlas.clearedThisFrame && grid.id in r.cached && grid.reusable
  }

  function DrawGrid(r: Renderer, grid: Grid): (n: Renderer) {
    if Reuses(r, grid) then r
    else
      var (s, placements) := DrawAll(r.atlas, grid.drawings);
      Renderer(s, r.cached[grid.id := Batch(placements, r.atlas.history.resets)])
  }

  function DrawUncached(r: Renderer, ds: seq<Drawing>): (n: Renderer) {
    r.(atlas := DrawAll(r.atlas, ds).0)
  }

  function GridDone(r: Renderer, pane: Pane): (n: Renderer) {
    if pane.grid.Some? then DrawGrid(r, pane.grid.value) else r
  }

  function DrawPane(r: Renderer, pane: Pane): (n: Renderer) {
    DrawUncached(GridDone(r, pane), pane.uncached)
  }

  function DrawPanes(r: Renderer, panes: seq<Pane>): (n: Renderer)
    decreases |panes|
  {
    if panes == [] then r else DrawPanes(DrawPane(r, panes[0]), panes[1..])
  }

  function BeginRender(r: Renderer): (n: Renderer) {
    r.(atlas := r.atlas.(clearedThisFrame := false))
  }

  function PurgeIfCleared(r: Renderer): (n: Renderer) {
    if r.atlas.clearedThisFrame then r.(cached := map[]) else r
  }

  function GrowIfNeeded(r: Renderer, blank: Texture): (n: Renderer) {
    if r.atlas.needsGrow then r.(atlas := Grow(r.atlas, blank)) else r
  }

  /** The renderer at the point where the panes are drawn and stale batches purged. */
  function PanesDone(r: Renderer, f: Frame): (n: Renderer) {
    PurgeIfCleared(DrawPanes(BeginRender(r), f.panes))
  }

  /** The atlas the frame is submitted with. */
  function Submitted(r: Renderer, f: Frame): (s: State) {
    DrawUncached(PanesDone(r, f), f.overlays).atlas
  }

  function RenderFrame(r: Renderer, f: Frame): (n: Renderer) {
    GrowIfNeeded(DrawUncached(PanesDone(r, f), f.overlays), f.blank)
  }

  // ----- Meaning -----

  /** No reset since the batch was built. */
  ghost predicate Current(r: Renderer) {
    forall id :: id in r.cached ==> r.cached[id].epoch == r.atlas.history.resets
  }

  /** A batch with the current reset count points at live rectangles only. */
  ghost predicate BatchOk(b: Batch, s: State) {
    && b.epoch <= s.history.resets
    && (b.epoch == s.history.resets ==> forall p :: p in b.placements ==> p in s.history.live)
  }

  ghost predicate BatchInv(r: Renderer) {
    Inv(r.atlas) && forall id :: id in r.cached ==> BatchOk(r.cached[id], r.atlas)
  }

  /** The texture holds the pixels of every one of these glyphs. */
  ghost predicate AllShow(texture: Texture, ps: seq<Placement>) {
    forall p :: p in ps ==> Shows(texture, p.rect, p.bitmap)
  }

  /** Every batch kept shows the pixels its pane drew when it was built. */
  ghost predicate KeptShow(r: Renderer) {
    forall id :: id in r.cached ==> AllShow(r.atlas.texture, r.cached[id].placements)
  }

  lemma {:induction false} CurrentShow(r: Renderer)
    requires BatchInv(r) && Current(r)
    ensures KeptShow(r)
  {
    forall id | id in r.cached
      ensures AllShow(r.atlas.texture, r.cached[id].placements)
    {
      assert BatchOk(r.cached[id], r.atlas);
    }
  }

  /** Batches stay in order while resets only grow and live rectangles only go with a reset. */
  lemma {:induction false} BatchesStayOk(r: Renderer, s: State)
    requires BatchInv(r) && s.history.resets >= r.atlas.history.resets
    requires s.history.resets == r.atlas.history.resets ==> r.atlas.history.live <= s.history.live
    ensures forall id :: id in r.cached ==> BatchOk(r.cached[id], s)
  {
    forall id | id in r.cached
      ensures BatchOk(r.cached[id], s)
    {
      assert BatchOk(r.cached[id], r.atlas);
    }
  }

  // ----- Proofs -----

  lemma {:induction false} DrawAllSpec(s: State, ds: seq<Drawing>)
    requires Inv(s) && FitAll(s, ds)
    ensures var (n, ps) := DrawAll(s, ds);
            && Inv(n) && n.size == s.size && n.history.resets >= s.history.resets
            && n.clearedThisFrame == (s.clearedThisFrame || n.history.resets != s.history.resets)
            && (n.history.resets == s.history.resets ==>
                  s.history.live <= n.history.live && forall p :: p in ps ==> p in n.history.live)
    decreases |ds|
  {
    if ds != [] {
      var (s1, rect) := GetOrInsert(s, ds[0].key, ds[0].bitmap);
      InsertInv(s, ds[0].key, ds[0].bitmap);
      InsertHandsOut(s, ds[0].key, ds[0].bitmap);
      InsertFrame(s, ds[0].key, ds[0].bitmap);
      assert FitAll(s1, ds[1..]);
      DrawAllSpec(s1, ds[1..]);
    }
  }

  lemma {:induction false} DrawGridSpec(r: Renderer, grid: Grid)
    requires BatchInv(r) && FitAll(r.atlas, grid.drawings)
    requires !r.atlas.clearedThisFrame ==> Current(r)
    ensures var n := DrawGrid(r, grid);
            && BatchInv(n) && n.atlas.size == r.atlas.size
            && (!n.atlas.clearedThisFrame ==> Current(n))
  {
    if !Reuses(r, grid) {
      DrawAllSpec(r.atlas, grid.drawings);
      BatchesStayOk(r, DrawGrid(r, grid).atlas);
    }
  }

  lemma {:induction false} DrawUncachedSpec(r: Renderer, ds: seq<Drawing>)
    requires BatchInv(r) && FitAll(r.atlas, ds)
    requires !r.atlas.clearedThisFrame ==> Current(r)
    ensures var n := DrawUncached(r, ds);
            && BatchInv(n) && n.atlas.size == r.atlas.size
            && (!n.atlas.clearedThisFrame ==> Current(n))
  {
    DrawAllSpec(r.atlas, ds);
    BatchesStayOk(r, DrawAll(r.atlas, ds).0);
  }

  lemma {:induction false} DrawPaneSpec(r: Renderer, pane: Pane)
    requires BatchInv(r) && FitPane(r.atlas, pane)
    requires !r.atlas.clearedThisFrame ==> Current(r)
    ensures var n := DrawPane(r, pane);
            && BatchInv(n) && n.atlas.size == r.atlas.size
            && (!n.atlas.clearedThisFrame ==> Current(n))
  {
    if pane.grid.Some? {
      DrawGridSpec(r, pane.grid.value);
      DrawUncachedSpec(DrawGrid(r, pane.grid.value), pane.uncached);
    } else {
      DrawUncachedSpec(r, pane.uncached);
    }
  }

  lemma {:induction false} FitRest(s: State, n: State, panes: seq<Pane>)
    requires FitPanes(s, panes) && panes != [] && n.size == s.size
    ensures FitPane(s, panes[0]) && FitPanes(n, panes[1..])
  {
    assert forall i :: 0 <= i < |panes[1..]| ==> panes[1..][i] == panes[i + 1] && FitPane(s, panes[i + 1]);
  }

  lemma {:induction false} DrawPanesSpec(r: Renderer, panes: seq<Pane>)
    requires BatchInv(r) && FitPanes(r.atlas, panes)
    requires !r.atlas.clearedThisFrame ==> Current(r)
    ensures var n := DrawPanes(r, panes);
            && BatchInv(n) && n.atlas.size == r.atlas.size
            && (!n.atlas.clearedThisFrame ==> Current(n))
    decreases |panes|
  {
    if panes != [] {
      FitRest(r.atlas, r.atlas, panes);
      DrawPaneSpec(r, panes[0]);
      FitRest(r.atlas, DrawPane(r, panes[0]).atlas, panes);
      DrawPanesSpec(DrawPane(r, panes[0]), panes[1..]);
    }
  }

  ghost predicate LegalFrame(r: Renderer, f: Frame) {
    FitPanes(r.atlas, f.panes) && FitAll(r.atlas, f.overlays)
  }

  lemma {:induction false} BeginKeeps(r: Renderer)
    requires BatchInv(r)
    ensures BatchInv(BeginRender(r)) && (Current(r) <==> Current(BeginRender(r)))
  {
    BatchesStayOk(r, BeginRender(r).atlas);
  }

  lemma {:induction false} GrowKeeps(r: Renderer, blank: Texture)
    requires BatchInv(r)
    ensures BatchInv(GrowIfNeeded(r, blank))
    ensures r.atlas.needsGrow ==>
              && GrowIfNeeded(r, blank).atlas.clearedThisFrame
              && GrowIfNeeded(r, blank).atlas.history.resets == r.atlas.history.resets + 1
  {
    GrowInv(r.atlas, blank);
    BatchesStayOk(r, GrowIfNeeded(r, blank).atlas);
  }

  /** A growth is asked for only by a reset, so it never happens behind the flag's back. */
  ghost predicate GrowthFlagged(s: State) {
    s.needsGrow ==> s.clearedThisFrame
  }

  lemma {:induction false} DrawAllFlags(s: State, ds: seq<Drawing>)
    requires GrowthFlagged(s)
    ensures GrowthFlagged(DrawAll(s, ds).0)
    decreases |ds|
  {
    if ds != [] {
      var s1 := GetOrInsert(s, ds[0].key, ds[0].bitmap).0;
      assert GrowthFlagged(s1);
      DrawAllFlags(s1, ds[1..]);
    }
  }

  lemma {:induction false} DrawPaneFlags(r: Renderer, pane: Pane)
    requires GrowthFlagged(r.atlas)
    ensures GrowthFlagged(DrawPane(r, pane).atlas)
  {
    if pane.grid.Some? {
      DrawAllFlags(r.atlas, pane.grid.value.drawings);
      DrawAllFlags(DrawGrid(r, pane.grid.value).atlas, pane.uncached);
    } else {
      DrawAllFlags(r.atlas, pane.uncached);
    }
  }

  lemma {:induction false} DrawPanesFlags(r: Renderer, panes: seq<Pane>)
    requires GrowthFlagged(r.atlas)
    ensures GrowthFlagged(DrawPanes(r, panes).atlas)
    decreases |panes|
  {
    if panes != [] {
      DrawPaneFlags(r, panes[0]);
      DrawPanesFlags(DrawPane(r, panes[0]), panes[1..]);
    }
  }

  // ----- When an overlay overflows the atlas -----

  /** The guard of the reset: the glyph is not cached, and below the shelf it would go on there
      is no room for it. */
  predicate Overflows(s: State, d: Drawing) {
    !Cached(s, d.key) && WrapRow(s, d.bitmap.width).cursorY + d.bitmap.height > s.size
  }

  predicate AnyOverflow(s: State, ds: seq<Drawing>)
    decreases |ds|
  {
    ds != [] && (Overflows(s, ds[0]) || AnyOverflow(GetOrInsert(s, ds[0].key, ds[0].bitmap).0, ds[1..]))
  }

  lemma {:induction false} OverflowResets(s: State, d: Drawing)
    ensures var n := GetOrInsert(s, d.key, d.bitmap).0;
            && n.history.resets == (if Overflows(s, d) then s.history.resets + 1 else s.history.resets)
            && (!Overflows(s, d) ==> n.needsGrow == s.needsGrow)
  {
  }

  lemma {:induction false} ResetsIffOverflow(s: State, ds: seq<Drawing>)
    ensures var n := DrawAll(s, ds).0;
            && n.history.resets >= s.history.resets
            && (n.history.resets == s.history.resets <==> !AnyOverflow(s, ds))
            && (!AnyOverflow(s, ds) ==> n.needsGrow == s.needsGrow)
    decreases |ds|
  {
    if ds != [] {
      OverflowResets(s, ds[0]);
      ResetsIffOverflow(GetOrInsert(s, ds[0].key, ds[0].bitmap).0, ds[1..]);
    }
  }

  /** What the renderer would have to know before drawing the overlays of a frame. */
  predicate Trusted(r: Renderer, f: Frame) {
    PanesDone(r, f).cached == map[] || !AnyOverflow(PanesDone(r, f).atlas, f.overlays)
  }

  lemma {:induction false} PanesDoneSpec(r: Renderer, f: Frame)
    requires BatchInv(r) && Current(r) && LegalFrame(r, f) && !r.atlas.needsGrow
    ensures var p := PanesDone(r, f);
            && BatchInv(p) && Current(p) && FitAll(p.atlas, f.overlays)
            && (p.cached != map[] ==> !p.atlas.needsGrow)
  {
    BeginKeeps(r);
    DrawPanesSpec(BeginRender(r), f.panes);
    DrawPanesFlags(BeginRender(r), f.panes);
  }

  /** Once the panes are done: the batches are current after the rest of the frame if and only
      if there are none, or no overlay overflows. */
  lemma {:induction false} OverlaysTrustedIff(p: Renderer, overlays: seq<Drawing>, blank: Texture)
    requires BatchInv(p) && Current(p) && FitAll(p.atlas, overlays)
    requires p.cached != map[] ==> !p.atlas.needsGrow
    ensures var n := GrowIfNeeded(DrawUncached(p, overlays), blank);
            && BatchInv(n) && !n.atlas.needsGrow
            && (Current(n) <==> p.cached == map[] || !AnyOverflow(p.atlas, overlays))
  {
    var o := DrawUncached(p, overlays);
    DrawAllSpec(p.atlas, overlays);
    BatchesStayOk(p, o.atlas);
    GrowKeeps(o, blank);
    ResetsIffOverflow(p.atlas, overlays);
    CurrentIff(p, GrowIfNeeded(o, blank));
  }

  /**
   When the next frame may trust the vertex cache: the batches are current after a frame if
   and only if none survived the purge, or no overlay drawn after it overflows the atlas. The
   renderer checks the flag only before the overlays, and clears it at the next frame start.
   */
  lemma {:induction false} CacheTrustedIff(r: Renderer, f: Frame)
    requires BatchInv(r) && Current(r) && LegalFrame(r, f) && !r.atlas.needsGrow
    ensures var n := RenderFrame(r, f);
            && BatchInv(n) && !n.atlas.needsGrow
            && (Current(n) <==> Trusted(r, f))
  {
    PanesDoneSpec(r, f);
    OverlaysTrustedIff(PanesDone(r, f), f.overlays, f.blank);
  }

  lemma {:induction false} CurrentIff(p: Renderer, n: Renderer)
    requires Current(p) && n.cached == p.cached && n.atlas.history.resets >= p.atlas.history.resets
    ensures Current(n) <==> n.cached == map[] || n.atlas.history.resets == p.atlas.history.resets
  {
    if n.cached != map[] {
      var id :| id in n.cached;
    }
  }
}
