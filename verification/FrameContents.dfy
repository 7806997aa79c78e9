/**
 Which glyphs a frame contains: one for every glyph of every pane and overlay, in the order in
 which they were asked for, whether a pane was drawn now or its kept batch was reused.
 */
module FrameContents {
  import opened Wrappers
  import opened LruCache
  import opened AtlasModel
  import opened AtlasRuns
  import opened PaneCache
  import opened FrameDrawing

  /** One rectangle for each drawing, in order, with its key and a bitmap of the same alpha. */
  ghost predicate Depicts(ps: seq<Placement>, ds: seq<Drawing>) {
    && |ps| == |ds|
    && forall i :: 0 <= i < |ds| ==> ps[i].key == ds[i].key && SameMask(ps[i].bitmap, ds[i].bitmap)
  }

  /** A key determines the alpha of its bitmap. */
  ghost predicate Rasterised(ds: seq<Drawing>, raster: AtlasKey -> Bitmap) {
    forall i :: 0 <= i < |ds| ==> SameMask(ds[i].bitmap, raster(ds[i].key))
  }

  lemma {:induction false} MaskThrough(b: Bitmap, c: Bitmap, common: Bitmap)
    requires SameMask(b, common) && SameMask(c, common)
    ensures SameMask(b, c)
  {
  }

  lemma {:induction false} DepictsJoin(ps: seq<Placement>, ds: seq<Drawing>, qs: seq<Placement>, es: seq<Drawing>)
    requires Depicts(ps, ds) && Depicts(qs, es)
    ensures Depicts(ps + qs, ds + es)
  {
  }

  // ----- One list of drawings -----

  lemma {:induction false} FirstDepicts(s: State, d: Drawing, raster: AtlasKey -> Bitmap)
    requires ShownBy(s.history.shown, raster) && SameMask(d.bitmap, raster(d.key))
    ensures var n := GetOrInsert(s, d.key, d.bitmap).0;
            && ShownBy(n.history.shown, raster)
            && (d.key in n.history.shown ==> SameMask(n.history.shown[d.key], d.bitmap))
  {
    StepShown(s, Draw(d.key, d.bitmap), raster);
    var shown := GetOrInsert(s, d.key, d.bitmap).0.history.shown;
    if d.key in shown {
      MaskThrough(shown[d.key], d.bitmap, raster(d.key));
    }
  }

  /** Drawing a list of glyphs yields one rectangle for each of them, in order. */
  lemma {:induction false} DrawAllDepicts(s: State, ds: seq<Drawing>, raster: AtlasKey -> Bitmap)
    requires ShownBy(s.history.shown, raster) && Rasterised(ds, raster)
    ensures Depicts(DrawAll(s, ds).1, ds) && ShownBy(DrawAll(s, ds).0.history.shown, raster)
    decreases |ds|
  {
    if ds != [] {
      var (n, rect) := GetOrInsert(s, ds[0].key, ds[0].bitmap);
      var rest := DrawAll(n, ds[1..]).1;
      FirstDepicts(s, ds[0], raster);
      assert forall i :: 0 <= i < |ds[1..]| ==> ds[1..][i] == ds[i + 1];
      DrawAllDepicts(n, ds[1..], raster);
      var first := Placement(ds[0].key, rect,
                             if ds[0].key in n.history.shown then n.history.shown[ds[0].key] else ds[0].bitmap);
      MaskThrough(ds[0].bitmap, ds[0].bitmap, ds[0].bitmap);
      assert Depicts([first], ds[..1]);
      DepictsJoin([first], ds[..1], rest, ds[1..]);
      assert ds == ds[..1] + ds[1..];
    }
  }

  // ----- What a frame should contain -----

  /** For each pane, the drawings of the grid that its batch was last built from. */
  type Ledger = map<nat, seq<Drawing>>

  function BuiltBy(r: Renderer, m: Ledger, pane: Pane): (n: Ledger) {
    if pane.grid.Some? && !Reuses(r, pane.grid.value) then m[pane.grid.value.id := pane.grid.value.drawings] else m
  }

  function PanesBuilt(r: Renderer, m: Ledger, panes: seq<Pane>): (n: Ledger)
    decreases |panes|
  {
    if panes == [] then m else PanesBuilt(DrawPane(r, panes[0]), BuiltBy(r, m, panes[0]), panes[1..])
  }

  /** Every kept batch has one rectangle for each drawing of the grid that built it. */
  ghost predicate KeptDepict(r: Renderer, m: Ledger) {
    forall id :: id in r.cached ==> id in m && Depicts(r.cached[id].placements, m[id])
  }

  /** The glyphs of a pane: those of the grid whose batch it reuses, or of the grid it draws; then
      what is drawn outside the cache. */
  function PaneContents(r: Renderer, m: Ledger, pane: Pane): (ds: seq<Drawing>) {
    (if pane.grid.None? then []
     else if Reuses(r, pane.grid.value) && pane.grid.value.id in m then m[pane.grid.value.id]
     else pane.grid.value.drawings)
    + pane.uncached
  }

  function PanesContents(r: Renderer, m: Ledger, panes: seq<Pane>): (ds: seq<Drawing>)
    decreases |panes|
  {
    if panes == [] then []
    else PaneContents(r, m, panes[0]) + PanesContents(DrawPane(r, panes[0]), BuiltBy(r, m, panes[0]), panes[1..])
  }

  function ContentsOf(r: Renderer, m: Ledger, f: Frame): (ds: seq<Drawing>) {
    PanesContents(BeginRender(r), m, f.panes) + f.overlays
  }

  // ----- A frame contains it -----

  ghost predicate RasterisedPane(pane: Pane, raster: AtlasKey -> Bitmap) {
    Rasterised(pane.uncached, raster) && (pane.grid.Some? ==> Rasterised(pane.grid.value.drawings, raster))
  }

  ghost predicate RasterisedFrame(f: Frame, raster: AtlasKey -> Bitmap) {
    (forall i :: 0 <= i < |f.panes| ==> RasterisedPane(f.panes[i], raster)) && Rasterised(f.overlays, raster)
  }

  /** The renderer and the ledger agree, and what was uploaded is what the keys call for. */
  ghost predicate Agrees(r: Renderer, m: Ledger, raster: AtlasKey -> Bitmap) {
    KeptDepict(r, m) && ShownBy(r.atlas.history.shown, raster)
  }

  lemma {:induction false} GridDepicts(r: Renderer, m: Ledger, grid: Grid, raster: AtlasKey -> Bitmap)
    requires Agrees(r, m, raster) && Rasterised(grid.drawings, raster)
    ensures Depicts(GridShown(r, grid), if Reuses(r, grid) && grid.id in m then m[grid.id] else grid.drawings)
    ensures Agrees(DrawGrid(r, grid), if Reuses(r, grid) then m else m[grid.id := grid.drawings], raster)
  {
    if !Reuses(r, grid) {
      DrawAllDepicts(r.atlas, grid.drawings, raster);
    }
  }

  lemma {:induction false} PaneDepicts(r: Renderer, m: Ledger, pane: Pane, raster: AtlasKey -> Bitmap)
    requires Agrees(r, m, raster) && RasterisedPane(pane, raster)
    ensures Depicts(PaneShown(r, pane), PaneContents(r, m, pane))
    ensures Agrees(DrawPane(r, pane), BuiltBy(r, m, pane), raster)
  {
    var grid := pane.grid;
    var fromGrid := if grid.Some? then GridShown(r, grid.value) else [];
    var ofGrid := if grid.None? then []
                  else if Reuses(r, grid.value) && grid.value.id in m then m[grid.value.id]
                  else grid.value.drawings;
    if grid.Some? {
      GridDepicts(r, m, grid.value, raster);
    }
    DrawAllDepicts(GridDone(r, pane).atlas, pane.uncached, raster);
    DepictsJoin(fromGrid, ofGrid, DrawAll(GridDone(r, pane).atlas, pane.uncached).1, pane.uncached);
  }

  lemma {:induction false} PanesDepict(r: Renderer, m: Ledger, panes: seq<Pane>, raster: AtlasKey -> Bitmap)
    requires Agrees(r, m, raster)
    requires forall i :: 0 <= i < |panes| ==> RasterisedPane(panes[i], raster)
    ensures Depicts(PanesShown(r, panes), PanesContents(r, m, panes))
    ensures Agrees(DrawPanes(r, panes), PanesBuilt(r, m, panes), raster)
    decreases |panes|
  {
    if panes != [] {
      var n, built := DrawPane(r, panes[0]), BuiltBy(r, m, panes[0]);
      PaneDepicts(r, m, panes[0], raster);
      PanesDepict(n, built, panes[1..], raster);
      DepictsJoin(PaneShown(r, panes[0]), PaneContents(r, m, panes[0]),
                  PanesShown(n, panes[1..]), PanesContents(n, built, panes[1..]));
    }
  }

  lemma {:induction false} GrowAgrees(r: Renderer, m: Ledger, blank: Texture, raster: AtlasKey -> Bitmap)
    requires Agrees(r, m, raster)
    ensures Agrees(GrowIfNeeded(r, blank), m, raster)
  {
  }

  /** A frame contains one rectangle for each glyph of each pane it draws, of each kept batch it
      reuses, and of each overlay, in order; and the batches kept after it are again complete. */
  lemma {:induction false} FrameDepicts(r: Renderer, m: Ledger, f: Frame, raster: AtlasKey -> Bitmap)
    requires Agrees(r, m, raster) && RasterisedFrame(f, raster)
    ensures Depicts(FrameShown(r, f), ContentsOf(r, m, f))
    ensures Agrees(RenderFrame(r, f), PanesBuilt(BeginRender(r), m, f.panes), raster)
  {
    var b, built := BeginRender(r), PanesBuilt(BeginRender(r), m, f.panes);
    PanesDepict(b, m, f.panes, raster);
    var p := PanesDone(r, f);
    DrawAllDepicts(p.atlas, f.overlays, raster);
    DepictsJoin(PanesShown(b, f.panes), PanesContents(b, m, f.panes), DrawAll(p.atlas, f.overlays).1, f.overlays);
    GrowAgrees(DrawUncached(p, f.overlays), built, f.blank, raster);
  }

  // ----- When `reusable` is truthful -----

  /** A grid marked reusable has not changed since the batch of its pane was last built. */
  predicate TruthfulPanes(r: Renderer, m: Ledger, panes: seq<Pane>)
    decreases |panes|
  {
    panes == []
    || ((panes[0].grid.Some? && panes[0].grid.value.reusable && panes[0].grid.value.id in m
         ==> m[panes[0].grid.value.id] == panes[0].grid.value.drawings)
        && TruthfulPanes(DrawPane(r, panes[0]), BuiltBy(r, m, panes[0]), panes[1..]))
  }

  function PanesAsked(panes: seq<Pane>): (ds: seq<Drawing>) {
    if panes == [] then []
    else (if panes[0].grid.Some? then panes[0].grid.value.drawings else []) + panes[0].uncached + PanesAsked(panes[1..])
  }

  /** All the glyphs of a frame, with no regard to the cache. */
  function FrameAsked(f: Frame): (ds: seq<Drawing>) {
    PanesAsked(f.panes) + f.overlays
  }

  lemma {:induction false} TruthfulContents(r: Renderer, m: Ledger, panes: seq<Pane>)
    requires TruthfulPanes(r, m, panes)
    ensures PanesContents(r, m, panes) == PanesAsked(panes)
    decreases |panes|
  {
    if panes != [] {
      TruthfulContents(DrawPane(r, panes[0]), BuiltBy(r, m, panes[0]), panes[1..]);
    }
  }

  /** The frames, one after the other: each rasterised by the same keys, and truthful about what has
      not changed. */
  ghost predicate TruthfulFrames(r: Renderer, m: Ledger, fs: seq<Frame>, raster: AtlasKey -> Bitmap)
    decreases |fs|
  {
    fs == []
    || (RasterisedFrame(fs[0], raster) && TruthfulPanes(BeginRender(r), m, fs[0].panes)
        && TruthfulFrames(RenderFrame(r, fs[0]), PanesBuilt(BeginRender(r), m, fs[0].panes), fs[1..], raster))
  }

  /** The last frame of a truthful run contains all the glyphs asked for in it. */
  lemma {:induction false} LastFrameDepicts(r: Renderer, m: Ledger, fs: seq<Frame>, f: Frame,
                                            raster: AtlasKey -> Bitmap)
    requires Agrees(r, m, raster) && TruthfulFrames(r, m, fs + [f], raster)
    ensures Depicts(FrameShown(RenderAll(r, fs), f), FrameAsked(f))
    decreases |fs|
  {
    if fs == [] {
      assert (fs + [f])[0] == f;
      FrameDepicts(r, m, f, raster);
      TruthfulContents(BeginRender(r), m, f.panes);
    } else {
      assert (fs + [f])[0] == fs[0] && (fs + [f])[1..] == fs[1..] + [f];
      FrameDepicts(r, m, fs[0], raster);
      LastFrameDepicts(RenderFrame(r, fs[0]), PanesBuilt(BeginRender(r), m, fs[0].panes), fs[1..], f, raster);
    }
  }

  /** The texture holds, at the i-th rectangle, the alpha of the i-th glyph. */
  ghost predicate Displays(texture: Texture, ps: seq<Placement>, ds: seq<Drawing>) {
    && |ps| == |ds|
    && forall i :: 0 <= i < |ds| ==> ShowsMask(texture, ps[i].rect, ds[i].bitmap)
  }

  lemma {:induction false} DepictedDisplay(texture: Texture, ps: seq<Placement>, ds: seq<Drawing>)
    requires AllShow(texture, ps) && Depicts(ps, ds)
    ensures Displays(texture, ps, ds)
  {
    forall i | 0 <= i < |ds|
      ensures ShowsMask(texture, ps[i].rect, ds[i].bitmap)
    {
      assert ps[i] in ps;
      ShowsSameMask(texture, ps[i].rect, ps[i].bitmap, ds[i].bitmap);
    }
  }

  /** From start-up, with frames truthful about what has not changed and no broken trust in the
      cache: a frame without overflow displays every glyph asked for in it, each at its own place
      in order, as if there were no cache of batches at all. */
  lemma {:induction false} FramesDisplayAll(atlasSize: nat, blank: Texture, fs: seq<Frame>, f: Frame,
                                            raster: AtlasKey -> Bitmap)
    requires TruthfulFrames(Startup(atlasSize, blank), map[], fs + [f], raster)
    requires TrustedFrames(Startup(atlasSize, blank), fs)
    requires LegalFrame(RenderAll(Startup(atlasSize, blank), fs), f)
    requires !FrameOverflows(RenderAll(Startup(atlasSize, blank), fs), f)
    ensures var r := RenderAll(Startup(atlasSize, blank), fs);
            Displays(Submitted(r, f).texture, FrameShown(r, f), FrameAsked(f))
  {
    var r := RenderAll(Startup(atlasSize, blank), fs);
    TrustedFramesDrawRight(atlasSize, blank, fs, f);
    LastFrameDepicts(Startup(atlasSize, blank), map[], fs, f, raster);
    DepictedDisplay(Submitted(r, f).texture, FrameShown(r, f), FrameAsked(f));
  }
}
