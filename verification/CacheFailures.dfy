/**
 The frames that go wrong: an overlay that overflows the atlas leaves a batch the next frame
 should not reuse, and a pane that overflows it spoils what its own frame drew before.
 */
module CacheFailures {
  import opened Wrappers
  import opened LruCache
  import opened AtlasModel
  import opened AtlasRuns
  import opened PaneCache
  import opened FrameDrawing

  // ----- The failing family -----

  /** What a reused batch shows on screen is what its pane drew when the batch was built. */
  ghost predicate LooksRight(r: Renderer, id: nat) {
    id in r.cached ==> forall p :: p in r.cached[id].placements ==> ShowsMask(r.atlas.texture, p.rect, p.bitmap)
  }

  /** Two glyphs drawn at one place can be told apart where both have a texel. */
  ghost predicate Differ(a: Bitmap, b: Bitmap) {
    exists i, j :: 0 <= i < a.width && 0 <= j < a.height && i < b.width && j < b.height && a.At(i, j).a != b.At(i, j).a
  }

  /** The glyph can be told apart from an unused corner of a texture. */
  ghost predicate HasInk(a: Bitmap, blank: Texture) {
    exists i, j :: 0 <= i < a.width && 0 <= j < a.height && a.At(i, j).a != blank.at(i, j).a
  }

  /** Number of glyphs drawn before the first one that overflows. */
  function BeforeOverflow(s: State, ds: seq<Drawing>): (n: nat)
    ensures n <= |ds|
    decreases |ds|
  {
    if ds == [] || Overflows(s, ds[0]) then 0
    else 1 + BeforeOverflow(GetOrInsert(s, ds[0].key, ds[0].bitmap).0, ds[1..])
  }

  lemma {:induction false} FirstOverflow(s: State, ds: seq<Drawing>)
    requires AnyOverflow(s, ds)
    ensures var n := BeforeOverflow(s, ds);
            && n < |ds| && !AnyOverflow(s, ds[..n]) && Overflows(DrawAll(s, ds[..n]).0, ds[n])
    decreases |ds|
  {
    if !Overflows(s, ds[0]) {
      var next, n := GetOrInsert(s, ds[0].key, ds[0].bitmap).0, BeforeOverflow(s, ds);
      FirstOverflow(next, ds[1..]);
      assert ds[..n][1..] == ds[1..][..n - 1];
    }
  }

  /** A drawing in the corner of the texture. */
  function Cornered(d: Drawing): (p: Placement) {
    Placement(d.key, GlyphRect(0, 0, d.bitmap.width, d.bitmap.height), d.bitmap)
  }

  /** The first glyph goes to the corner of an empty atlas. */
  lemma {:induction false} FirstAtCorner(atlasSize: nat, blank: Texture, ds: seq<Drawing>)
    requires ds != [] && FitAll(NewWithConfig(atlasSize, blank), ds)
    ensures var s := NewWithConfig(atlasSize, blank);
            && !Overflows(s, ds[0])
            && DrawAll(s, ds).1 != []
            && DrawAll(s, ds).1[0] == Cornered(ds[0])
  {
    var s := NewWithConfig(atlasSize, blank);
    NewWithConfigInv(atlasSize, blank);
    assert !Cached(s, ds[0].key);
  }

  /** A glyph that overflows is written over the corner, and lies there unless the atlas grows. */
  lemma {:induction false} OverflowHitsCorner(s: State, d: Drawing)
    requires Overflows(s, d)
    ensures var n := DrawAll(s, [d]).0;
            && n.texture == Blit(s.texture, GlyphRect(0, 0, d.bitmap.width, d.bitmap.height), d.bitmap)
            && (n.needsGrow <==> s.needsGrow || s.size < s.sizeMax)
  {
    assert [d][1..] == [];
  }

  lemma {:induction false} CornerLost(t: Texture, a: Bitmap, b: Bitmap)
    requires Differ(a, b)
    ensures !ShowsMask(Blit(t, GlyphRect(0, 0, b.width, b.height), b), GlyphRect(0, 0, a.width, a.height), a)
  {
    var i, j :| 0 <= i < a.width && 0 <= j < a.height && i < b.width && j < b.height && a.At(i, j).a != b.At(i, j).a;
    assert Inside(GlyphRect(0, 0, a.width, a.height), i, j) && Inside(GlyphRect(0, 0, b.width, b.height), i, j);
  }

  lemma {:induction false} CornerBlank(t: Texture, a: Bitmap)
    requires HasInk(a, t)
    ensures !ShowsMask(t, GlyphRect(0, 0, a.width, a.height), a)
  {
    var i, j :| 0 <= i < a.width && 0 <= j < a.height && a.At(i, j).a != t.at(i, j).a;
    assert Inside(GlyphRect(0, 0, a.width, a.height), i, j);
  }

  /** The pane draws the glyphs, the overlay the one after them. */
  function PaneThenOverlay(ds: seq<Drawing>, n: nat, blank: Texture): (f: Frame)
    requires n < |ds|
  {
    Frame([Pane(Some(Grid(0, true, ds[..n])), [])], [ds[n]], blank)
  }

  /** The first frame draws the pane and keeps its batch, whose first glyph is in the corner. */
  lemma {:induction false} FirstFrame(atlasSize: nat, blank: Texture, ds: seq<Drawing>, n: nat)
    requires 0 < n < |ds| && FitAll(NewWithConfig(atlasSize, blank), ds)
    requires !AnyOverflow(NewWithConfig(atlasSize, blank), ds[..n])
    ensures var s := NewWithConfig(atlasSize, blank);
            var p := PanesDone(Startup(atlasSize, blank), PaneThenOverlay(ds, n, blank));
            && p.atlas == DrawAll(s, ds[..n]).0 && !p.atlas.clearedThisFrame && !p.atlas.needsGrow
            && 0 in p.cached
            && Cornered(ds[0]) in p.cached[0].placements
  {
    var r, s, front := Startup(atlasSize, blank), NewWithConfig(atlasSize, blank), ds[..n];
    var pane := Pane(Some(Grid(0, true, front)), []);
    NewWithConfigInv(atlasSize, blank);
    assert BeginRender(r) == r;
    FirstAtCorner(atlasSize, blank, front);
    DrawAllSpec(s, front);
    ResetsIffOverflow(s, front);
    assert [pane][1..] == [];
    assert DrawPanes(r, [pane]) == DrawPane(r, pane);
  }

  /** The frame ends with the overflowing overlay; what follows still trusts the batch. */
  lemma {:induction false} NextLooksWrong(p: Renderer, d: Drawing, blank: Texture, first: Placement)
    requires Overflows(p.atlas, d) && 0 in p.cached && first in p.cached[0].placements
    requires first.rect == GlyphRect(0, 0, first.bitmap.width, first.bitmap.height)
    requires Differ(first.bitmap, d.bitmap) && HasInk(first.bitmap, blank)
    ensures var next := BeginRender(GrowIfNeeded(DrawUncached(p, [d]), blank));
            Reuses(next, Grid(0, true, [])) && !LooksRight(next, 0)
  {
    OverflowHitsCorner(p.atlas, d);
    CornerLost(p.atlas.texture, first.bitmap, d.bitmap);
    CornerBlank(blank, first.bitmap);
    var next := BeginRender(GrowIfNeeded(DrawUncached(p, [d]), blank));
    assert next.cached == p.cached;
    assert !ShowsMask(next.atlas.texture, first.rect, first.bitmap);
  }

  lemma {:induction false} StartupSound(atlasSize: nat, blank: Texture, ds: seq<Drawing>, n: nat)
    requires n < |ds| && FitAll(NewWithConfig(atlasSize, blank), ds)
    ensures var r := Startup(atlasSize, blank);
            BatchInv(r) && Current(r) && LegalFrame(r, PaneThenOverlay(ds, n, blank))
  {
    NewWithConfigInv(atlasSize, blank);
  }

  /**
   The failing family: take any glyphs that overflow an empty atlas. Some first part of them,
   drawn by a pane, and the next one, drawn by an overlay, leave a batch that the next frame
   reuses over other pixels: those of the overlay's glyph, or of the texture that replaced it.
   */
  lemma {:induction false} OverlayOverflowCorruptsPane(atlasSize: nat, blank: Texture, ds: seq<Drawing>)
    requires FitAll(NewWithConfig(atlasSize, blank), ds) && AnyOverflow(NewWithConfig(atlasSize, blank), ds)
    requires forall i :: 0 < i < |ds| ==> Differ(ds[0].bitmap, ds[i].bitmap)
    requires HasInk(ds[0].bitmap, blank)
    ensures 0 < BeforeOverflow(NewWithConfig(atlasSize, blank), ds) < |ds|
    ensures var n := BeforeOverflow(NewWithConfig(atlasSize, blank), ds);
            var r, f := Startup(atlasSize, blank), PaneThenOverlay(ds, n, blank);
            var next := BeginRender(RenderFrame(r, f));
            && BatchInv(r) && Current(r) && LegalFrame(r, f)
            && Reuses(next, f.panes[0].grid.value) && !LooksRight(next, 0)
  {
    var s := NewWithConfig(atlasSize, blank);
    var n := BeforeOverflow(s, ds);
    FirstOverflow(s, ds);
    FirstAtCorner(atlasSize, blank, ds);
    StartupSound(atlasSize, blank, ds, n);
    FirstFrame(atlasSize, blank, ds, n);
    var p := PanesDone(Startup(atlasSize, blank), PaneThenOverlay(ds, n, blank));
    NextLooksWrong(p, ds[n], blank, Cornered(ds[0]));
  }

  // ----- A glyph that overflows late in a frame -----

  /** A frame with the one pane. */
  function PaneAlone(ds: seq<Drawing>, n: nat, blank: Texture): (f: Frame)
    requires n < |ds|
  {
    Frame([Pane(Some(Grid(0, true, ds[..n])), [])], [], blank)
  }

  /** A frame with the pane again and one more glyph in a second pane. */
  function PaneThenPane(ds: seq<Drawing>, n: nat, blank: Texture): (f: Frame)
    requires n < |ds|
  {
    Frame([Pane(Some(Grid(0, true, ds[..n])), []), Pane(Some(Grid(1, false, [ds[n]])), [])], [], blank)
  }

  /** After the first frame the batch is kept, and the atlas is as the pane left it. */
  lemma {:induction false} AfterPaneAlone(atlasSize: nat, blank: Texture, ds: seq<Drawing>, n: nat)
    requires 0 < n < |ds| && FitAll(NewWithConfig(atlasSize, blank), ds)
    requires !AnyOverflow(NewWithConfig(atlasSize, blank), ds[..n])
    ensures var r, f := Startup(atlasSize, blank), PaneAlone(ds, n, blank);
            var n1 := RenderFrame(r, f);
            && LegalFrame(r, f) && Trusted(r, f)
            && n1.atlas == DrawAll(NewWithConfig(atlasSize, blank), ds[..n]).0
            && !n1.atlas.clearedThisFrame && !n1.atlas.needsGrow
            && 0 in n1.cached && Cornered(ds[0]) in n1.cached[0].placements
  {
    StartupSound(atlasSize, blank, ds, n);
    FirstFrame(atlasSize, blank, ds, n);
    var p := PanesDone(Startup(atlasSize, blank), PaneThenOverlay(ds, n, blank));
    assert p == PanesDone(Startup(atlasSize, blank), PaneAlone(ds, n, blank));
    assert DrawUncached(p, []) == p;
  }

  lemma {:induction false} OnePane(r: Renderer, a: Pane)
    ensures DrawPanes(r, [a]) == DrawPane(r, a) && PanesShown(r, [a]) == PaneShown(r, a)
    ensures PanesOverflow(r, [a]) <==> PaneOverflows(r, a)
  {
    assert [a][1..] == [];
    assert DrawPanes(DrawPane(r, a), []) == DrawPane(r, a) && PanesShown(DrawPane(r, a), []) == [];
  }

  lemma {:induction false} TwoPanes(r: Renderer, a: Pane, b: Pane)
    ensures DrawPanes(r, [a, b]) == DrawPane(DrawPane(r, a), b)
    ensures PanesShown(r, [a, b]) == PaneShown(r, a) + PaneShown(DrawPane(r, a), b)
    ensures PanesOverflow(r, [a, b]) <==> PaneOverflows(r, a) || PaneOverflows(DrawPane(r, a), b)
  {
    assert [a, b][1..] == [b];
    OnePane(DrawPane(r, a), b);
  }

  /** What the second frame draws: the kept batch, then one glyph in another pane. */
  lemma {:induction false} SecondFrame(r: Renderer, ds: seq<Drawing>, n: nat, blank: Texture)
    requires n < |ds| && !r.atlas.clearedThisFrame && 0 in r.cached
    ensures var f := PaneThenPane(ds, n, blank);
            && BeginRender(r) == r && Reuses(r, f.panes[0].grid.value)
            && DrawPane(r, f.panes[0]) == r && PaneShown(r, f.panes[0]) == r.cached[0].placements
            && DrawPane(r, f.panes[1]).atlas == DrawAll(r.atlas, [ds[n]]).0
            && (PaneOverflows(r, f.panes[1]) <==> AnyOverflow(r.atlas, [ds[n]]))
  {
  }

  lemma {:induction false} SecondSubmitted(r: Renderer, ds: seq<Drawing>, n: nat, blank: Texture)
    requires n < |ds| && !r.atlas.clearedThisFrame && 0 in r.cached
    ensures var f := PaneThenPane(ds, n, blank);
            && Submitted(r, f) == DrawAll(r.atlas, [ds[n]]).0
            && (forall p :: p in r.cached[0].placements ==> p in FrameShown(r, f))
            && (FrameOverflows(r, f) <==> AnyOverflow(r.atlas, [ds[n]]))
  {
    var f := PaneThenPane(ds, n, blank);
    SecondFrame(r, ds, n, blank);
    TwoPanes(r, f.panes[0], f.panes[1]);
    assert f.panes == [f.panes[0], f.panes[1]];
  }

  /** A second pane whose one glyph overflows, after a pane that reuses its batch. */
  lemma {:induction false} SecondPaneOverwrites(r: Renderer, ds: seq<Drawing>, n: nat, blank: Texture, first: Placement)
    requires n < |ds| && !r.atlas.clearedThisFrame && 0 in r.cached && first in r.cached[0].placements
    requires first.rect == GlyphRect(0, 0, first.bitmap.width, first.bitmap.height)
    requires Overflows(r.atlas, ds[n]) && Differ(first.bitmap, ds[n].bitmap)
    ensures var f := PaneThenPane(ds, n, blank);
            && Reuses(BeginRender(r), f.panes[0].grid.value) && FrameOverflows(r, f)
            && first in FrameShown(r, f) && !ShowsMask(Submitted(r, f).texture, first.rect, first.bitmap)
  {
    SecondFrame(r, ds, n, blank);
    SecondSubmitted(r, ds, n, blank);
    OverflowHitsCorner(r.atlas, ds[n]);
    CornerLost(r.atlas.texture, first.bitmap, ds[n].bitmap);
  }

  /**
   The second failing family: the same glyphs drawn by a pane in one frame, and in the next frame
   by its kept batch, with one more glyph in a pane after it. Nothing breaks the trust in the
   cache, yet the frame is submitted with other pixels under the batch it reused.
   */
  lemma {:induction false} LateOverflowCorruptsFrame(atlasSize: nat, blank: Texture, ds: seq<Drawing>)
    requires FitAll(NewWithConfig(atlasSize, blank), ds) && AnyOverflow(NewWithConfig(atlasSize, blank), ds)
    requires forall i :: 0 < i < |ds| ==> Differ(ds[0].bitmap, ds[i].bitmap)
    ensures 0 < BeforeOverflow(NewWithConfig(atlasSize, blank), ds) < |ds|
    ensures var n := BeforeOverflow(NewWithConfig(atlasSize, blank), ds);
            var r1 := RenderFrame(Startup(atlasSize, blank), PaneAlone(ds, n, blank));
            var f := PaneThenPane(ds, n, blank);
            && TrustedFrames(Startup(atlasSize, blank), [PaneAlone(ds, n, blank)])
            && LegalFrame(r1, f) && Trusted(r1, f) && FrameOverflows(r1, f)
            && Reuses(BeginRender(r1), f.panes[0].grid.value)
            && Cornered(ds[0]) in FrameShown(r1, f)
            && !ShowsMask(Submitted(r1, f).texture, Cornered(ds[0]).rect, ds[0].bitmap)
  {
    var s := NewWithConfig(atlasSize, blank);
    var n := BeforeOverflow(s, ds);
    FirstOverflow(s, ds);
    FirstAtCorner(atlasSize, blank, ds);
    AfterPaneAlone(atlasSize, blank, ds, n);
    var r1 := RenderFrame(Startup(atlasSize, blank), PaneAlone(ds, n, blank));
    SecondPaneOverwrites(r1, ds, n, blank, Cornered(ds[0]));
    LateFrameLegal(atlasSize, blank, ds, n);
  }

  /** The frame asks for nothing unusual: its glyphs fit, and no overlay is drawn. */
  lemma {:induction false} LateFrameLegal(atlasSize: nat, blank: Texture, ds: seq<Drawing>, n: nat)
    requires 0 < n < |ds| && FitAll(NewWithConfig(atlasSize, blank), ds)
    requires !AnyOverflow(NewWithConfig(atlasSize, blank), ds[..n])
    ensures var r1 := RenderFrame(Startup(atlasSize, blank), PaneAlone(ds, n, blank));
            && TrustedFrames(Startup(atlasSize, blank), [PaneAlone(ds, n, blank)])
            && LegalFrame(r1, PaneThenPane(ds, n, blank)) && Trusted(r1, PaneThenPane(ds, n, blank))
  {
    AfterPaneAlone(atlasSize, blank, ds, n);
    NewWithConfigInv(atlasSize, blank);
    DrawAllSpec(NewWithConfig(atlasSize, blank), ds[..n]);
    assert [PaneAlone(ds, n, blank)][1..] == [];
    assert !AnyOverflow(PanesDone(RenderFrame(Startup(atlasSize, blank), PaneAlone(ds, n, blank)),
                                  PaneThenPane(ds, n, blank)).atlas, []);
  }

  // ----- The family is not empty: enough glyphs overflow any atlas -----

  /** How far the cursor has come. */
  function Travelled(s: State): (t: nat) {
    Product(s.size + 2, s.cursorY) + s.cursorX
  }

  lemma {:induction false} ProductGrows(a: nat, b: nat, c: nat)
    requires b < c
    ensures Product(a, b) + a <= Product(a, c)
  {
    if b < c - 1 {
      ProductGrows(a, b, c - 1);
    }
  }

  lemma {:induction false} TravelsOn(s: State, d: Drawing)
    requires Inv(s) && Fits(s, d.bitmap) && !Cached(s, d.key) && !Overflows(s, d)
    ensures var n := GetOrInsert(s, d.key, d.bitmap).0; Travelled(n) > Travelled(s) && n.size == s.size
  {
    if s.cursorX + d.bitmap.width > s.size {
      ProductGrows(s.size + 2, s.cursorY, s.cursorY + s.rowHeight + 1);
    }
  }

  lemma {:induction false} TravelIsBounded(s: State)
    requires Inv(s)
    ensures Travelled(s) < Product(s.size + 2, s.size + 1)
  {
    ProductGrows(s.size + 2, s.cursorY, s.size + 1);
  }

  /** Keys that were never drawn and are all different. */
  ghost predicate AllNew(s: State, ds: seq<Drawing>) {
    && (forall i :: 0 <= i < |ds| ==> ds[i].key !in s.history.shown)
    && forall i, j :: 0 <= i < j < |ds| ==> ds[i].key != ds[j].key
  }

  lemma {:induction false} NewIsUncached(s: State, key: AtlasKey)
    requires CacheInv(s) && key !in s.history.shown
    ensures !Cached(s, key)
  {
    if Cached(s, key) {
      CachedIsLive(s, key);
    }
  }

  lemma {:induction false} RestIsNew(s: State, ds: seq<Drawing>)
    requires ds != [] && AllNew(s, ds)
    ensures AllNew(GetOrInsert(s, ds[0].key, ds[0].bitmap).0, ds[1..])
  {
    InsertFrame(s, ds[0].key, ds[0].bitmap);
    assert forall i :: 0 <= i < |ds[1..]| ==> ds[1..][i] == ds[i + 1];
  }

  /** More different glyphs than the atlas has places overflow it, whatever their sizes. */
  lemma {:induction false} EnoughGlyphsOverflow(s: State, ds: seq<Drawing>)
    requires Inv(s) && FitAll(s, ds) && AllNew(s, ds)
    requires Travelled(s) + |ds| >= Product(s.size + 2, s.size + 1)
    ensures AnyOverflow(s, ds)
    decreases |ds|
  {
    TravelIsBounded(s);
    if !Overflows(s, ds[0]) {
      var n := GetOrInsert(s, ds[0].key, ds[0].bitmap).0;
      NewIsUncached(s, ds[0].key);
      TravelsOn(s, ds[0]);
      InsertInv(s, ds[0].key, ds[0].bitmap);
      RestIsNew(s, ds);
      assert FitAll(n, ds[1..]);
      EnoughGlyphsOverflow(n, ds[1..]);
    }
  }

  // ----- An input of both families -----

  /** One-texel glyphs of different sizes: the first opaque, the others faint. */
  function Specks(n: nat): (ds: seq<Drawing>) {
    seq(n, (i: nat) => Drawing(Dot(i), if i == 0 then DOT else Bitmap(1, 1, [Texel(255, 255, 255, 7)])))
  }

  lemma {:induction false} SpeckTexels()
    ensures DOT.WellFormed() && DOT.At(0, 0).a == 255
    ensures var faint := Bitmap(1, 1, [Texel(255, 255, 255, 7)]); faint.WellFormed() && faint.At(0, 0).a == 7
  {
    assert Product(1, 1) == 1 + Product(1, 0) == 1;
    assert Product(1, 0) == 0;
  }

  lemma {:induction false} SpecksFit(s: State, n: nat)
    requires s.size >= 1
    ensures FitAll(s, Specks(n))
  {
    SpeckTexels();
  }

  lemma {:induction false} SpecksNew(s: State, n: nat)
    requires s.history.shown == map[]
    ensures AllNew(s, Specks(n))
  {
  }

  lemma {:induction false} SpecksDiffer(n: nat, blank: Texture)
    requires n > 0 && blank.at(0, 0).a == 0
    ensures HasInk(Specks(n)[0].bitmap, blank)
    ensures forall i :: 0 < i < n ==> Differ(Specks(n)[0].bitmap, Specks(n)[i].bitmap)
  {
    SpeckTexels();
  }

  /** The places of an atlas of this side, as a product. */
  lemma {:induction false} PlacesOf(side: nat)
    ensures Product(side + 2, side + 1) == (side + 2) * (side + 1)
    ensures Product(side + 2, 0) == 0
  {
    ProductIsMultiplication(side + 2, side + 1);
  }

  /** Enough specks, over a texture whose corner is clear, meet all that the families ask. */
  lemma {:induction false} SpecksOverflow(side: nat, blank: Texture, n: nat)
    requires side == 1024 && n == 1026 * 1025 && blank.at(0, 0).a == 0
    ensures var s, ds := NewWithConfig(side, blank), Specks(n);
            && |ds| > 0 && FitAll(s, ds) && AnyOverflow(s, ds) && HasInk(ds[0].bitmap, blank)
            && forall i :: 0 < i < |ds| ==> Differ(ds[0].bitmap, ds[i].bitmap)
  {
    var s := NewWithConfig(side, blank);
    NewWithConfigInv(side, blank);
    assert s.size == side && s.cursorX == 0 && s.cursorY == 0;
    PlacesOf(side);
    SpecksFit(s, n);
    SpecksNew(s, n);
    SpecksDiffer(n, blank);
    EnoughGlyphsOverflow(s, Specks(n));
  }
}
