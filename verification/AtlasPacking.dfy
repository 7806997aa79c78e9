/**
 How many glyphs the shelves hold: glyphs of one size fill the texture like a grid, and the first
 one too many resets it.
 */
module AtlasPacking {
  import opened Wrappers
  import opened LruCache
  import opened AtlasModel
  import opened AtlasRuns
  import opened PaneCache
  import opened CacheFailures

  /** All of one size. */
  ghost predicate SameSize(ds: seq<Drawing>, w: nat, h: nat) {
    forall i :: 0 <= i < |ds| ==> ds[i].bitmap.width == w && ds[i].bitmap.height == h
  }

  /** How many glyphs of this extent fit side by side, one clear texel after each but the last. */
  function Abreast(side: nat, extent: nat): (n: nat) {
    Quotient(side + 1, extent + 1)
  }

  lemma {:induction false} AbreastSpec(side: nat, extent: nat, k: nat)
    ensures Product(extent + 1, k) <= side + 1 <==> k <= Abreast(side, extent)
  {
    var n := Abreast(side, extent);
    QuotientSpec(side + 1, extent + 1);
    ProductIsMultiplication(extent + 1, n);
    assert Product(extent + 1, n) <= side + 1 < Product(extent + 1, n) + (extent + 1);
    if k < n {
      ProductGrows(extent + 1, k, n);
    } else if n < k {
      ProductGrows(extent + 1, n, k);
    }
  }

  lemma {:induction false} OneMoreFits(side: nat, extent: nat, k: nat)
    ensures Product(extent + 1, k) + extent <= side <==> k < Abreast(side, extent)
  {
    AbreastSpec(side, extent, k + 1);
  }

  /** The cursor stands behind `c` glyphs on shelf `r`. */
  ghost predicate At(s: State, w: nat, h: nat, c: nat, r: nat) {
    && s.cursorX == Product(w + 1, c) && s.cursorY == Product(h + 1, r)
    && s.rowHeight == (if c == 0 then 0 else h)
    && c <= Abreast(s.size, w) && r < Abreast(s.size, h)
  }

  /** Places left on this shelf and below it. */
  function PlacesLeft(s: State, w: nat, h: nat, c: nat, r: nat): (n: int)
    requires r < Abreast(s.size, h)
  {
    Abreast(s.size, w) - c + Product(Abreast(s.size, w), Abreast(s.size, h) - 1 - r)
  }

  lemma {:induction false} NextOnShelf(s: State, d: Drawing, w: nat, h: nat, c: nat, r: nat)
    requires !Cached(s, d.key) && d.bitmap.width == w && d.bitmap.height == h
    requires At(s, w, h, c, r) && c < Abreast(s.size, w)
    ensures !Overflows(s, d) && At(GetOrInsert(s, d.key, d.bitmap).0, w, h, c + 1, r)
  {
    OneMoreFits(s.size, w, c);
    OneMoreFits(s.size, h, r);
  }

  lemma {:induction false} NextShelf(s: State, d: Drawing, w: nat, h: nat, c: nat, r: nat)
    requires !Cached(s, d.key) && d.bitmap.width == w && d.bitmap.height == h
    requires At(s, w, h, c, r) && c == Abreast(s.size, w) > 0
    ensures Overflows(s, d) <==> r + 1 == Abreast(s.size, h)
    ensures r + 1 < Abreast(s.size, h) ==> At(GetOrInsert(s, d.key, d.bitmap).0, w, h, 1, r + 1)
  {
    OneMoreFits(s.size, w, c);
    OneMoreFits(s.size, h, r + 1);
    assert Product(w + 1, 1) == w + 1 + Product(w + 1, 0) == w + 1;
  }

  lemma {:induction false} RestIsPacked(s: State, ds: seq<Drawing>, w: nat, h: nat)
    requires Inv(s) && FitAll(s, ds) && AllNew(s, ds) && SameSize(ds, w, h) && ds != []
    ensures var n := GetOrInsert(s, ds[0].key, ds[0].bitmap).0;
            n.size == s.size && Inv(n) && FitAll(n, ds[1..]) && AllNew(n, ds[1..]) && SameSize(ds[1..], w, h)
  {
    InsertInv(s, ds[0].key, ds[0].bitmap);
    InsertFrame(s, ds[0].key, ds[0].bitmap);
    RestIsNew(s, ds);
  }

  /** The cursor is at this place and everything still to be drawn is new and of this size. */
  ghost predicate Packing(s: State, ds: seq<Drawing>, w: nat, h: nat, c: nat, r: nat) {
    && Inv(s) && FitAll(s, ds) && AllNew(s, ds) && SameSize(ds, w, h)
    && At(s, w, h, c, r) && Abreast(s.size, w) > 0
  }

  lemma {:induction false} PlaceTaken(s: State, n: State, over: bool, w: nat, h: nat, c: nat, r: nat)
      returns (c': nat, r': nat)
    requires At(s, w, h, c, r) && Abreast(s.size, w) > 0 && n.size == s.size
    requires c < Abreast(s.size, w) ==> !over && At(n, w, h, c + 1, r)
    requires c == Abreast(s.size, w) ==> (over <==> r + 1 == Abreast(s.size, h)) && (!over ==> At(n, w, h, 1, r + 1))
    ensures 0 <= PlacesLeft(s, w, h, c, r) && (over <==> PlacesLeft(s, w, h, c, r) == 0)
    ensures !over ==> At(n, w, h, c', r') && PlacesLeft(n, w, h, c', r') == PlacesLeft(s, w, h, c, r) - 1
  {
    if c < Abreast(s.size, w) {
      c', r' := c + 1, r;
    } else {
      c', r' := 1, r + 1;
    }
  }

  /** The next glyph takes one place, or there is none left. */
  lemma {:induction false} NextPlace(s: State, n: State, ds: seq<Drawing>, w: nat, h: nat, c: nat, r: nat)
      returns (c': nat, r': nat)
    requires ds != [] && Packing(s, ds, w, h, c, r) && n == GetOrInsert(s, ds[0].key, ds[0].bitmap).0
    ensures 0 <= PlacesLeft(s, w, h, c, r) && (Overflows(s, ds[0]) <==> PlacesLeft(s, w, h, c, r) == 0)
    ensures !Overflows(s, ds[0]) ==> && Packing(n, ds[1..], w, h, c', r')
                                     && PlacesLeft(n, w, h, c', r') == PlacesLeft(s, w, h, c, r) - 1
  {
    NewIsUncached(s, ds[0].key);
    RestIsPacked(s, ds, w, h);
    if c < Abreast(s.size, w) {
      NextOnShelf(s, ds[0], w, h, c, r);
    } else {
      NextShelf(s, ds[0], w, h, c, r);
    }
    c', r' := PlaceTaken(s, n, Overflows(s, ds[0]), w, h, c, r);
  }

  lemma {:induction false} PackingFrom(s: State, ds: seq<Drawing>, w: nat, h: nat, c: nat, r: nat)
    requires Packing(s, ds, w, h, c, r)
    ensures AnyOverflow(s, ds) <==> |ds| > PlacesLeft(s, w, h, c, r)
    decreases |ds|
  {
    if ds != [] {
      var n := GetOrInsert(s, ds[0].key, ds[0].bitmap).0;
      var c', r' := NextPlace(s, n, ds, w, h, c, r);
      if !Overflows(s, ds[0]) {
        PackingFrom(n, ds[1..], w, h, c', r');
      }
    }
  }

  lemma {:induction false} SomeFit(side: nat, extent: nat)
    requires extent <= side
    ensures Abreast(side, extent) == (side + 1) / (extent + 1) > 0
  {
    QuotientIsDivision(side + 1, extent + 1);
    assert Product(extent + 1, 0) == 0;
    OneMoreFits(side, extent, 0);
  }

  lemma {:induction false} PackingFromStart(s: State, ds: seq<Drawing>, w: nat, h: nat)
    requires Inv(s) && FitAll(s, ds) && AllNew(s, ds) && SameSize(ds, w, h)
    requires s.cursorX == 0 && s.cursorY == 0 && s.rowHeight == 0 && w <= s.size && h <= s.size
    ensures AnyOverflow(s, ds) <==> |ds| > Product(Abreast(s.size, w), Abreast(s.size, h))
  {
    SomeFit(s.size, w);
    SomeFit(s.size, h);
    assert Product(w + 1, 0) == 0 && Product(h + 1, 0) == 0;
    PackingFrom(s, ds, w, h, 0, 0);
  }

  /** Different glyphs of one size overflow a new atlas exactly when there are more of them than a
      grid with a texel between its cells has places. */
  lemma {:induction false} PackingIsGrid(atlasSize: nat, blank: Texture, ds: seq<Drawing>, w: nat, h: nat)
    requires var s := NewWithConfig(atlasSize, blank); FitAll(s, ds) && AllNew(s, ds) && w <= s.size && h <= s.size
    requires SameSize(ds, w, h)
    ensures var s := NewWithConfig(atlasSize, blank);
            AnyOverflow(s, ds) <==> |ds| > ((s.size + 1) / (w + 1)) * ((s.size + 1) / (h + 1))
  {
    var s := NewWithConfig(atlasSize, blank);
    NewWithConfigInv(atlasSize, blank);
    PackingFromStart(s, ds, w, h);
    GridPlaces(s.size, w, h);
  }

  lemma {:induction false} GridPlaces(side: nat, w: nat, h: nat)
    requires w <= side && h <= side
    ensures Product(Abreast(side, w), Abreast(side, h)) == ((side + 1) / (w + 1)) * ((side + 1) / (h + 1))
  {
    SomeFit(side, w);
    SomeFit(side, h);
    ProductIsMultiplication(Abreast(side, w), Abreast(side, h));
  }
}
