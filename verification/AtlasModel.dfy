/**
 The glyph atlas as a state machine over values: a shelf allocator that writes
 bitmaps into one square texture, and two least-recently-used caches that remember
 where they were written. `GlyphAtlas` is the in-place form of these steps.

 Texel origins are integers; the program divides them by the side length to get UVs.
 */
module AtlasModel {
  import opened Wrappers
  import opened LruCache

  // ----- Keys, bitmaps and the texture -----

  datatype FontRole = Terminal | Icon | Chrome

  datatype GlyphKey = GlyphKey(ch: char, bold: bool, italic: bool, wide: bool, role: FontRole, sizePx: nat)

  datatype LigatureKey = LigatureKey(col: nat, text: string, bold: bool, italic: bool, fgPacked: nat)

  /** The two caches hold disjoint halves of one key space. */
  datatype AtlasKey = Glyph(glyph: GlyphKey) | Ligature(ligature: LigatureKey)

  datatype Texel = Texel(r: bv8, g: bv8, b: bv8, a: bv8)

  /** A rasterised glyph, texels in row-major order. */
  datatype Bitmap = Bitmap(width: nat, height: nat, texels: seq<Texel>) {

    function At(i: int, j: int): (t: Texel) {
      var k := if j < 0 then -1 else Product(width, j) + i;
      if 0 <= k < |texels| then texels[k] else Texel(0, 0, 0, 0)
    }

    predicate WellFormed() {
      |texels| == Product(width, height)
    }
  }

  /** The texel in column `i` of row `j`. */
  lemma AtIsRowMajor(b: Bitmap, i: nat, j: nat)
    requires b.WellFormed() && i < b.width && j < b.height
    ensures b.width * j + i < |b.texels| && b.At(i, j) == b.texels[b.width * j + i]
  {
    ProductIsMultiplication(b.width, j);
    ProductIsMultiplication(b.width, b.height);
    MulStep(b.width, j, b.height);
  }

  /** Texels by column and row; what lies outside the square is never written. */
  datatype Texture = Texture(at: (int, int) -> Texel)

  predicate Inside(r: GlyphRect, x: int, y: int) {
    r.x <= x < r.x + r.width && r.y <= y < r.y + r.height
  }

  function Blit(texture: Texture, r: GlyphRect, bitmap: Bitmap): (t: Texture) {
    Texture((x: int, y: int) => if Inside(r, x, y) then bitmap.At(x - r.x, y - r.y) else texture.at(x, y))
  }

  /** The texture holds exactly `bitmap` at `r`. */
  ghost predicate Shows(texture: Texture, r: GlyphRect, bitmap: Bitmap) {
    && r.width == bitmap.width && r.height == bitmap.height
    && forall x, y :: Inside(r, x, y) ==> texture.at(x, y) == bitmap.At(x - r.x, y - r.y)
  }

  /** Glyphs are drawn through their alpha alone, so this is what decides how they look. */
  ghost predicate SameMask(b: Bitmap, c: Bitmap) {
    && b.width == c.width && b.height == c.height
    && forall i, j :: 0 <= i < b.width && 0 <= j < b.height ==> b.At(i, j).a == c.At(i, j).a
  }

  /** The texture holds the alpha of `bitmap` at `r`. */
  ghost predicate ShowsMask(texture: Texture, r: GlyphRect, bitmap: Bitmap) {
    && r.width == bitmap.width && r.height == bitmap.height
    && forall x, y :: Inside(r, x, y) ==> texture.at(x, y).a == bitmap.At(x - r.x, y - r.y).a
  }

  lemma ShowsSameMask(texture: Texture, r: GlyphRect, b: Bitmap, c: Bitmap)
    requires Shows(texture, r, b) && SameMask(b, c)
    ensures ShowsMask(texture, r, c)
  {
    forall x, y | Inside(r, x, y)
      ensures texture.at(x, y).a == c.At(x - r.x, y - r.y).a
    {
      assert b.At(x - r.x, y - r.y).a == c.At(x - r.x, y - r.y).a;
    }
  }

  /** At least one clear texel column or row between the two rectangles. */
  predicate Apart(p: GlyphRect, q: GlyphRect) {
    || p.x + p.width < q.x || q.x + q.width < p.x
    || p.y + p.height < q.y || q.y + q.height < p.y
  }

  predicate InTexture(r: GlyphRect, size: nat) {
    r.x + r.width <= size && r.y + r.height <= size
  }

  /** A rectangle handed out, with the key and the bitmap it was handed out for. */
  datatype Placement = Placement(key: AtlasKey, rect: GlyphRect, bitmap: Bitmap)

  // ----- State -----

  const SIZE_INIT: nat := 1024
  const SIZE_MAX_DEFAULT: nat := 2048
  /** 18 icons at three sizes of at most 24 pixels. */
  const ICON_RESERVED_AREA: nat := 18 * 3 * 24 * 24

  /** What has happened so far: `live` has every rectangle handed out since the last reset,
      `shown` the bitmap last uploaded for a key, and `resets` counts resets and growths. */
  datatype History = History(live: set<Placement>, shown: map<AtlasKey, Bitmap>, resets: nat)

  /** The fields of the atlas, and its history. */
  datatype State = State(
    size: nat, sizeMax: nat,
    cursorX: nat, cursorY: nat, rowHeight: nat,
    glyphs: Lru<AtlasKey>, ligatures: Lru<AtlasKey>,
    clearedThisFrame: bool, needsGrow: bool,
    cellWHint: nat, cellHHint: nat,
    glyphArea: nat, ligatureArea: nat, areaBudget: nat,
    texture: Texture,
    history: History)

  // ----- Steps -----

  function Square(side: nat): (area: nat) {
    Product(side, side)
  }

  function LruCapFromCell(size: nat, cellW: nat, cellH: nat): (cap: nat) {
    var usable := SaturatingSub(Square(size), ICON_RESERVED_AREA);
    var cellArea := if Product(cellW, cellH) == 0 then 1 else Product(cellW, cellH);
    var perCell := Quotient(usable, cellArea);
    if perCell < 256 then 256 else perCell
  }

  lemma SquareIsProduct(side: nat)
    ensures Square(side) == side * side
  {
    ProductIsMultiplication(side, side);
  }

  /** As many cells as fit beside the icons, at least 256. */
  lemma CapacityFits(size: nat, cellW: nat, cellH: nat)
    ensures var cap, usable := LruCapFromCell(size, cellW, cellH), SaturatingSub(size * size, ICON_RESERVED_AREA);
            && cap >= 256
            && (cellW * cellH > 0 ==> cellW * cellH * (cap + 1) > usable)
            && (cap > 256 && cellW * cellH > 0 ==> cellW * cellH * cap <= usable)
  {
    SquareIsProduct(size);
    ProductIsMultiplication(cellW, cellH);
    if Product(cellW, cellH) > 0 {
      QuotientBounds(SaturatingSub(Square(size), ICON_RESERVED_AREA), Product(cellW, cellH),
                     LruCapFromCell(size, cellW, cellH));
    }
  }

  lemma QuotientBounds(n: nat, d: nat, cap: nat)
    requires d > 0 && cap == (if Quotient(n, d) < 256 then 256 else Quotient(n, d))
    ensures d * (cap + 1) > n
    ensures cap > 256 ==> d * cap <= n
  {
    QuotientSpec(n, d);
    MulStep(d, Quotient(n, d), cap + 1);
  }

  /** As many cells as fit into the side beside the icons, a cell without area counting as one
      pixel, and never fewer than 256. */
  ghost predicate CapacityForCells(cap: nat, size: nat, cellW: nat, cellH: nat) {
    var usable := SaturatingSub(size * size, ICON_RESERVED_AREA);
    var perCell := if cellW * cellH == 0 then usable else usable / (cellW * cellH);
    cap == if perCell < 256 then 256 else perCell
  }

  /** The capacity as a quotient of products; a cell without area counts as one pixel. */
  lemma CapacityIs(size: nat, cellW: nat, cellH: nat)
    ensures CapacityForCells(LruCapFromCell(size, cellW, cellH), size, cellW, cellH)
  {
    SquareIsProduct(size);
    ProductIsMultiplication(cellW, cellH);
    var usable := SaturatingSub(Square(size), ICON_RESERVED_AREA);
    QuotientIsDivision(usable, if Product(cellW, cellH) == 0 then 1 else Product(cellW, cellH));
  }

  function WithSize(size: nat, blank: Texture): (s: State) {
    var cap := if Square(size) / 64 < 256 then 256 else Square(size) / 64;
    State(size, SIZE_MAX_DEFAULT, 0, 0, 0, Lru(cap, []), Lru(cap, []), false, false, 0, 0, 0, 0,
          SaturatingSub(Square(size), ICON_RESERVED_AREA), blank, History({}, map[], 0))
  }

  function NewWithConfig(atlasSize: nat, blank: Texture): (s: State) {
    var max := if atlasSize < SIZE_INIT then SIZE_INIT else atlasSize;
    var init := if max / 2 < SIZE_INIT then SIZE_INIT else max / 2;
    WithSize(init, blank).(sizeMax := max)
  }

  function UpdateCapacityHint(s: State, cellW: nat, cellH: nat): (n: State) {
    var cap := LruCapFromCell(s.size, cellW, cellH);
    s.(glyphs := Resize(s.glyphs, cap), ligatures := Resize(s.ligatures, cap),
       cellWHint := cellW, cellHHint := cellH)
  }

  function Grow(s: State, blank: Texture): (n: State) {
    var newSize := if s.size * 2 < s.sizeMax then s.size * 2 else s.sizeMax;
    var grown := WithSize(newSize, blank).(sizeMax := s.sizeMax, clearedThisFrame := true,
                                              history := History({}, map[], s.history.resets + 1));
    if s.cellWHint > 0 && s.cellHHint > 0 then UpdateCapacityHint(grown, s.cellWHint, s.cellHHint) else grown
  }

  /** Start the next shelf when the current one has no room for `width`. */
  function WrapRow(s: State, width: nat): (n: State) {
    if s.cursorX + width > s.size
    then s.(cursorY := s.cursorY + s.rowHeight + 1, cursorX := 0, rowHeight := 0)
    else s
  }

  /** Start over when the texture has no room for `height` below the cursor. */
  function ResetIfFull(s: State, height: nat): (n: State) {
    if s.cursorY + height > s.size
    then s.(cursorX := 0, cursorY := 0, rowHeight := 0,
            glyphs := s.glyphs.(entries := []), ligatures := s.ligatures.(entries := []),
            glyphArea := 0, ligatureArea := 0,
            clearedThisFrame := true, needsGrow := s.needsGrow || s.size < s.sizeMax,
            history := s.history.(live := {}, resets := s.history.resets + 1))
    else s
  }

  function RectAtCursor(s: State, bitmap: Bitmap): (r: GlyphRect) {
    GlyphRect(s.cursorX, s.cursorY, bitmap.width, bitmap.height)
  }

  /** Write the bitmap at the cursor and advance the cursor past it. */
  function Place(s: State, key: AtlasKey, bitmap: Bitmap): (n: State) {
    var rect := RectAtCursor(s, bitmap);
    s.(texture := Blit(s.texture, rect, bitmap),
       cursorX := s.cursorX + bitmap.width + 1,
       rowHeight := if bitmap.height > s.rowHeight then bitmap.height else s.rowHeight,
       history := s.history.(live := s.history.live + {Placement(key, rect, bitmap)},
                             shown := s.history.shown[key := bitmap]))
  }

  /** Place the bitmap and cache its rectangle. */
  function Upload(s: State, key: AtlasKey, bitmap: Bitmap): (n: State) {
    var rect := RectAtCursor(s, bitmap);
    if key.Glyph? then
      var (c, a) := Admit(s.glyphs, s.glyphArea, s.areaBudget, key, rect);
      Place(s, key, bitmap).(glyphs := c, glyphArea := a)
    else
      var (c, a) := Admit(s.ligatures, s.ligatureArea, s.areaBudget, key, rect);
      Place(s, key, bitmap).(ligatures := c, ligatureArea := a)
  }

  function CacheFor(s: State, key: AtlasKey): (c: Lru<AtlasKey>) {
    if key.Glyph? then s.glyphs else s.ligatures
  }

  predicate Cached(s: State, key: AtlasKey) {
    Find(CacheFor(s, key).entries, key) < |CacheFor(s, key).entries|
  }

  function CachedRect(s: State, key: AtlasKey): (r: GlyphRect)
    requires Cached(s, key)
  {
    CacheFor(s, key).entries[Find(CacheFor(s, key).entries, key)].rect
  }

  /** A cache hit makes the entry the most recently used one. */
  function Touch(s: State, key: AtlasKey): (n: State)
    requires Cached(s, key)
  {
    var c := CacheFor(s, key);
    var c' := c.(entries := Promote(c.entries, Find(c.entries, key)));
    if key.Glyph? then s.(glyphs := c') else s.(ligatures := c')
  }

  /** The state a miss writes from: wrapped, and reset when full. */
  function MakeRoom(s: State, bitmap: Bitmap): (n: State) {
    ResetIfFull(WrapRow(s, bitmap.width), bitmap.height)
  }

  /** Both get-or-insert operations: the new state and the rectangle handed out. */
  function GetOrInsert(s: State, key: AtlasKey, bitmap: Bitmap): (r: (State, GlyphRect)) {
    if Cached(s, key) then (Touch(s, key), CachedRect(s, key))
    else
      var room := MakeRoom(s, bitmap);
      (Upload(room, key, bitmap), RectAtCursor(room, bitmap))
  }

  // ----- Invariant -----

  /** Every handed-out rectangle lies on an earlier shelf, or on this one left of the cursor. */
  predicate Behind(r: GlyphRect, cursorX: nat, cursorY: nat, rowHeight: nat) {
    || r.y + r.height < cursorY
    || (r.y == cursorY && r.height <= rowHeight && r.x + r.width < cursorX)
  }

  ghost predicate ShelfInv(s: State) {
    s.cursorX <= s.size + 1 && s.cursorY + s.rowHeight <= s.size
  }

  ghost predicate LiveInv(s: State) {
    && (forall p :: p in s.history.live ==>
          && InTexture(p.rect, s.size)
          && Behind(p.rect, s.cursorX, s.cursorY, s.rowHeight)
          && Shows(s.texture, p.rect, p.bitmap))
    && (forall p, q :: p in s.history.live && q in s.history.live && p != q ==> Apart(p.rect, q.rect))
  }

  /** Every cached rectangle is a live one, recorded with the key's last upload. */
  ghost predicate BackedBy(es: seq<Entry<AtlasKey>>, live: set<Placement>, shown: map<AtlasKey, Bitmap>) {
    forall e :: e in es ==> e.key in shown && Placement(e.key, e.rect, shown[e.key]) in live
  }

  ghost predicate CacheInv(s: State) {
    && s.glyphs.Valid() && s.ligatures.Valid()
    && (forall e :: e in s.glyphs.entries ==> e.key.Glyph?)
    && (forall e :: e in s.ligatures.entries ==> e.key.Ligature?)
    && BackedBy(s.glyphs.entries, s.history.live, s.history.shown)
    && BackedBy(s.ligatures.entries, s.history.live, s.history.shown)
  }

  ghost predicate TallyInv(s: State) {
    s.glyphArea >= Area(s.glyphs.entries) && s.ligatureArea >= Area(s.ligatures.entries)
  }

  /** How far the two tallies overstate the cached area, added up. */
  function Overstated(s: State): (gap: int) {
    (s.glyphArea - Area(s.glyphs.entries)) + (s.ligatureArea - Area(s.ligatures.entries))
  }

  ghost predicate Inv(s: State) {
    ShelfInv(s) && LiveInv(s) && CacheInv(s) && TallyInv(s)
  }

  /** What the caller of a get-or-insert owes: a full pixel buffer no larger than the atlas. */
  predicate Fits(s: State, bitmap: Bitmap) {
    bitmap.WellFormed() && bitmap.width <= s.size && bitmap.height <= s.size
  }

  /** Only a miss writes, so only a miss has to fit. */
  predicate Welcome(s: State, key: AtlasKey, bitmap: Bitmap) {
    Cached(s, key) || Fits(s, bitmap)
  }

  // ----- Preservation -----

  lemma WithSizeInv(size: nat, blank: Texture)
    ensures Inv(WithSize(size, blank))
  {
  }

  /** A fresh atlas has room for one entry to 64 texels in each cache, and for 256 at least; its area
      budget is what the icons leave. */
  lemma WithSizeBudget(size: nat, blank: Texture)
    ensures var s := WithSize(size, blank);
            && s.glyphs.cap == s.ligatures.cap >= 256 && 64 * (s.glyphs.cap + 1) > size * size
            && (s.glyphs.cap > 256 ==> 64 * s.glyphs.cap <= size * size)
            && s.areaBudget == SaturatingSub(size * size, 18 * 3 * 24 * 24)
  {
    SquareIsProduct(size);
  }

  lemma NewWithConfigInv(atlasSize: nat, blank: Texture)
    ensures var s := NewWithConfig(atlasSize, blank);
            Inv(s) && 1024 <= s.size <= s.sizeMax && s.history == History({}, map[], 0)
  {
    WithSizeInv(NewWithConfig(atlasSize, blank).size, blank);
  }

  lemma UpdateCapacityHintInv(s: State, cellW: nat, cellH: nat)
    requires Inv(s)
    ensures Inv(UpdateCapacityHint(s, cellW, cellH))
  {
    var cap := LruCapFromCell(s.size, cellW, cellH);
    ResizeSpec(s.glyphs, cap);
    ResizeSpec(s.ligatures, cap);
  }

  lemma GrowInv(s: State, blank: Texture)
    ensures Inv(Grow(s, blank))
  {
    var newSize := if s.size * 2 < s.sizeMax then s.size * 2 else s.sizeMax;
    var grown := WithSize(newSize, blank).(sizeMax := s.sizeMax, clearedThisFrame := true,
                                              history := History({}, map[], s.history.resets + 1));
    assert Inv(grown);
    UpdateCapacityHintInv(grown, s.cellWHint, s.cellHHint);
  }

  /** What a growth changes: the side doubles up to the maximum, which stays, and the new atlas
      starts empty with its budget for the new side. */
  lemma GrowEnlarges(s: State, blank: Texture)
    requires 0 < s.size <= s.sizeMax
    ensures var n := Grow(s, blank);
            && s.size <= n.size <= n.sizeMax == s.sizeMax
            && (s.size < s.sizeMax ==> s.size < n.size)
            && (n.size == 2 * s.size || n.size == s.sizeMax)
            && n.size <= 2 * s.size
            && n.glyphs.entries == [] && n.ligatures.entries == [] && n.glyphArea == 0 && n.ligatureArea == 0
            && n.texture == blank && !n.needsGrow && n.clearedThisFrame
            && n.areaBudget == SaturatingSub(Square(n.size), ICON_RESERVED_AREA)
  {
  }

  /** A hint gives both caches the capacity for its cells and is remembered. */
  lemma HintSizesCaches(s: State, cellW: nat, cellH: nat)
    ensures var n := UpdateCapacityHint(s, cellW, cellH);
            && n.cellWHint == cellW && n.cellHHint == cellH
            && n.size == s.size && n.sizeMax == s.sizeMax
            && CapacityForCells(n.glyphs.cap, s.size, cellW, cellH)
            && CapacityForCells(n.ligatures.cap, s.size, cellW, cellH)
  {
    CapacityIs(s.size, cellW, cellH);
  }

  /** A hint survives a growth, and both caches get the capacity for it on the new side. */
  lemma GrowKeepsHint(s: State, blank: Texture)
    requires s.cellWHint > 0 && s.cellHHint > 0
    ensures var n := Grow(s, blank);
            && n.cellWHint == s.cellWHint && n.cellHHint == s.cellHHint
            && CapacityForCells(n.glyphs.cap, n.size, s.cellWHint, s.cellHHint)
            && CapacityForCells(n.ligatures.cap, n.size, s.cellWHint, s.cellHHint)
  {
    HintSizesCaches(Grow(s, blank), s.cellWHint, s.cellHHint);
    CapacityIs(Grow(s, blank).size, s.cellWHint, s.cellHHint);
  }

  /** Without a hint to keep, the capacities are those of a fresh atlas of the new side. */
  lemma GrowWithoutHint(s: State, blank: Texture)
    requires s.cellWHint == 0 || s.cellHHint == 0
    ensures var n, start := Grow(s, blank), WithSize(Grow(s, blank).size, blank);
            n.cellWHint == 0 && n.cellHHint == 0 && n.glyphs == start.glyphs && n.ligatures == start.ligatures
  {
  }

  lemma TouchInv(s: State, key: AtlasKey)
    requires Inv(s) && Cached(s, key)
    ensures Inv(Touch(s, key)) && HandedOut(Touch(s, key), key, CachedRect(s, key))
  {
    var es := CacheFor(s, key).entries;
    var i := Find(es, key);
    PromoteSpec(es, i);
    PromoteArea(es, i);
    FindLast(Promote(es, i), key);
    CachedIsLive(s, key);
  }

  /** Where a miss is about to write: the cursor keeps clear of every live rectangle. */
  ghost predicate RoomFor(s: State, bitmap: Bitmap) {
    s.cursorX + bitmap.width <= s.size && s.cursorY + bitmap.height <= s.size
  }

  lemma MakeRoomInv(s: State, bitmap: Bitmap)
    requires Inv(s) && bitmap.width <= s.size && bitmap.height <= s.size
    ensures Inv(MakeRoom(s, bitmap)) && RoomFor(MakeRoom(s, bitmap), bitmap)
  {
    var w := WrapRow(s, bitmap.width);
    assert LiveInv(w) && CacheInv(w);
    if w.cursorY + bitmap.height > w.size {
      assert Inv(MakeRoom(s, bitmap));
    } else {
      assert Inv(w);
    }
  }

  lemma UploadLive(s: State, key: AtlasKey, bitmap: Bitmap)
    requires ShelfInv(s) && LiveInv(s) && RoomFor(s, bitmap)
    ensures var n := Upload(s, key, bitmap); ShelfInv(n) && LiveInv(n) && s.history.live <= n.history.live
  {
    var n, rect := Upload(s, key, bitmap), RectAtCursor(s, bitmap);
    forall p | p in s.history.live
      ensures Apart(p.rect, rect)
      ensures Shows(n.texture, p.rect, p.bitmap)
      ensures Behind(p.rect, n.cursorX, n.cursorY, n.rowHeight)
    {
      assert Behind(p.rect, s.cursorX, s.cursorY, s.rowHeight);
    }
    assert Shows(n.texture, rect, bitmap);
  }

  /** Admitting a freshly written rectangle keeps one cache backed by live rectangles. */
  lemma AdmitBacked(c: Lru<AtlasKey>, area: nat, budget: nat, p: Placement,
                    live: set<Placement>, shown: map<AtlasKey, Bitmap>)
    requires c.Valid()
    requires BackedBy(c.entries, live, shown)
    requires forall e :: e in c.entries ==> e.key != p.key
    ensures var n := Admit(c, area, budget, p.key, p.rect).0;
            && n.Valid()
            && (forall e :: e in n.entries ==> e == Entry(p.key, p.rect) || e in c.entries)
            && BackedBy(n.entries, live + {p}, shown[p.key := p.bitmap])
            && Find(n.entries, p.key) == |n.entries| - 1
            && n.entries[|n.entries| - 1].rect == p.rect
  {
    AdmitValid(c, area, budget, p.key, p.rect);
    FindLast(Admit(c, area, budget, p.key, p.rect).0.entries, p.key);
  }

  /** The other cache does not notice. */
  lemma StaysBacked(es: seq<Entry<AtlasKey>>, p: Placement, live: set<Placement>, shown: map<AtlasKey, Bitmap>)
    requires BackedBy(es, live, shown)
    requires forall e :: e in es ==> e.key != p.key
    ensures BackedBy(es, live + {p}, shown[p.key := p.bitmap])
  {
  }

  lemma UncachedKey(es: seq<Entry<AtlasKey>>, key: AtlasKey)
    requires Find(es, key) == |es|
    ensures forall e :: e in es ==> e.key != key
  {
  }

  lemma UploadCaches(s: State, key: AtlasKey, bitmap: Bitmap)
    requires CacheInv(s) && !Cached(s, key)
    ensures CacheInv(Upload(s, key, bitmap)) && HandedOut(Upload(s, key, bitmap), key, RectAtCursor(s, bitmap))
  {
    var p := Placement(key, RectAtCursor(s, bitmap), bitmap);
    UncachedKey(CacheFor(s, key).entries, key);
    if key.Glyph? {
      AdmitBacked(s.glyphs, s.glyphArea, s.areaBudget, p, s.history.live, s.history.shown);
      StaysBacked(s.ligatures.entries, p, s.history.live, s.history.shown);
    } else {
      AdmitBacked(s.ligatures, s.ligatureArea, s.areaBudget, p, s.history.live, s.history.shown);
      StaysBacked(s.glyphs.entries, p, s.history.live, s.history.shown);
    }
  }

  lemma UploadTallies(s: State, key: AtlasKey, bitmap: Bitmap)
    requires 1 <= s.glyphs.cap && 1 <= s.ligatures.cap && TallyInv(s)
    ensures TallyInv(Upload(s, key, bitmap)) && Overstated(Upload(s, key, bitmap)) == Overstated(s)
  {
    var rect := RectAtCursor(s, bitmap);
    if key.Glyph? {
      AdmitKeepsGap(s.glyphs, s.glyphArea, s.areaBudget, key, rect);
    } else {
      AdmitKeepsGap(s.ligatures, s.ligatureArea, s.areaBudget, key, rect);
    }
  }

  lemma UploadInv(s: State, key: AtlasKey, bitmap: Bitmap)
    requires Inv(s) && RoomFor(s, bitmap) && !Cached(s, key)
    ensures Inv(Upload(s, key, bitmap))
  {
    UploadLive(s, key, bitmap);
    UploadCaches(s, key, bitmap);
    UploadTallies(s, key, bitmap);
  }

  /** `rect` is what the atlas answers for `key`, and it is a live rectangle recorded with
      the bitmap last uploaded for the key. */
  ghost predicate HandedOut(s: State, key: AtlasKey, rect: GlyphRect) {
    && Cached(s, key) && CachedRect(s, key) == rect
    && key in s.history.shown && Placement(key, rect, s.history.shown[key]) in s.history.live
  }

  lemma CachedIsLive(s: State, key: AtlasKey)
    requires CacheInv(s) && Cached(s, key)
    ensures HandedOut(s, key, CachedRect(s, key))
  {
    var es := CacheFor(s, key).entries;
    assert es[Find(es, key)] in es;
  }

  lemma LiveShows(s: State, p: Placement)
    requires LiveInv(s) && p in s.history.live
    ensures InTexture(p.rect, s.size) && Shows(s.texture, p.rect, p.bitmap)
  {
  }
}
