/**
 The glyph atlas as the renderer holds it: one object whose cursor, caches, tallies and
 texture are updated in place. Each method is proved against its step of `AtlasModel`,
 so everything `AtlasRuns` says about runs holds of the object.
 */
module GlyphAtlases {
  import opened Wrappers
  import opened LruCache
  import M = AtlasModel
  import R = AtlasRuns

  class GlyphAtlas {
    var size: nat
    var sizeMax: nat
    var cursorX: nat
    var cursorY: nat
    var rowHeight: nat
    var cache: Lru<M.AtlasKey>
    var ligatureCache: Lru<M.AtlasKey>
    var clearedThisFrame: bool
    var needsGrow: bool
    var cellWHint: nat
    var cellHHint: nat
    var cacheArea: nat
    var ligatureArea: nat
    var areaBudget: nat
    var texture: M.Texture
    ghost var history: M.History

    ghost function Abs(): (s: M.State)
      reads this
    {
      M.State(size, sizeMax, cursorX, cursorY, rowHeight, cache, ligatureCache, clearedThisFrame, needsGrow,
              cellWHint, cellHHint, cacheArea, ligatureArea, areaBudget, texture, history)
    }

    ghost predicate Valid()
      reads this
    {
      M.Inv(Abs())
    }

    /** Construct the atlas at the requested side length. */
    constructor WithSize(side: nat, blank: M.Texture)
      ensures Valid() && Abs() == M.WithSize(side, blank)
    {
      M.SquareIsProduct(side);
      var cap := if side * side / 64 < 256 then 256 else side * side / 64;
      size, sizeMax := side, M.SIZE_MAX_DEFAULT;
      cursorX, cursorY, rowHeight := 0, 0, 0;
      cache, ligatureCache := Lru(cap, []), Lru(cap, []);
      clearedThisFrame, needsGrow := false, false;
      cellWHint, cellHHint := 0, 0;
      cacheArea, ligatureArea := 0, 0;
      areaBudget := SaturatingSub(side * side, M.ICON_RESERVED_AREA);
      texture := blank;
      history := M.History({}, map[], 0);
    }

    /** Half the configured maximum to start with, both at least 1024. */
    constructor NewWithConfig(atlasSize: nat, blank: M.Texture)
      ensures Valid() && Abs() == M.NewWithConfig(atlasSize, blank)
    {
      var max := if atlasSize < M.SIZE_INIT then M.SIZE_INIT else atlasSize;
      var side := if max / 2 < M.SIZE_INIT then M.SIZE_INIT else max / 2;
      M.SquareIsProduct(side);
      var cap := if side * side / 64 < 256 then 256 else side * side / 64;
      size, sizeMax := side, max;
      cursorX, cursorY, rowHeight := 0, 0, 0;
      cache, ligatureCache := Lru(cap, []), Lru(cap, []);
      clearedThisFrame, needsGrow := false, false;
      cellWHint, cellHHint := 0, 0;
      cacheArea, ligatureArea := 0, 0;
      areaBudget := SaturatingSub(side * side, M.ICON_RESERVED_AREA);
      texture := blank;
      history := M.History({}, map[], 0);
    }

    /** Resize both caches to what the texture can hold at this cell size. */
    method UpdateCapacityHint(cellW: nat, cellH: nat)
      requires Valid()
      modifies this
      ensures Valid() && Abs() == M.UpdateCapacityHint(old(Abs()), cellW, cellH)
    {
      M.UpdateCapacityHintInv(Abs(), cellW, cellH);
      var cap := M.LruCapFromCell(size, cellW, cellH);
      cache := Resize(cache, cap);
      ligatureCache := Resize(ligatureCache, cap);
      cellWHint, cellHHint := cellW, cellH;
    }

    /** Start a frame: the renderer clears the reset flag. */
    method BeginFrame()
      requires Valid()
      modifies this`clearedThisFrame
      ensures Valid() && Abs() == R.Step(old(Abs()), R.BeginFrame)
    {
      clearedThisFrame := false;
    }

    /** Carry what survives a growth over to the new atlas. */
    method InheritFrom(oldMax: nat, ghost oldResets: nat)
      modifies this`sizeMax, this`clearedThisFrame, this`history
      ensures sizeMax == oldMax && clearedThisFrame && history == M.History({}, map[], oldResets + 1)
    {
      sizeMax := oldMax;
      clearedThisFrame := true;
      history := M.History({}, map[], oldResets + 1);
    }

    /** A new atlas of twice the side, or of the maximum, with nothing cached. */
    method Grow(blank: M.Texture) returns (atlas: GlyphAtlas)
      requires Valid()
      ensures fresh(atlas) && atlas.Valid() && atlas.Abs() == M.Grow(Abs(), blank)
    {
      M.GrowInv(Abs(), blank);
      var newSize := if size * 2 < sizeMax then size * 2 else sizeMax;
      atlas := new GlyphAtlas.WithSize(newSize, blank);
      atlas.InheritFrom(sizeMax, history.resets);
      if cellWHint > 0 && cellHHint > 0 {
        atlas.UpdateCapacityHint(cellWHint, cellHHint);
      }
    }

    /** Start the next shelf at the right edge. */
    method WrapRow(width: nat)
      modifies this`cursorX, this`cursorY, this`rowHeight
      ensures Abs() == M.WrapRow(old(Abs()), width)
    {
      if cursorX + width > size {
        cursorY := cursorY + rowHeight + 1;
        cursorX := 0;
        rowHeight := 0;
      }
    }

    /** Both caches hand out rectangles of the one texture, so both are emptied. */
    method ClearCaches()
      modifies this`cache, this`ligatureCache, this`cacheArea, this`ligatureArea
      ensures cache == old(cache).(entries := []) && ligatureCache == old(ligatureCache).(entries := [])
      ensures cacheArea == ligatureArea == 0
    {
      cache := cache.(entries := []);
      ligatureCache := ligatureCache.(entries := []);
      cacheArea, ligatureArea := 0, 0;
    }

    /** Start over at the origin, and say so. */
    method Reset()
      modifies this`cursorX, this`cursorY, this`rowHeight, this`cache, this`ligatureCache, this`cacheArea,
               this`ligatureArea, this`clearedThisFrame, this`needsGrow, this`history
      ensures cursorX == cursorY == rowHeight == cacheArea == ligatureArea == 0
      ensures cache == old(cache).(entries := []) && ligatureCache == old(ligatureCache).(entries := [])
      ensures clearedThisFrame && needsGrow == (old(needsGrow) || size < sizeMax)
      ensures history == old(history).(live := {}, resets := old(history).resets + 1)
    {
      ClearCaches();
      cursorX, cursorY, rowHeight := 0, 0, 0;
      clearedThisFrame := true;
      if size < sizeMax {
        needsGrow := true;
      }
      history := history.(live := {}, resets := history.resets + 1);
    }

    /** Reset when there is no room below the cursor. */
    method ResetIfFull(height: nat)
      modifies this
      ensures Abs() == M.ResetIfFull(old(Abs()), height)
    {
      if cursorY + height > size {
        Reset();
      }
    }

    /** Write the bitmap at the cursor, advance the cursor, and record whom the rectangle
        is for. */
    method WriteAtCursor(ghost key: M.AtlasKey, bitmap: M.Bitmap) returns (rect: GlyphRect)
      modifies this`texture, this`cursorX, this`rowHeight, this`history
      ensures rect == GlyphRect(old(cursorX), cursorY, bitmap.width, bitmap.height)
      ensures texture == M.Blit(old(texture), rect, bitmap)
      ensures cursorX == old(cursorX) + bitmap.width + 1
      ensures rowHeight == if bitmap.height > old(rowHeight) then bitmap.height else old(rowHeight)
      ensures history == old(history).(live := old(history).live + {M.Placement(key, rect, bitmap)},
                                       shown := old(history).shown[key := bitmap])
    {
      rect := GlyphRect(cursorX, cursorY, bitmap.width, bitmap.height);
      texture := M.Blit(texture, rect, bitmap);
      history := history.(live := history.live + {M.Placement(key, rect, bitmap)},
                          shown := history.shown[key := bitmap]);
      cursorX := cursorX + bitmap.width + 1;
      rowHeight := if bitmap.height > rowHeight then bitmap.height else rowHeight;
    }

    /** The write as one step of the model. */
    method Place(ghost key: M.AtlasKey, bitmap: M.Bitmap) returns (rect: GlyphRect)
      modifies this
      ensures Abs() == M.Place(old(Abs()), key, bitmap)
      ensures rect == M.RectAtCursor(old(Abs()), bitmap)
    {
      rect := WriteAtCursor(key, bitmap);
    }

    /** The rectangle of a single-character glyph, uploaded first when it is not cached. */
    method GetOrInsert(glyph: M.GlyphKey, bitmap: M.Bitmap) returns (rect: GlyphRect)
      modifies this
      ensures (Abs(), rect) == M.GetOrInsert(old(Abs()), M.Glyph(glyph), bitmap)
      ensures old(Valid() && M.Welcome(Abs(), M.Glyph(glyph), bitmap)) ==> Valid()
    {
      var key := M.Glyph(glyph);
      ghost var next := M.GetOrInsert(Abs(), key, bitmap).0;
      if Valid() && M.Welcome(Abs(), key, bitmap) {
        R.InsertInv(Abs(), key, bitmap);
      }
      var i := Find(cache.entries, key);
      if i < |cache.entries| {
        rect := cache.entries[i].rect;
        cache := cache.(entries := Promote(cache.entries, i));
        assert Abs() == next;
        return;
      }
      WrapRow(bitmap.width);
      ResetIfFull(bitmap.height);
      rect := Place(key, bitmap);
      cache, cacheArea := InsertWithAreaBudget(cache, cacheArea, areaBudget, key, rect);
      assert Abs() == next;
    }

    /** The rectangle of a ligature, through the same cursor and texture. */
    method GetOrInsertLigature(ligature: M.LigatureKey, bitmap: M.Bitmap) returns (rect: GlyphRect)
      modifies this
      ensures (Abs(), rect) == M.GetOrInsert(old(Abs()), M.Ligature(ligature), bitmap)
      ensures old(Valid() && M.Welcome(Abs(), M.Ligature(ligature), bitmap)) ==> Valid()
    {
      var key := M.Ligature(ligature);
      ghost var next := M.GetOrInsert(Abs(), key, bitmap).0;
      if Valid() && M.Welcome(Abs(), key, bitmap) {
        R.InsertInv(Abs(), key, bitmap);
      }
      var i := Find(ligatureCache.entries, key);
      if i < |ligatureCache.entries| {
        rect := ligatureCache.entries[i].rect;
        ligatureCache := ligatureCache.(entries := Promote(ligatureCache.entries, i));
        assert Abs() == next;
        return;
      }
      WrapRow(bitmap.width);
      ResetIfFull(bitmap.height);
      rect := Place(key, bitmap);
      ligatureCache, ligatureArea := InsertWithAreaBudget(ligatureCache, ligatureArea, areaBudget, key, rect);
      assert Abs() == next;
    }
  }
}
