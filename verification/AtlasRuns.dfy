/**
 What the atlas promises over whole runs: any interleaving of the two insertions with
 capacity changes, frame starts and growths, from a freshly built atlas.
 */
module AtlasRuns {
  import opened Wrappers
  import opened LruCache
  import opened AtlasModel

  datatype Op =
    | Draw(key: AtlasKey, bitmap: Bitmap)
    | Hint(cellW: nat, cellH: nat)
    | BeginFrame
    | Enlarge(blank: Texture)

  function Step(s: State, op: Op): (n: State) {
    match op
    case Draw(key, bitmap) => GetOrInsert(s, key, bitmap).0
    case Hint(w, h) => UpdateCapacityHint(s, w, h)
    case BeginFrame => s.(clearedThisFrame := false)
    case Enlarge(blank) => Grow(s, blank)
  }

  predicate Legal(s: State, op: Op) {
    op.Draw? ==> Welcome(s, op.key, op.bitmap)
  }

  function Run(s: State, ops: seq<Op>): (n: State)
    decreases |ops|
  {
    if ops == [] then s else Run(Step(s, ops[0]), ops[1..])
  }

  predicate LegalRun(s: State, ops: seq<Op>)
    decreases |ops|
  {
    ops == [] || (Legal(s, ops[0]) && LegalRun(Step(s, ops[0]), ops[1..]))
  }

  // ----- One insertion -----

  /** A miss writes inside the texture exactly when the bitmap is no larger than the atlas. */
  lemma MissStaysInside(s: State, bitmap: Bitmap)
    requires Inv(s)
    ensures InTexture(RectAtCursor(MakeRoom(s, bitmap), bitmap), s.size)
            <==> bitmap.width <= s.size && bitmap.height <= s.size
  {
    if bitmap.width <= s.size && bitmap.height <= s.size {
      MakeRoomInv(s, bitmap);
    }
  }

  /** Both insertions keep the invariant, and hand out a live rectangle that shows the
      key's last upload. */
  lemma InsertInv(s: State, key: AtlasKey, bitmap: Bitmap)
    requires Inv(s) && Welcome(s, key, bitmap)
    ensures Inv(GetOrInsert(s, key, bitmap).0)
  {
    if Cached(s, key) {
      TouchInv(s, key);
    } else {
      MakeRoomInv(s, bitmap);
      MissKeepsKey(s, key, bitmap);
      UploadInv(MakeRoom(s, bitmap), key, bitmap);
    }
  }

  lemma InsertHandsOut(s: State, key: AtlasKey, bitmap: Bitmap)
    requires Inv(s) && Welcome(s, key, bitmap)
    ensures var (n, r) := GetOrInsert(s, key, bitmap);
            HandedOut(n, key, r) && Shows(n.texture, r, n.history.shown[key])
  {
    var (n, r) := GetOrInsert(s, key, bitmap);
    if Cached(s, key) {
      TouchInv(s, key);
    } else {
      RoomCaches(s, bitmap);
      MissKeepsKey(s, key, bitmap);
      UploadCaches(MakeRoom(s, bitmap), key, bitmap);
    }
    assert LiveInv(n) by {
      InsertInv(s, key, bitmap);
    }
    LiveShows(n, Placement(key, r, n.history.shown[key]));
  }

  lemma RoomFrame(s: State, bitmap: Bitmap)
    ensures var n := MakeRoom(s, bitmap);
            && n.size == s.size && n.history.shown == s.history.shown
            && n.history.live == (if n.history.resets == s.history.resets then s.history.live else {})
            && n.history.resets >= s.history.resets
            && n.clearedThisFrame == (s.clearedThisFrame || n.history.resets != s.history.resets)
  {
  }

  lemma UploadFrame(s: State, key: AtlasKey, bitmap: Bitmap)
    ensures var n := Upload(s, key, bitmap);
            && n.size == s.size && n.history.shown == s.history.shown[key := bitmap]
            && s.history.live <= n.history.live
            && n.history.resets == s.history.resets && n.clearedThisFrame == s.clearedThisFrame
  {
  }

  /** What both insertions leave alone: rectangles handed out since the last reset stay live
      unless this call resets, and a reset raises the flag. */
  lemma InsertFrame(s: State, key: AtlasKey, bitmap: Bitmap)
    ensures var n := GetOrInsert(s, key, bitmap).0;
            && n.size == s.size
            && n.history.shown == (if Cached(s, key) then s.history.shown else s.history.shown[key := bitmap])
            && (n.history.resets == s.history.resets ==> s.history.live <= n.history.live)
            && n.history.resets >= s.history.resets
            && n.clearedThisFrame == (s.clearedThisFrame || n.history.resets != s.history.resets)
  {
    if !Cached(s, key) {
      RoomFrame(s, bitmap);
      UploadFrame(MakeRoom(s, bitmap), key, bitmap);
    }
  }

  lemma MissKeepsKey(s: State, key: AtlasKey, bitmap: Bitmap)
    requires !Cached(s, key)
    ensures !Cached(MakeRoom(s, bitmap), key)
  {
  }

  function TallyFor(s: State, key: AtlasKey): (area: nat) {
    if key.Glyph? then s.glyphArea else s.ligatureArea
  }

  lemma UploadAdmits(room: State, key: AtlasKey, bitmap: Bitmap)
    ensures var n := Upload(room, key, bitmap);
            && (CacheFor(n, key), TallyFor(n, key)) == Admit(CacheFor(room, key), TallyFor(room, key),
                                                             room.areaBudget, key, RectAtCursor(room, bitmap))
            && (if key.Glyph? then n.ligatures == room.ligatures else n.glyphs == room.glyphs)
  {
  }

  lemma UploadEvicts(room: State, key: AtlasKey, bitmap: Bitmap)
    requires 1 <= CacheFor(room, key).cap && TallyFor(room, key) >= Area(CacheFor(room, key).entries)
    requires Find(CacheFor(room, key).entries, key) == |CacheFor(room, key).entries|
    ensures var n := Upload(room, key, bitmap);
            var before, after := CacheFor(room, key).entries, CacheFor(n, key).entries;
            && 1 <= |after| <= |before| + 1
            && after == before[|before| - (|after| - 1)..] + [Entry(key, RectAtCursor(room, bitmap))]
            && Area(after) <= TallyFor(n, key)
            && (TallyFor(n, key) <= room.areaBudget || |after| == 1)
            && (if key.Glyph? then n.ligatures == room.ligatures else n.glyphs == room.glyphs)
  {
    UploadAdmits(room, key, bitmap);
    AdmitKeepsRecent(CacheFor(room, key), TallyFor(room, key), room.areaBudget, key, RectAtCursor(room, bitmap));
  }

  /** The cache after a miss: the key comes last, the survivors are the most recently used
      entries, the other cache is untouched unless the atlas was reset, and the tally meets
      the budget or a single entry is left. */
  lemma MissEvicts(s: State, key: AtlasKey, bitmap: Bitmap)
    requires Inv(s) && !Cached(s, key)
    ensures var n := GetOrInsert(s, key, bitmap).0;
            var room := MakeRoom(s, bitmap);
            var before, after := CacheFor(room, key).entries, CacheFor(n, key).entries;
            && before == (if n.history.resets == s.history.resets then CacheFor(s, key).entries else [])
            && 1 <= |after| <= |before| + 1
            && after == before[|before| - (|after| - 1)..] + [Entry(key, RectAtCursor(room, bitmap))]
            && Area(after) <= TallyFor(n, key)
            && (TallyFor(n, key) <= s.areaBudget || |after| == 1)
            && (if key.Glyph? then n.ligatures == room.ligatures else n.glyphs == room.glyphs)
  {
    MissRoom(s, key, bitmap);
    UploadFrame(MakeRoom(s, bitmap), key, bitmap);
    UploadEvicts(MakeRoom(s, bitmap), key, bitmap);
  }

  /** The cache a miss inserts into: as it was, or empty after a reset; the key is in neither. */
  lemma MissRoom(s: State, key: AtlasKey, bitmap: Bitmap)
    requires CacheInv(s) && TallyInv(s) && !Cached(s, key)
    ensures var room := MakeRoom(s, bitmap);
            var c := CacheFor(room, key);
            && c.entries == (if room.history.resets == s.history.resets then CacheFor(s, key).entries else [])
            && 1 <= c.cap && Find(c.entries, key) == |c.entries|
            && TallyFor(room, key) >= Area(c.entries) && room.areaBudget == s.areaBudget
  {
    RoomCaches(s, bitmap);
    RoomFrame(s, bitmap);
  }

  // ----- Runs -----

  lemma StepInv(s: State, op: Op)
    requires Inv(s) && Legal(s, op)
    ensures var n := Step(s, op);
            && Inv(n) && n.history.resets >= s.history.resets
            && (n.history.resets == s.history.resets ==> s.history.live <= n.history.live)
            && (!op.BeginFrame? ==>
                  && (n.history.resets != s.history.resets ==> n.clearedThisFrame)
                  && (s.clearedThisFrame ==> n.clearedThisFrame))
  {
    match op
    case Draw(key, bitmap) =>
      InsertInv(s, key, bitmap);
      InsertFrame(s, key, bitmap);
    case Hint(w, h) => UpdateCapacityHintInv(s, w, h);
    case BeginFrame =>
    case Enlarge(blank) => GrowInv(s, blank);
  }

  /** Every reachable state is well formed. */
  lemma {:induction false} RunInv(s: State, ops: seq<Op>)
    requires Inv(s) && LegalRun(s, ops)
    ensures var n := Run(s, ops);
            && Inv(n) && n.history.resets >= s.history.resets
            && (n.history.resets == s.history.resets ==> s.history.live <= n.history.live)
    decreases |ops|
  {
    if ops != [] {
      StepInv(s, ops[0]);
      RunInv(Step(s, ops[0]), ops[1..]);
    }
  }

  /** In every state reachable from a newly configured atlas, the rectangles of both caches lie
      inside the texture, and those of two different keys are at least one texel apart. */
  lemma CachedRectsAreApart(atlasSize: nat, blank: Texture, ops: seq<Op>, k1: AtlasKey, k2: AtlasKey)
    requires LegalRun(NewWithConfig(atlasSize, blank), ops)
    requires var n := Run(NewWithConfig(atlasSize, blank), ops); Cached(n, k1) && Cached(n, k2)
    ensures var n := Run(NewWithConfig(atlasSize, blank), ops);
            && InTexture(CachedRect(n, k1), n.size)
            && (k1 != k2 ==> Apart(CachedRect(n, k1), CachedRect(n, k2)))
  {
    NewWithConfigInv(atlasSize, blank);
    RunInv(NewWithConfig(atlasSize, blank), ops);
    LiveRectsAreApart(Run(NewWithConfig(atlasSize, blank), ops), k1, k2);
  }

  lemma LiveRectsAreApart(s: State, k1: AtlasKey, k2: AtlasKey)
    requires Inv(s) && Cached(s, k1) && Cached(s, k2)
    ensures InTexture(CachedRect(s, k1), s.size)
    ensures k1 != k2 ==> Apart(CachedRect(s, k1), CachedRect(s, k2))
  {
    CachedIsLive(s, k1);
    CachedIsLive(s, k2);
  }

  /** A key determines the alpha of its bitmap; the colour may differ from draw to draw. */
  ghost predicate Rasterises(ops: seq<Op>, raster: AtlasKey -> Bitmap) {
    forall i :: 0 <= i < |ops| && ops[i].Draw? ==> SameMask(ops[i].bitmap, raster(ops[i].key))
  }

  ghost predicate ShownBy(shown: map<AtlasKey, Bitmap>, raster: AtlasKey -> Bitmap) {
    forall k :: k in shown ==> SameMask(shown[k], raster(k))
  }

  lemma StepShown(s: State, op: Op, raster: AtlasKey -> Bitmap)
    requires ShownBy(s.history.shown, raster)
    requires op.Draw? ==> SameMask(op.bitmap, raster(op.key))
    ensures ShownBy(Step(s, op).history.shown, raster)
  {
    if op.Draw? {
      InsertFrame(s, op.key, op.bitmap);
    }
  }

  lemma {:induction false} RunShown(s: State, ops: seq<Op>, raster: AtlasKey -> Bitmap)
    requires Rasterises(ops, raster) && ShownBy(s.history.shown, raster)
    ensures ShownBy(Run(s, ops).history.shown, raster)
    decreases |ops|
  {
    if ops != [] {
      StepShown(s, ops[0], raster);
      assert forall i :: 0 <= i < |ops[1..]| ==> ops[1..][i] == ops[i + 1];
      RunShown(Step(s, ops[0]), ops[1..], raster);
    }
  }

  /** In every state reachable from a newly configured atlas, a hit looks like a fresh
      rasterise-and-upload of its key. */
  lemma HitIsFresh(atlasSize: nat, blank: Texture, ops: seq<Op>, raster: AtlasKey -> Bitmap, key: AtlasKey)
    requires LegalRun(NewWithConfig(atlasSize, blank), ops) && Rasterises(ops, raster)
    requires Cached(Run(NewWithConfig(atlasSize, blank), ops), key)
    ensures var n := Run(NewWithConfig(atlasSize, blank), ops);
            ShowsMask(n.texture, CachedRect(n, key), raster(key))
  {
    var s := NewWithConfig(atlasSize, blank);
    NewWithConfigInv(atlasSize, blank);
    RunInv(s, ops);
    RunShown(s, ops, raster);
    HitShows(Run(s, ops), raster, key);
  }

  lemma HitShows(s: State, raster: AtlasKey -> Bitmap, key: AtlasKey)
    requires Inv(s) && ShownBy(s.history.shown, raster) && Cached(s, key)
    ensures ShowsMask(s.texture, CachedRect(s, key), raster(key))
  {
    CachedIsLive(s, key);
    ShowsSameMask(s.texture, CachedRect(s, key), s.history.shown[key], raster(key));
  }

  /** A rectangle handed out stays intact for as long as nothing resets or grows the atlas,
      even once the caches have evicted it. */
  lemma HandedOutStaysIntact(s: State, ops: seq<Op>, p: Placement)
    requires Inv(s) && LegalRun(s, ops) && p in s.history.live
    requires Run(s, ops).history.resets == s.history.resets
    ensures p in Run(s, ops).history.live && Shows(Run(s, ops).texture, p.rect, p.bitmap)
  {
    RunInv(s, ops);
  }

  lemma {:induction false} FlagIsSticky(s: State, ops: seq<Op>)
    requires Inv(s) && LegalRun(s, ops)
    requires forall i :: 0 <= i < |ops| ==> !ops[i].BeginFrame?
    ensures s.clearedThisFrame ==> Run(s, ops).clearedThisFrame
    ensures Run(s, ops).history.resets != s.history.resets ==> Run(s, ops).clearedThisFrame
    decreases |ops|
  {
    if ops != [] {
      StepInv(s, ops[0]);
      assert forall i :: 0 <= i < |ops[1..]| ==> ops[1..][i] == ops[i + 1];
      FlagIsSticky(Step(s, ops[0]), ops[1..]);
    }
  }

  /** Within a frame, overwriting anything handed out raises `cleared_this_frame`. */
  lemma OverwriteRaisesFlag(s: State, ops: seq<Op>, p: Placement)
    requires Inv(s) && LegalRun(s, ops) && p in s.history.live
    requires forall i :: 0 <= i < |ops| ==> !ops[i].BeginFrame?
    requires !Shows(Run(s, ops).texture, p.rect, p.bitmap)
    ensures Run(s, ops).clearedThisFrame
  {
    FlagIsSticky(s, ops);
    if Run(s, ops).history.resets == s.history.resets {
      HandedOutStaysIntact(s, ops, p);
    }
  }

  // ----- The area tallies -----

  /** The cached area a step evicts by shrinking the capacities. */
  function ShrinkLoss(s: State, op: Op): (loss: int) {
    if op.Hint? then
      (Area(s.glyphs.entries) - Area(Step(s, op).glyphs.entries))
      + (Area(s.ligatures.entries) - Area(Step(s, op).ligatures.entries))
    else 0
  }

  /** How far a run takes the tallies from the truth, from where they stand: every shrink adds what
      it evicts, and a reset or a growth starts from nothing. */
  function Drift(s: State, ops: seq<Op>, gap: int): (d: int)
    decreases |ops|
  {
    if ops == [] then gap
    else Drift(Step(s, ops[0]), ops[1..], StepDrift(s, ops[0], gap))
  }

  function StepDrift(s: State, op: Op, gap: int): (d: int) {
    if Step(s, op).history.resets == s.history.resets then gap + ShrinkLoss(s, op) else 0
  }

  /** No step of the run evicts any area through a capacity shrink. */
  predicate LosesNothing(s: State, ops: seq<Op>)
    decreases |ops|
  {
    ops == [] || (ShrinkLoss(s, ops[0]) == 0 && LosesNothing(Step(s, ops[0]), ops[1..]))
  }

  /** The tallies are exact in every state of the run. */
  predicate StaysExact(s: State, ops: seq<Op>)
    decreases |ops|
  {
    Overstated(s) == 0 && (ops == [] || StaysExact(Step(s, ops[0]), ops[1..]))
  }

  /** The step moves the tallies away from the truth by exactly the area it evicts through a
      capacity shrink; a reset or a growth makes them exact again. */
  predicate DriftsByLoss(s: State, op: Op) {
    ShrinkLoss(s, op) >= 0 && Overstated(Step(s, op)) == StepDrift(s, op, Overstated(s))
  }

  lemma StepOverstates(s: State, op: Op)
    requires Inv(s)
    ensures DriftsByLoss(s, op)
  {
    match op
    case Draw(key, bitmap) => DrawOverstates(s, key, bitmap);
    case Hint(w, h) => HintOverstates(s, w, h);
    case BeginFrame => BeginOverstates(s);
    case Enlarge(blank) => EnlargeOverstates(s, blank);
  }

  lemma BeginOverstates(s: State)
    ensures DriftsByLoss(s, BeginFrame)
  {
  }

  lemma EnlargeOverstates(s: State, blank: Texture)
    ensures DriftsByLoss(s, Enlarge(blank))
  {
  }

  lemma DrawOverstates(s: State, key: AtlasKey, bitmap: Bitmap)
    requires Inv(s)
    ensures DriftsByLoss(s, Draw(key, bitmap))
  {
    if Cached(s, key) {
      PromoteArea(CacheFor(s, key).entries, Find(CacheFor(s, key).entries, key));
    } else {
      RoomCaches(s, bitmap);
      UploadFrame(MakeRoom(s, bitmap), key, bitmap);
      UploadTallies(MakeRoom(s, bitmap), key, bitmap);
    }
  }

  lemma HintOverstates(s: State, cellW: nat, cellH: nat)
    requires Inv(s)
    ensures DriftsByLoss(s, Hint(cellW, cellH))
  {
    ResizeOverstates(s, UpdateCapacityHint(s, cellW, cellH), LruCapFromCell(s.size, cellW, cellH));
  }

  lemma ResizeOverstates(s: State, n: State, cap: nat)
    requires CacheInv(s) && cap >= 1
    requires n.glyphs == Resize(s.glyphs, cap) && n.ligatures == Resize(s.ligatures, cap)
    requires n.glyphArea == s.glyphArea && n.ligatureArea == s.ligatureArea
    ensures Area(n.glyphs.entries) <= Area(s.glyphs.entries) && Area(n.ligatures.entries) <= Area(s.ligatures.entries)
    ensures Overstated(n) == Overstated(s) + (Area(s.glyphs.entries) - Area(n.glyphs.entries))
                                           + (Area(s.ligatures.entries) - Area(n.ligatures.entries))
  {
    ResizeSpec(s.glyphs, cap);
    ResizeSpec(s.ligatures, cap);
  }

  /** Making room leaves the caches and the tallies alone, or empties them all. */
  lemma RoomCaches(s: State, bitmap: Bitmap)
    requires CacheInv(s) && TallyInv(s)
    ensures var room := MakeRoom(s, bitmap);
            && CacheInv(room) && TallyInv(room) && room.areaBudget == s.areaBudget
            && (if room.history.resets == s.history.resets
                then room.glyphs == s.glyphs && room.ligatures == s.ligatures && Overstated(room) == Overstated(s)
                else room.glyphs.entries == [] && room.ligatures.entries == [] && Overstated(room) == 0)
  {
  }

  /** Over every run, resets and growth included, the tallies never understate, and overstate by
      exactly the area that capacity shrinks evicted since the last reset. */
  lemma {:induction false} TallyOverRun(s: State, ops: seq<Op>)
    requires Inv(s) && LegalRun(s, ops)
    ensures Overstated(Run(s, ops)) == Drift(s, ops, Overstated(s)) >= 0
    decreases |ops|
  {
    if ops == [] {
      NeverUnderstates(s);
    } else {
      StepInv(s, ops[0]);
      StepOverstates(s, ops[0]);
      TallyOverRun(Step(s, ops[0]), ops[1..]);
    }
  }

  lemma NeverUnderstates(s: State)
    requires TallyInv(s)
    ensures Overstated(s) >= 0
  {
  }

  /** From exact tallies they are exact in every state of a run if and only if no capacity shrink
      evicts any area. */
  lemma {:induction false} ExactIffNothingLost(s: State, ops: seq<Op>)
    requires Inv(s) && LegalRun(s, ops) && Overstated(s) == 0
    ensures StaysExact(s, ops) <==> LosesNothing(s, ops)
    decreases |ops|
  {
    if ops != [] {
      var n := Step(s, ops[0]);
      StepInv(s, ops[0]);
      StepOverstates(s, ops[0]);
      ShrinkResetsNothing(s, ops[0]);
      if Overstated(n) == 0 {
        ExactIffNothingLost(n, ops[1..]);
      }
    }
  }

  lemma ShrinkResetsNothing(s: State, op: Op)
    ensures ShrinkLoss(s, op) != 0 ==> Step(s, op).history.resets == s.history.resets
  {
  }

  // ----- A tally made inexact -----

  function Dot(i: nat): (key: AtlasKey) {
    Glyph(GlyphKey('.', false, false, false, Chrome, i))
  }

  const DOT := Bitmap(1, 1, [Texel(255, 255, 255, 255)])

  function Dots(n: nat): (ops: seq<Op>) {
    if n == 0 then [] else Dots(n - 1) + [Draw(Dot(n - 1), DOT)]
  }

  lemma {:induction false} RunSnoc(s: State, ops: seq<Op>, op: Op)
    ensures Run(s, ops + [op]) == Step(Run(s, ops), op)
    ensures LegalRun(s, ops + [op]) <==> LegalRun(s, ops) && Legal(Run(s, ops), op)
    decreases |ops|
  {
    if ops == [] {
      assert [op][1..] == [] && [] + [op] == [op];
    } else {
      assert (ops + [op])[1..] == ops[1..] + [op];
      RunSnoc(Step(s, ops[0]), ops[1..], op);
    }
  }

  /** One shelf of dots: all cached, one texel each, nothing reset or evicted. */
  ghost predicate Dotted(s: State, n: nat) {
    && s.size == 1024 && s.cursorX == 2 * n && s.cursorY == 0 && s.rowHeight <= 1
    && s.glyphs.cap == 16384 && |s.glyphs.entries| == n && s.ligatures.entries == []
    && s.glyphArea == n && s.ligatureArea == 0 && s.areaBudget > 1000
    && forall i :: 0 <= i < n ==> s.glyphs.entries[i].key == Dot(i) && RectArea(s.glyphs.entries[i].rect) == 1
  }

  lemma {:induction false} FindNone(es: seq<Entry<AtlasKey>>, key: AtlasKey)
    requires forall i :: 0 <= i < |es| ==> es[i].key != key
    ensures Find(es, key) == |es|
  {
    if es != [] {
      FindNone(es[1..], key);
    }
  }

  lemma DotDrawn(s: State, n: nat)
    requires Dotted(s, n) && n < 300
    ensures var t := GetOrInsert(s, Dot(n), DOT).0; Dotted(t, n + 1)
  {
    FindNone(s.glyphs.entries, Dot(n));
    assert Product(1, 1) == 1 + Product(1, 0) == 1;
    assert !Cached(s, Dot(n));
    var rect := GlyphRect(2 * n, 0, 1, 1);
    assert MakeRoom(s, DOT) == s;
    assert Push(s.glyphs, Dot(n), rect) == (s.glyphs.(entries := s.glyphs.entries + [Entry(Dot(n), rect)]), None);
  }

  lemma {:induction false} DotsDrawn(s: State, n: nat)
    requires n <= 300 && Dotted(s, 0)
    ensures LegalRun(s, Dots(n)) && Dotted(Run(s, Dots(n)), n)
  {
    if n > 0 {
      DotsDrawn(s, n - 1);
      RunSnoc(s, Dots(n - 1), Draw(Dot(n - 1), DOT));
      DotDrawn(Run(s, Dots(n - 1)), n - 1);
      assert DOT.WellFormed() by {
        assert Product(1, 1) == 1 + Product(1, 0) == 1;
      }
    }
  }

  lemma {:induction false} DottedArea(es: seq<Entry<AtlasKey>>)
    requires forall i :: 0 <= i < |es| ==> RectArea(es[i].rect) == 1
    ensures Area(es) == |es|
  {
    if es != [] {
      DottedArea(es[1..]);
    }
  }

  lemma StartDotted(side: nat, blank: Texture)
    requires side == 1024
    ensures Dotted(NewWithConfig(side, blank), 0)
  {
    SquareIsProduct(side);
  }

  lemma CellsOf64(side: nat, cell: nat)
    requires side == 1024 && cell == 64
    ensures LruCapFromCell(side, cell, cell) == 256
  {
    SquareIsProduct(side);
    ProductIsMultiplication(cell, cell);
    QuotientSpec(SaturatingSub(Square(side), ICON_RESERVED_AREA), Product(cell, cell));
  }

  /** 257 dots in an atlas of side 1024, then cells of 64 by 64: the capacity falls to
      256, one dot is dropped, and the tally still counts it. */
  lemma ShrinkLeavesTallyInexact(side: nat, cell: nat, blank: Texture)
    requires side == 1024 && cell == 64
    ensures var s, ops := NewWithConfig(side, blank), Dots(257) + [Hint(cell, cell)];
            && LegalRun(s, ops)
            && Run(s, ops).glyphArea == 257 && Area(Run(s, ops).glyphs.entries) == 256
  {
    var s := NewWithConfig(side, blank);
    var before := Run(s, Dots(257));
    StartDotted(side, blank);
    DotsDrawn(s, 257);
    RunSnoc(s, Dots(257), Hint(cell, cell));
    CellsOf64(side, cell);
    var after := Run(s, Dots(257) + [Hint(cell, cell)]);
    assert after.glyphs.entries == before.glyphs.entries[1..];
    DottedArea(after.glyphs.entries);
  }
}
