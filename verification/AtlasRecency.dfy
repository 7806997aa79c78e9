/**
 The order of the two caches over whole runs: by when each key was last drawn.
 */
module AtlasRecency {
  import opened Wrappers
  import opened LruCache
  import opened AtlasModel
  import opened AtlasRuns

  /** The last operation that draws `key`, or -1 when none does. */
  function LastDraw(ops: seq<Op>, key: AtlasKey): (i: int)
    ensures -1 <= i < |ops|
    ensures i >= 0 ==> ops[i].Draw? && ops[i].key == key
    ensures forall j :: i < j < |ops| && ops[j].Draw? ==> ops[j].key != key
  {
    if ops == [] then -1
    else
      var last := |ops| - 1;
      if ops[last].Draw? && ops[last].key == key then last
      else
        var i := LastDraw(ops[..last], key);
        assert forall j :: 0 <= j < last ==> ops[..last][j] == ops[j];
        i
  }

  /** Every entry was drawn, and each was last drawn before the entries after it. */
  ghost predicate InDrawOrder(es: seq<Entry<AtlasKey>>, ops: seq<Op>) {
    && (forall i :: 0 <= i < |es| ==> LastDraw(ops, KeyAt(es, i)) >= 0)
    && (forall i, j :: 0 <= i < j < |es| ==> LastDraw(ops, KeyAt(es, i)) < LastDraw(ops, KeyAt(es, j)))
  }

  lemma LastDrawSnoc(ops: seq<Op>, op: Op, key: AtlasKey)
    ensures LastDraw(ops + [op], key) == if op.Draw? && op.key == key then |ops| else LastDraw(ops, key)
  {
    assert (ops + [op])[..|ops|] == ops;
  }

  // ----- Orders that are kept -----

  lemma {:induction false} SuffixInOrder(es: seq<Entry<AtlasKey>>, k: nat, ops: seq<Op>)
    requires k <= |es| && InDrawOrder(es, ops)
    ensures InDrawOrder(es[k..], ops)
  {
    assert forall i :: 0 <= i < |es| - k ==> KeyAt(es[k..], i) == KeyAt(es, k + i);
  }

  lemma {:induction false} OthersInOrder(es: seq<Entry<AtlasKey>>, i: nat, ops: seq<Op>)
    requires i < |es| && InDrawOrder(es, ops)
    ensures InDrawOrder(es[..i] + es[i + 1..], ops)
    ensures var others := es[..i] + es[i + 1..];
            forall j :: 0 <= j < |others| ==> KeyAt(others, j) != KeyAt(es, i)
  {
    var others := es[..i] + es[i + 1..];
    assert forall j :: 0 <= j < |others| ==> KeyAt(others, j) == KeyAt(es, if j < i then j else j + 1);
  }

  /** An operation that draws none of these keys does not change their order. */
  lemma {:induction false} StaysInOrder(es: seq<Entry<AtlasKey>>, ops: seq<Op>, op: Op)
    requires InDrawOrder(es, ops)
    requires op.Draw? ==> forall i :: 0 <= i < |es| ==> KeyAt(es, i) != op.key
    ensures InDrawOrder(es, ops + [op])
  {
    forall i | 0 <= i < |es|
      ensures LastDraw(ops + [op], KeyAt(es, i)) == LastDraw(ops, KeyAt(es, i))
    {
      LastDrawSnoc(ops, op, KeyAt(es, i));
    }
  }

  /** The key just drawn belongs at the recent end. */
  lemma {:induction false} NewestInOrder(es: seq<Entry<AtlasKey>>, ops: seq<Op>, op: Op, rect: GlyphRect)
    requires InDrawOrder(es, ops) && op.Draw?
    requires forall i :: 0 <= i < |es| ==> KeyAt(es, i) != op.key
    ensures InDrawOrder(es + [Entry(op.key, rect)], ops + [op])
  {
    var all := es + [Entry(op.key, rect)];
    StaysInOrder(es, ops, op);
    LastDrawSnoc(ops, op, op.key);
    forall i | 0 <= i < |es|
      ensures KeyAt(all, i) == KeyAt(es, i) && LastDraw(ops + [op], KeyAt(es, i)) < |ops|
    {
      LastDrawSnoc(ops, op, KeyAt(es, i));
    }
    assert KeyAt(all, |es|) == op.key;
  }

  // ----- What is dropped -----

  predicate HasKey(es: seq<Entry<AtlasKey>>, key: AtlasKey) {
    Find(es, key) < |es|
  }

  lemma {:induction false} Absent(es: seq<Entry<AtlasKey>>, key: AtlasKey)
    requires forall i :: 0 <= i < |es| ==> KeyAt(es, i) != key
    ensures !HasKey(es, key)
  {
    assert Find(es, key) == |es| || KeyAt(es, Find(es, key)) == key;
  }

  /** Whatever survives, all that came after it survives too, and so does the key drawn; only that
      key can be new. */
  ghost predicate KeepsRecent(before: seq<Entry<AtlasKey>>, after: seq<Entry<AtlasKey>>, op: Op) {
    && (forall i, j :: 0 <= i < j < |before| && HasKey(after, KeyAt(before, i)) ==> HasKey(after, KeyAt(before, j)))
    && (forall k :: 0 <= k < |after| ==> HasKey(before, KeyAt(after, k)) || (op.Draw? && KeyAt(after, k) == op.key))
    && (op.Draw? && HasKey(before, op.key) ==> HasKey(after, op.key))
  }

  lemma HasKeyAt(es: seq<Entry<AtlasKey>>, i: nat)
    requires i < |es|
    ensures HasKey(es, KeyAt(es, i))
  {
  }

  lemma {:induction false} SuffixKeepsRecent(es: seq<Entry<AtlasKey>>, k: nat, ops: seq<Op>, op: Op)
    requires k <= |es| && InDrawOrder(es, ops)
    requires op.Draw? ==> !HasKey(es, op.key)
    ensures KeepsRecent(es, es[k..], op)
  {
    var kept := es[k..];
    forall i | 0 <= i < |kept|
      ensures KeyAt(kept, i) == KeyAt(es, k + i) && HasKey(es, KeyAt(kept, i)) && HasKey(kept, KeyAt(es, k + i))
    {
      HasKeyAt(es, k + i);
      HasKeyAt(kept, i);
    }
    forall i, j | 0 <= i < j < |es| && HasKey(kept, KeyAt(es, i))
      ensures HasKey(kept, KeyAt(es, j))
    {
      var at := Find(kept, KeyAt(es, i));
      assert KeyAt(es, k + at) == KeyAt(es, i);
      assert KeyAt(kept, j - k) == KeyAt(es, j);
    }
  }

  lemma {:induction false} NewestKeepsRecent(es: seq<Entry<AtlasKey>>, kept: seq<Entry<AtlasKey>>, op: Op,
                                             rect: GlyphRect)
    requires KeepsRecent(es, kept, op) && op.Draw?
    requires forall i :: 0 <= i < |es| ==> KeyAt(es, i) != op.key
    ensures KeepsRecent(es, kept + [Entry(op.key, rect)], op)
  {
    var all := kept + [Entry(op.key, rect)];
    forall k | 0 <= k < |kept|
      ensures KeyAt(all, k) == KeyAt(kept, k) && HasKey(all, KeyAt(kept, k))
    {
      HasKeyAt(all, k);
    }
    assert KeyAt(all, |kept|) == op.key;
    forall i | 0 <= i < |es|
      ensures HasKey(all, KeyAt(es, i)) == HasKey(kept, KeyAt(es, i))
    {
      if HasKey(all, KeyAt(es, i)) {
        assert KeyAt(all, Find(all, KeyAt(es, i))) == KeyAt(es, i);
        HasKeyAt(kept, Find(all, KeyAt(es, i)));
      } else if HasKey(kept, KeyAt(es, i)) {
        HasKeyAt(all, Find(kept, KeyAt(es, i)));
      }
    }
  }

  // ----- One step of one cache -----

  /** The cache `after` a step is in order, and only less recent entries were dropped. */
  ghost predicate Ages(before: seq<Entry<AtlasKey>>, after: seq<Entry<AtlasKey>>, ops: seq<Op>, op: Op) {
    InDrawOrder(after, ops + [op]) && KeepsRecent(before, after, op)
  }

  lemma {:induction false} SuffixAges(es: seq<Entry<AtlasKey>>, k: nat, ops: seq<Op>, op: Op)
    requires k <= |es| && InDrawOrder(es, ops)
    requires op.Draw? ==> forall i :: 0 <= i < |es| ==> KeyAt(es, i) != op.key
    ensures Ages(es, es[k..], ops, op)
  {
    if op.Draw? {
      Absent(es, op.key);
    }
    SuffixKeepsRecent(es, k, ops, op);
    StaysInOrder(es, ops, op);
    SuffixInOrder(es, k, ops + [op]);
  }

  lemma {:induction false} HitAges(es: seq<Entry<AtlasKey>>, i: nat, ops: seq<Op>, op: Op)
    requires i < |es| && InDrawOrder(es, ops) && op.Draw? && KeyAt(es, i) == op.key
    ensures Ages(es, Promote(es, i), ops, op)
  {
    var r := Promote(es, i);
    OthersInOrder(es, i, ops);
    assert es[i] == Entry(op.key, es[i].rect);
    NewestInOrder(es[..i] + es[i + 1..], ops, op, es[i].rect);
    forall j | 0 <= j < |es|
      ensures HasKey(r, KeyAt(es, j)) && HasKey(es, KeyAt(r, j))
    {
      HasKeyAt(r, if j < i then j else if j == i then |es| - 1 else j - 1);
      HasKeyAt(es, if j < i then j else if j == |es| - 1 then i else j + 1);
    }
  }

  lemma {:induction false} MissAges(es: seq<Entry<AtlasKey>>, k: nat, ops: seq<Op>, op: Op, rect: GlyphRect)
    requires k <= |es| && InDrawOrder(es, ops) && op.Draw?
    requires forall i :: 0 <= i < |es| ==> KeyAt(es, i) != op.key
    ensures Ages(es, es[k..] + [Entry(op.key, rect)], ops, op)
  {
    Absent(es, op.key);
    assert forall i :: 0 <= i < |es| - k ==> KeyAt(es[k..], i) == KeyAt(es, k + i);
    SuffixInOrder(es, k, ops);
    NewestInOrder(es[k..], ops, op, rect);
    SuffixKeepsRecent(es, k, ops, op);
    NewestKeepsRecent(es, es[k..], op, rect);
  }

  // ----- One step of the atlas -----

  /** Both caches hold keys of their own kind, in the order of their last draws. */
  ghost predicate CachesInOrder(s: State, ops: seq<Op>) {
    && InDrawOrder(s.glyphs.entries, ops) && InDrawOrder(s.ligatures.entries, ops)
    && (forall i :: 0 <= i < |s.glyphs.entries| ==> KeyAt(s.glyphs.entries, i).Glyph?)
    && (forall i :: 0 <= i < |s.ligatures.entries| ==> KeyAt(s.ligatures.entries, i).Ligature?)
  }

  ghost predicate CachesAge(s: State, n: State, ops: seq<Op>, op: Op) {
    Ages(s.glyphs.entries, n.glyphs.entries, ops, op) && Ages(s.ligatures.entries, n.ligatures.entries, ops, op)
  }

  lemma {:induction false} AdmitSuffix(c: Lru<AtlasKey>, area: nat, budget: nat, key: AtlasKey, rect: GlyphRect)
    requires Find(c.entries, key) == |c.entries|
    ensures var n, es := Admit(c, area, budget, key, rect).0.entries, c.entries;
            1 <= |n| <= |es| + 1 && n == es[|es| + 1 - |n|..] + [Entry(key, rect)]
  {
    var pushed := Push(c, key, rect).0.entries;
    TrimSuffix(pushed, AdmitStart(c, area, key, rect), budget);
    DropOfAppend(c.entries, |c.entries| + 1 - |pushed|, Entry(key, rect),
                 |pushed| - |Admit(c, area, budget, key, rect).0.entries|);
  }

  /** Making room keeps both caches or empties them. */
  lemma {:induction false} RoomKeepsOrEmpties(s: State, bitmap: Bitmap)
    ensures var room := MakeRoom(s, bitmap);
            || (room.glyphs.entries == s.glyphs.entries && room.ligatures.entries == s.ligatures.entries)
            || (room.glyphs.entries == [] && room.ligatures.entries == [])
  {
  }

  /** A most recent part of the entries, and a new one. */
  ghost predicate Appends(before: seq<Entry<AtlasKey>>, after: seq<Entry<AtlasKey>>, last: Entry<AtlasKey>) {
    1 <= |after| <= |before| + 1 && after == before[|before| + 1 - |after|..] + [last]
  }

  lemma {:induction false} UploadAppends(room: State, key: AtlasKey, bitmap: Bitmap)
    requires !Cached(room, key)
    ensures Appends(CacheFor(room, key).entries, CacheFor(Upload(room, key, bitmap), key).entries,
                    Entry(key, RectAtCursor(room, bitmap)))
  {
    UploadAdmits(room, key, bitmap);
    AdmitSuffix(CacheFor(room, key), TallyFor(room, key), room.areaBudget, key, RectAtCursor(room, bitmap));
  }

  lemma {:induction false} AppendsToEmptied(before: seq<Entry<AtlasKey>>, after: seq<Entry<AtlasKey>>,
                                            last: Entry<AtlasKey>)
    requires Appends([], after, last)
    ensures Appends(before, after, last)
  {
    assert |after| == 1 && after[0] == last;
    var n := |before|;
    assert before[n..] == [] && [] + [last] == after;
  }

  /** What a miss leaves in the cache it draws into. */
  lemma {:induction false} MissAppends(s: State, key: AtlasKey, bitmap: Bitmap)
    requires !Cached(s, key)
    ensures Appends(CacheFor(s, key).entries, CacheFor(GetOrInsert(s, key, bitmap).0, key).entries,
                    Entry(key, GetOrInsert(s, key, bitmap).1))
  {
    var room := MakeRoom(s, bitmap);
    RoomKeepsOrEmpties(s, bitmap);
    MissKeepsKey(s, key, bitmap);
    UploadAppends(room, key, bitmap);
    if CacheFor(room, key).entries == [] {
      AppendsToEmptied(CacheFor(s, key).entries, CacheFor(Upload(room, key, bitmap), key).entries,
                       Entry(key, RectAtCursor(room, bitmap)));
    }
  }

  /** And in the other cache. */
  lemma {:induction false} MissSpares(s: State, key: AtlasKey, bitmap: Bitmap)
    requires !Cached(s, key)
    ensures var n := GetOrInsert(s, key, bitmap).0;
            && (key.Glyph? ==> n.ligatures.entries == s.ligatures.entries || n.ligatures.entries == [])
            && (key.Ligature? ==> n.glyphs.entries == s.glyphs.entries || n.glyphs.entries == [])
  {
    RoomKeepsOrEmpties(s, bitmap);
    UploadAdmits(MakeRoom(s, bitmap), key, bitmap);
  }

  /** A cache the step does not draw into: it stays, or loses its least recent entries. */
  lemma {:induction false} OtherAges(es: seq<Entry<AtlasKey>>, after: seq<Entry<AtlasKey>>, ops: seq<Op>, op: Op)
    requires InDrawOrder(es, ops) && (after == es || after == [])
    requires op.Draw? ==> forall i :: 0 <= i < |es| ==> KeyAt(es, i) != op.key
    ensures Ages(es, after, ops, op)
  {
    assert es[0..] == es && es[|es|..] == [];
    SuffixAges(es, if after == es then 0 else |es|, ops, op);
  }

  lemma {:induction false} OwnCacheAges(s: State, ops: seq<Op>, op: Op)
    requires op.Draw? && InDrawOrder(CacheFor(s, op.key).entries, ops)
    ensures Ages(CacheFor(s, op.key).entries, CacheFor(Step(s, op), op.key).entries, ops, op)
  {
    var es, after := CacheFor(s, op.key).entries, CacheFor(Step(s, op), op.key).entries;
    if Cached(s, op.key) {
      HitAges(es, Find(es, op.key), ops, op);
    } else {
      MissAppends(s, op.key, op.bitmap);
      MissAges(es, |es| + 1 - |after|, ops, op, GetOrInsert(s, op.key, op.bitmap).1);
    }
  }

  lemma {:induction false} DrawAges(s: State, ops: seq<Op>, op: Op)
    requires CachesInOrder(s, ops) && op.Draw?
    ensures CachesAge(s, Step(s, op), ops, op)
  {
    OwnCacheAges(s, ops, op);
    if !Cached(s, op.key) {
      MissSpares(s, op.key, op.bitmap);
    }
    if op.key.Glyph? {
      OtherAges(s.ligatures.entries, Step(s, op).ligatures.entries, ops, op);
    } else {
      OtherAges(s.glyphs.entries, Step(s, op).glyphs.entries, ops, op);
    }
  }

  lemma {:induction false} StepAges(s: State, ops: seq<Op>, op: Op)
    requires CachesInOrder(s, ops)
    ensures CachesAge(s, Step(s, op), ops, op)
  {
    var n := Step(s, op);
    if op.Draw? {
      DrawAges(s, ops, op);
    } else if op.Hint? {
      var cap := LruCapFromCell(s.size, op.cellW, op.cellH);
      SuffixAges(s.glyphs.entries, SaturatingSub(|s.glyphs.entries|, cap), ops, op);
      SuffixAges(s.ligatures.entries, SaturatingSub(|s.ligatures.entries|, cap), ops, op);
    } else {
      assert op.Enlarge? ==> n.glyphs.entries == [] && n.ligatures.entries == [];
      OtherAges(s.glyphs.entries, n.glyphs.entries, ops, op);
      OtherAges(s.ligatures.entries, n.ligatures.entries, ops, op);
    }
  }

  lemma {:induction false} KindsStay(before: seq<Entry<AtlasKey>>, after: seq<Entry<AtlasKey>>, op: Op, glyph: bool)
    requires KeepsRecent(before, after, op)
    requires forall i :: 0 <= i < |before| ==> KeyAt(before, i).Glyph? == glyph
    requires op.Draw? && op.key.Glyph? != glyph ==> after == before || after == []
    ensures forall i :: 0 <= i < |after| ==> KeyAt(after, i).Glyph? == glyph
  {
    forall i | 0 <= i < |after| && HasKey(before, KeyAt(after, i))
      ensures KeyAt(after, i).Glyph? == glyph
    {
      assert KeyAt(before, Find(before, KeyAt(after, i))) == KeyAt(after, i);
    }
  }

  lemma {:induction false} StepInOrder(s: State, ops: seq<Op>, op: Op)
    requires CachesInOrder(s, ops)
    ensures CachesInOrder(Step(s, op), ops + [op])
  {
    var n := Step(s, op);
    StepAges(s, ops, op);
    if op.Draw? && !Cached(s, op.key) {
      MissSpares(s, op.key, op.bitmap);
    }
    KindsStay(s.glyphs.entries, n.glyphs.entries, op, true);
    KindsStay(s.ligatures.entries, n.ligatures.entries, op, false);
  }

  // ----- Over whole runs -----

  /** In every state reached from a newly configured atlas, each cache lists its keys in the order
      in which they were last drawn. */
  lemma {:induction false} CachesAreInDrawOrder(atlasSize: nat, blank: Texture, ops: seq<Op>)
    ensures CachesInOrder(Run(NewWithConfig(atlasSize, blank), ops), ops)
    decreases |ops|
  {
    var s := NewWithConfig(atlasSize, blank);
    if ops != [] {
      var front, op := ops[..|ops| - 1], ops[|ops| - 1];
      assert ops == front + [op];
      CachesAreInDrawOrder(atlasSize, blank, front);
      RunSnoc(s, front, op);
      StepInOrder(Run(s, front), front, op);
    }
  }

  /** Whatever the next operation, a key it drops from a cache was last drawn before every key it
      leaves there. */
  lemma {:induction false} DroppedBeforeKept(atlasSize: nat, blank: Texture, ops: seq<Op>, op: Op,
                                             gone: AtlasKey, kept: AtlasKey)
    requires var s := Run(NewWithConfig(atlasSize, blank), ops);
             && Cached(s, gone) && !Cached(Step(s, op), gone)
             && Cached(Step(s, op), kept) && kept.Glyph? == gone.Glyph?
    ensures LastDraw(ops + [op], gone) < LastDraw(ops + [op], kept)
  {
    var s := Run(NewWithConfig(atlasSize, blank), ops);
    CachesAreInDrawOrder(atlasSize, blank, ops);
    StepAges(s, ops, op);
    AgedKeys(CacheFor(s, gone).entries, CacheFor(Step(s, op), gone).entries, ops, op, gone, kept);
  }

  lemma {:induction false} AgedKeys(before: seq<Entry<AtlasKey>>, after: seq<Entry<AtlasKey>>, ops: seq<Op>, op: Op,
                                    gone: AtlasKey, kept: AtlasKey)
    requires InDrawOrder(before, ops) && Ages(before, after, ops, op)
    requires HasKey(before, gone) && !HasKey(after, gone) && HasKey(after, kept)
    ensures LastDraw(ops + [op], gone) < LastDraw(ops + [op], kept)
  {
    LastDrawSnoc(ops, op, gone);
    LastDrawSnoc(ops, op, kept);
    assert KeyAt(after, Find(after, kept)) == kept && KeyAt(before, Find(before, gone)) == gone;
    if op.Draw? && kept == op.key {
      assert KeepsRecent(before, after, op);
    } else {
      assert KeyAt(before, Find(before, kept)) == kept;
    }
  }
}
