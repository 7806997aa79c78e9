/**
 The least-recently-used cache behind the glyph atlas, and the insertion that
 bounds it by pixel area as well as by entry count.
 */
module LruCache {
  import opened Wrappers

  /** A rectangle of the atlas, by its integer pixel origin. */
  datatype GlyphRect = GlyphRect(x: nat, y: nat, width: nat, height: nat)

  function RectArea(r: GlyphRect): (a: nat) {
    Product(r.width, r.height)
  }

  lemma RectAreaIsProduct(r: GlyphRect)
    ensures RectArea(r) == r.width * r.height
  {
    ProductIsMultiplication(r.width, r.height);
  }

  datatype Entry<K> = Entry(key: K, rect: GlyphRect)

  /** `entries` lists the least recently used entry first. */
  datatype Lru<K(==)> = Lru(cap: nat, entries: seq<Entry<K>>) {

    ghost predicate Valid() {
      1 <= cap && |entries| <= cap && DistinctKeys(entries)
    }
  }

  function KeyAt<K>(es: seq<Entry<K>>, i: nat): (k: K)
    requires i < |es|
  {
    es[i].key
  }

  ghost predicate DistinctKeys<K>(es: seq<Entry<K>>) {
    forall i, j :: 0 <= i < j < |es| ==> KeyAt(es, i) != KeyAt(es, j)
  }

  /** Sum of the pixel areas of the entries. */
  function Area<K>(es: seq<Entry<K>>): (a: nat) {
    if es == [] then 0 else RectArea(es[0].rect) + Area(es[1..])
  }

  lemma {:induction false} AreaConcat<K>(a: seq<Entry<K>>, b: seq<Entry<K>>)
    ensures Area(a + b) == Area(a) + Area(b)
  {
    if a == [] {
      assert a + b == b;
    } else {
      assert (a + b)[1..] == a[1..] + b;
      AreaConcat(a[1..], b);
    }
  }

  lemma AreaWithout<K>(es: seq<Entry<K>>, i: nat)
    requires i < |es|
    ensures Area(es) == Area(es[..i] + es[i + 1..]) + RectArea(es[i].rect)
  {
    var front, back := es[..i], es[i..];
    assert es == front + back;
    AreaConcat(front, back);
    AreaConcat(front, es[i + 1..]);
    assert back[1..] == es[i + 1..];
  }

  /** Position of `key`, or `|es|` when it is absent. */
  function Find<K(==)>(es: seq<Entry<K>>, key: K): (i: nat)
    ensures i <= |es|
    ensures i < |es| ==> es[i].key == key
    ensures forall j :: 0 <= j < i ==> es[j].key != key
  {
    if es == [] then 0
    else if es[0].key == key then 0
    else
      var i := Find(es[1..], key);
      assert forall j :: 0 < j < i + 1 ==> es[j] == es[1..][j - 1];
      i + 1
  }

  /** Entries with position `i` moved to the most recent end. */
  function Promote<K>(es: seq<Entry<K>>, i: nat): (r: seq<Entry<K>>)
    requires i < |es|
  {
    es[..i] + es[i + 1..] + [es[i]]
  }

  /** Add an entry as the most recent one. The second result is what was displaced:
      the old entry of the same key, or the least recent entry of a full cache. */
  function Push<K(==)>(c: Lru<K>, key: K, rect: GlyphRect): (r: (Lru<K>, Option<Entry<K>>)) {
    var i := Find(c.entries, key);
    if i < |c.entries| then
      (c.(entries := c.entries[..i] + c.entries[i + 1..] + [Entry(key, rect)]), Some(c.entries[i]))
    else if c.entries != [] && |c.entries| >= c.cap then
      (c.(entries := c.entries[1..] + [Entry(key, rect)]), Some(c.entries[0]))
    else
      (c.(entries := c.entries + [Entry(key, rect)]), None)
  }

  /** Change the capacity, dropping the least recent entries that no longer fit. */
  function Resize<K(==)>(c: Lru<K>, cap: nat): (r: Lru<K>) {
    Lru(cap, c.entries[SaturatingSub(|c.entries|, cap)..])
  }

  /** Drop least recent entries until the tally meets the budget or one entry is left. */
  function Trim<K>(es: seq<Entry<K>>, area: nat, budget: nat): (r: (seq<Entry<K>>, nat)) {
    if area > budget && |es| > 1
    then Trim(es[1..], SaturatingSub(area, RectArea(es[0].rect)), budget)
    else (es, area)
  }

  /** The tally once the displaced entry is given back and the new one charged. */
  function AdmitStart<K(==)>(c: Lru<K>, area: nat, key: K, rect: GlyphRect): (tally: nat) {
    var displaced := Push(c, key, rect).1;
    (if displaced.Some? then SaturatingSub(area, RectArea(displaced.value.rect)) else area) + RectArea(rect)
  }

  /** Push followed by the eviction loop: the new cache and the new tally. */
  function Admit<K(==)>(c: Lru<K>, area: nat, budget: nat, key: K, rect: GlyphRect): (r: (Lru<K>, nat)) {
    var pushed := Push(c, key, rect).0;
    var (kept, tally) := Trim(pushed.entries, AdmitStart(c, area, key, rect), budget);
    (pushed.(entries := kept), tally)
  }

  /** The eviction loop run on the pushed cache. */
  method InsertWithAreaBudget<K(==)>(c: Lru<K>, area: nat, budget: nat, key: K, rect: GlyphRect)
    returns (cache: Lru<K>, tally: nat)
    ensures (cache, tally) == Admit(c, area, budget, key, rect)
  {
    var pushed, displaced := Push(c, key, rect).0, Push(c, key, rect).1;
    tally := area;
    if displaced.Some? {
      tally := SaturatingSub(tally, RectArea(displaced.value.rect));
    }
    tally := tally + RectArea(rect);
    cache := pushed;
    ghost var goal := Trim(cache.entries, tally, budget);
    while tally > budget && |cache.entries| > 1
      invariant cache.cap == pushed.cap
      invariant Trim(cache.entries, tally, budget) == goal
      decreases |cache.entries|
    {
      var evicted := cache.entries[0];
      cache := cache.(entries := cache.entries[1..]);
      tally := SaturatingSub(tally, RectArea(evicted.rect));
    }
  }

  /**
   `kept` and `tally` are what trimming owes for `es` and `area`: a suffix, the tally moved by
   exactly the area dropped, the budget met or one entry left, and the budget broken had
   even one more entry been kept.
   */
  ghost predicate Trimmed<K>(es: seq<Entry<K>>, area: int, budget: nat, kept: seq<Entry<K>>, tally: nat) {
    var k := |es| - |kept|;
    && 0 <= k < |es|
    && kept == es[k..]
    && tally - Area(kept) == area - Area(es)
    && (tally <= budget || |kept| == 1)
    && (k > 0 ==> area - Area(es) + Area(es[k - 1..]) > budget)
  }

  lemma {:induction false} TrimSpec<K>(es: seq<Entry<K>>, area: nat, budget: nat)
    requires es != []
    requires area >= Area(es)
    ensures Trimmed(es, area, budget, Trim(es, area, budget).0, Trim(es, area, budget).1)
  {
    if area > budget && |es| > 1 {
      var rest := es[1..];
      var kept := Trim(es, area, budget).0;
      TrimSpec(rest, area - RectArea(es[0].rect), budget);
      var k := |es| - |kept|;
      assert es[k..] == rest[k - 1..];
      if k == 1 {
        assert es[0..] == es;
      } else {
        assert es[k - 1..] == rest[k - 2..];
      }
    } else {
      assert es[0..] == es;
    }
  }

  lemma DistinctPush<K>(es: seq<Entry<K>>, e: Entry<K>)
    requires DistinctKeys(es) && forall k :: 0 <= k < |es| ==> KeyAt(es, k) != e.key
    ensures DistinctKeys(es + [e])
  {
    assert forall k :: 0 <= k < |es| ==> KeyAt(es + [e], k) == KeyAt(es, k);
  }

  lemma PushValid<K>(c: Lru<K>, key: K, rect: GlyphRect)
    requires c.Valid()
    ensures var p := Push(c, key, rect).0;
            && p.Valid() && p.cap == c.cap
            && p.entries != [] && p.entries[|p.entries| - 1] == Entry(key, rect)
            && forall e :: e in p.entries ==> e == Entry(key, rect) || e in c.entries
  {
    var es, i := c.entries, Find(c.entries, key);
    if i < |es| {
      var others := es[..i] + es[i + 1..];
      assert forall k :: 0 <= k < |others| ==> KeyAt(others, k) == KeyAt(es, if k < i then k else k + 1);
      assert KeyAt(es, i) == key;
      DistinctPush(others, Entry(key, rect));
    } else {
      var kept := if |es| >= c.cap then es[1..] else es;
      assert |es| >= c.cap ==> forall k :: 0 <= k < |kept| ==> KeyAt(kept, k) == KeyAt(es, k + 1);
      DistinctPush(kept, Entry(key, rect));
    }
  }

  lemma PushArea<K>(c: Lru<K>, key: K, rect: GlyphRect)
    requires 1 <= c.cap
    ensures var (p, displaced) := Push(c, key, rect);
            var freed := if displaced.Some? then RectArea(displaced.value.rect) else 0;
            && freed <= Area(c.entries)
            && Area(p.entries) == Area(c.entries) - freed + RectArea(rect)
  {
    var es, i, last := c.entries, Find(c.entries, key), [Entry(key, rect)];
    assert last[1..] == [] && Area(last) == RectArea(rect);
    if i < |es| {
      AreaWithout(es, i);
      AreaConcat(es[..i] + es[i + 1..], last);
    } else if |es| >= c.cap {
      AreaConcat(es[1..], last);
    } else {
      AreaConcat(es, last);
    }
  }

  /**
   The area-bounded insertion, stated without its loop: the newest entry is cached, the
   survivors are exactly the most recently used entries of the pushed cache, the tally
   keeps its distance from the true footprint, the budget is met or one entry is left,
   and keeping even one more entry would have broken the budget.
   */
  lemma AdmitSpec<K>(c: Lru<K>, area: nat, budget: nat, key: K, rect: GlyphRect)
    requires 1 <= c.cap
    requires area >= Area(c.entries)
    ensures var (n, tally) := Admit(c, area, budget, key, rect);
            var pushed := Push(c, key, rect).0.entries;
            && tally - Area(n.entries) == area - Area(c.entries)
            && Trimmed(pushed, area - Area(c.entries) + Area(pushed), budget, n.entries, tally)
  {
    var p, start := Push(c, key, rect).0, AdmitStart(c, area, key, rect);
    PushArea(c, key, rect);
    assert start == area - Area(c.entries) + Area(p.entries);
    TrimSpec(p.entries, start, budget);
  }

  /** The tally keeps its distance from the true footprint. */
  lemma AdmitKeepsGap<K>(c: Lru<K>, area: nat, budget: nat, key: K, rect: GlyphRect)
    requires 1 <= c.cap && area >= Area(c.entries)
    ensures var (n, tally) := Admit(c, area, budget, key, rect);
            tally - Area(n.entries) == area - Area(c.entries)
  {
    AdmitSpec(c, area, budget, key, rect);
  }

  lemma {:induction false} TrimSuffix<K>(es: seq<Entry<K>>, area: nat, budget: nat)
    requires es != []
    ensures var kept := Trim(es, area, budget).0; 0 < |kept| <= |es| && kept == es[|es| - |kept|..]
  {
    if area > budget && |es| > 1 {
      TrimSuffix(es[1..], SaturatingSub(area, RectArea(es[0].rect)), budget);
    }
  }

  /** What is cached afterwards: the newest entry last, the rest cached before. */
  lemma AdmitValid<K>(c: Lru<K>, area: nat, budget: nat, key: K, rect: GlyphRect)
    requires c.Valid()
    ensures var n := Admit(c, area, budget, key, rect).0;
            && n.Valid() && n.entries != []
            && n.entries[|n.entries| - 1] == Entry(key, rect)
            && forall e :: e in n.entries ==> e == Entry(key, rect) || e in c.entries
  {
    PushValid(c, key, rect);
    TrimmedMembers(Push(c, key, rect).0.entries, AdmitStart(c, area, key, rect), budget);
  }

  lemma TrimmedMembers<K>(es: seq<Entry<K>>, area: nat, budget: nat)
    requires es != [] && DistinctKeys(es)
    ensures var kept := Trim(es, area, budget).0;
            && 0 < |kept| <= |es| && DistinctKeys(kept) && kept[|kept| - 1] == es[|es| - 1]
            && forall e :: e in kept ==> e in es
  {
    TrimSuffix(es, area, budget);
    SuffixMembers(es, |es| - |Trim(es, area, budget).0|);
  }

  lemma SuffixMembers<K>(es: seq<Entry<K>>, k: nat)
    requires k <= |es|
    requires DistinctKeys(es)
    ensures DistinctKeys(es[k..])
    ensures forall e :: e in es[k..] ==> e in es
  {
    assert forall i :: 0 <= i < |es| - k ==> KeyAt(es[k..], i) == KeyAt(es, k + i);
  }

  /** A hit only reorders: the same entries, the same footprint. */
  lemma PromoteSpec<K>(es: seq<Entry<K>>, i: nat)
    requires i < |es| && DistinctKeys(es)
    ensures var r := Promote(es, i);
            && DistinctKeys(r) && |r| == |es| && r[|es| - 1] == es[i]
            && forall e :: e in r <==> e in es
  {
    var r, last := Promote(es, i), |es| - 1;
    assert forall k :: 0 <= k < |r| ==> KeyAt(r, k) == KeyAt(es, if k < i then k else if k < last then k + 1 else i);
    assert es == es[..i] + [es[i]] + es[i + 1..];
  }

  /** Two entries that a hit does not touch stay in the order they were in. */
  lemma {:induction false} PromoteKeepsOrder<K>(es: seq<Entry<K>>, i: nat, k1: K, k2: K)
    requires i < |es| && DistinctKeys(es)
    requires Find(es, k1) < |es| && Find(es, k2) < |es|
    requires k1 != KeyAt(es, i) && k2 != KeyAt(es, i)
    ensures Find(Promote(es, i), k1) < Find(Promote(es, i), k2) <==> Find(es, k1) < Find(es, k2)
  {
    PromoteDistinct(es, i);
    FindPromoted(es, i, k1);
    FindPromoted(es, i, k2);
  }

  lemma {:induction false} PromoteDistinct<K>(es: seq<Entry<K>>, i: nat)
    requires i < |es| && DistinctKeys(es)
    ensures DistinctKeys(Promote(es, i))
  {
    PromoteSpec(es, i);
  }

  lemma {:induction false} FindPromoted<K>(es: seq<Entry<K>>, i: nat, key: K)
    requires i < |es| && DistinctKeys(Promote(es, i))
    requires Find(es, key) < |es| && key != KeyAt(es, i)
    ensures var at := Find(es, key); at != i && Find(Promote(es, i), key) == if at < i then at else at - 1
  {
    var at := Find(es, key);
    assert KeyAt(es, at) == key;
    var to := if at < i then at else at - 1;
    PromotedAt(es, i, to);
    FindAt(Promote(es, i), to, key);
  }

  lemma {:induction false} PromotedAt<K>(es: seq<Entry<K>>, i: nat, k: nat)
    requires i < |es| && k < |es| - 1
    ensures KeyAt(Promote(es, i), k) == KeyAt(es, if k < i then k else k + 1)
  {
  }

  lemma {:induction false} FindAt<K>(es: seq<Entry<K>>, at: nat, key: K)
    requires at < |es| && DistinctKeys(es) && KeyAt(es, at) == key
    ensures Find(es, key) == at
  {
    assert Find(es, key) == |es| || KeyAt(es, Find(es, key)) == key;
  }

  lemma FindLast<K>(es: seq<Entry<K>>, key: K)
    requires es != [] && DistinctKeys(es) && es[|es| - 1].key == key
    ensures Find(es, key) == |es| - 1
  {
    FindAt(es, |es| - 1, key);
  }

  lemma PromoteArea<K>(es: seq<Entry<K>>, i: nat)
    requires i < |es|
    ensures Area(Promote(es, i)) == Area(es)
  {
    AreaWithout(es, i);
    AreaConcat(es[..i] + es[i + 1..], [es[i]]);
    assert [es[i]][1..] == [];
  }

  /** A capacity change keeps the most recent entries. */
  lemma ResizeSpec<K>(c: Lru<K>, cap: nat)
    requires c.Valid() && 1 <= cap
    ensures var n := Resize(c, cap);
            && n.Valid() && n.cap == cap && Area(n.entries) <= Area(c.entries)
            && |n.entries| == Min(|c.entries|, cap)
            && n.entries == c.entries[|c.entries| - |n.entries|..]
            && forall e :: e in n.entries ==> e in c.entries
  {
    var k := SaturatingSub(|c.entries|, cap);
    assert c.entries == c.entries[..k] + c.entries[k..];
    AreaConcat(c.entries[..k], c.entries[k..]);
    SuffixMembers(c.entries, k);
  }

  /** A key that was absent: what survives beside it is a most recent part of the old cache. */
  lemma AdmitKeepsRecent<K>(c: Lru<K>, area: nat, budget: nat, key: K, rect: GlyphRect)
    requires 1 <= c.cap && area >= Area(c.entries)
    requires Find(c.entries, key) == |c.entries|
    ensures var (n, tally) := Admit(c, area, budget, key, rect);
            var others := |n.entries| - 1;
            && 0 <= others <= |c.entries|
            && n.entries == c.entries[|c.entries| - others..] + [Entry(key, rect)]
            && Area(n.entries) <= tally
            && (tally <= budget || others == 0)
  {
    AdmitSpec(c, area, budget, key, rect);
    var pushed, after := Push(c, key, rect).0.entries, Admit(c, area, budget, key, rect).0.entries;
    DropOfAppend(c.entries, |c.entries| + 1 - |pushed|, Entry(key, rect), |pushed| - |after|);
  }

  lemma DropOfAppend<T>(s: seq<T>, d: nat, x: T, k: nat)
    requires d + k <= |s|
    ensures (s[d..] + [x])[k..] == s[d + k..] + [x]
  {
  }
}
