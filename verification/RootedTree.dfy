/**
 The main results about the accessibility update, over identifiers: it is a rooted tree
 exactly when the client state is sound, its focus is one of its nodes exactly when the
 focused pane is shown, and a caret always points into a row of its own pane.
 */
module RootedTree {
  import opened Wrappers
  import opened NodeIds
  import opened Utf8
  import opened AccessModel
  import opened AccessTree

  type Update = seq<(nat, Node)>

  ghost predicate HasId(ns: Update, id: nat) {
    exists i :: 0 <= i < |ns| && ns[i].0 == id
  }

  /** Distance of an identifier from the root. */
  function Level(id: nat): (l: nat) {
    Depth(Decode(id))
  }

  ghost predicate IdsDistinct(ns: Update) {
    forall i, j :: 0 <= i < j < |ns| ==> ns[i].0 != ns[j].0
  }

  /** Children are listed once, are nodes of the update, and lie one level below. */
  ghost predicate ChildrenOk(ns: Update) {
    forall i :: 0 <= i < |ns| ==>
      && Distinct(ns[i].1.children)
      && forall c :: c in ns[i].1.children ==> HasId(ns, c) && Level(c) == Level(ns[i].0) + 1
  }

  ghost predicate OneParentAtMost(ns: Update) {
    forall i, j, c :: 0 <= i < |ns| && 0 <= j < |ns| && c in ns[i].1.children && c in ns[j].1.children ==> i == j
  }

  ghost predicate HasParent(ns: Update, id: nat) {
    exists j :: 0 <= j < |ns| && id in ns[j].1.children
  }

  ghost predicate IsRootedTree(ns: Update) {
    && ns != [] && Level(ns[0].0) == 0
    && IdsDistinct(ns) && ChildrenOk(ns) && OneParentAtMost(ns)
    && forall i :: 0 < i < |ns| ==> HasParent(ns, ns[i].0)
  }

  /** `id` is the first node, or a child of a node that can be reached. */
  ghost predicate Reachable(ns: Update, id: nat, steps: nat)
    decreases steps
  {
    if steps == 0 then ns != [] && id == ns[0].0
    else exists j :: 0 <= j < |ns| && id in ns[j].1.children && Reachable(ns, ns[j].0, steps - 1)
  }

  /** In a rooted tree every node is reached from the root, in as many steps as its level. */
  lemma AllReachable(ns: Update, i: nat)
    requires IsRootedTree(ns) && i < |ns|
    ensures Reachable(ns, ns[i].0, Level(ns[i].0))
  {
    var levels := seq(|ns|, k requires 0 <= k < |ns| => Level(ns[k].0));
    forall k | 0 < k < |ns|
      ensures ParentAbove(ns, levels, k)
    {
      var j := ParentStep(ns, k);
      assert levels[k] == levels[j] + 1;
    }
    ReachableFromRoot(ns, levels, i);
  }

  /** The node is a child of one a level above it. */
  ghost predicate ParentAbove(ns: Update, levels: seq<nat>, k: nat)
    requires |levels| == |ns| && k < |ns|
  {
    exists j :: 0 <= j < |ns| && ns[k].0 in ns[j].1.children && levels[k] == levels[j] + 1
  }

  lemma {:induction false} ReachableFromRoot(ns: Update, levels: seq<nat>, i: nat)
    requires |levels| == |ns| && i < |ns| && levels[0] == 0
    requires forall k :: 0 < k < |ns| ==> ParentAbove(ns, levels, k)
    ensures Reachable(ns, ns[i].0, levels[i])
    decreases levels[i]
  {
    if i > 0 {
      assert ParentAbove(ns, levels, i);
      var j :| 0 <= j < |ns| && ns[i].0 in ns[j].1.children && levels[i] == levels[j] + 1;
      ReachableFromRoot(ns, levels, j);
      ReachableStep(ns, ns[i].0, j, levels[j]);
    }
  }

  lemma ReachableStep(ns: Update, id: nat, j: nat, steps: nat)
    requires j < |ns| && id in ns[j].1.children && Reachable(ns, ns[j].0, steps)
    ensures Reachable(ns, id, steps + 1)
  {
  }

  lemma ParentStep(ns: Update, i: nat) returns (j: nat)
    requires ChildrenOk(ns) && i < |ns| && HasParent(ns, ns[i].0)
    ensures j < |ns| && ns[i].0 in ns[j].1.children && Level(ns[i].0) == Level(ns[j].0) + 1
  {
    j :| 0 <= j < |ns| && ns[i].0 in ns[j].1.children;
  }

  // ----- From kinds to identifiers -----

  /** `ns` lists one node for each of the kinds `ks`, with the children `ch` gives it. */
  ghost predicate Lists(ns: Update, ks: seq<Kind>, ch: Kind -> seq<Kind>) {
    |ns| == |ks| && forall i :: 0 <= i < |ks| ==> ns[i].0 == Encode(ks[i]) && ns[i].1.children == Ids(ch(ks[i]))
  }

  /** The kinds are distinct, start with the root, and contain the place of each; the
      children of a kind are the kinds placed under it. */
  ghost predicate Placed(ks: seq<Kind>, ch: Kind -> seq<Kind>) {
    && Distinct(ks) && ks != [] && ks[0] == Root
    && (forall k :: k in ks ==> InRange(k) && ParentOf(k) in ks && Distinct(ch(k)))
    && (forall k, c :: k in ks ==> (c in ch(k) <==> c in ks && c != Root && ParentOf(c) == k))
  }

  lemma IdsMembers(ks: seq<Kind>, k: Kind)
    requires InRange(k) && forall x :: x in ks ==> InRange(x)
    ensures Encode(k) in Ids(ks) <==> k in ks
  {
    if k in ks {
      var i :| 0 <= i < |ks| && ks[i] == k;
      assert Ids(ks)[i] == Encode(k);
    }
    if Encode(k) in Ids(ks) {
      var i :| 0 <= i < |ks| && Ids(ks)[i] == Encode(k);
      IdsAreInjective(ks[i], k);
    }
  }

  lemma HasIdMembers(ns: Update, ks: seq<Kind>, ch: Kind -> seq<Kind>, k: Kind)
    requires Lists(ns, ks, ch) && InRange(k) && forall x :: x in ks ==> InRange(x)
    ensures HasId(ns, Encode(k)) <==> k in ks
  {
    if k in ks {
      var i :| 0 <= i < |ks| && ks[i] == k;
      assert ns[i].0 == Encode(k);
    }
    if HasId(ns, Encode(k)) {
      var i :| 0 <= i < |ns| && ns[i].0 == Encode(k);
      IdsAreInjective(ks[i], k);
    }
  }

  /** The kind behind a child identifier: listed, and placed under this node. */
  lemma ChildKind(ks: seq<Kind>, ch: Kind -> seq<Kind>, k: Kind, id: nat) returns (c: Kind)
    requires Placed(ks, ch) && k in ks && id in Ids(ch(k))
    ensures id == Encode(c) && c in ch(k) && c in ks && c != Root && ParentOf(c) == k && InRange(c)
  {
    var i :| 0 <= i < |ch(k)| && Ids(ch(k))[i] == id;
    c := ch(k)[i];
    assert c in ch(k);
  }

  lemma DepthBelow(k: Kind)
    requires k != Root
    ensures Depth(k) == Depth(ParentOf(k)) + 1
  {
  }

  lemma LevelIsDepth(k: Kind)
    requires InRange(k)
    ensures Level(Encode(k)) == Depth(k)
  {
    EncodeDecode(k);
  }

  lemma IdsStayDistinct(ks: seq<Kind>)
    requires Distinct(ks) && forall k :: k in ks ==> InRange(k)
    ensures Distinct(Ids(ks))
  {
    forall a, b | 0 <= a < b < |ks|
      ensures Ids(ks)[a] != Ids(ks)[b]
    {
      IdsAreInjective(ks[a], ks[b]);
    }
  }

  lemma ChildrenAreOk(ns: Update, ks: seq<Kind>, ch: Kind -> seq<Kind>, i: nat)
    requires Lists(ns, ks, ch) && Placed(ks, ch) && i < |ks|
    ensures Distinct(ns[i].1.children)
    ensures forall c :: c in ns[i].1.children ==> HasId(ns, c) && Level(c) == Level(ns[i].0) + 1
  {
    var k := ks[i];
    forall c | c in ch(k)
      ensures InRange(c)
    {
      assert c in ks;
    }
    IdsStayDistinct(ch(k));
    forall id | id in ns[i].1.children
      ensures HasId(ns, id) && Level(id) == Level(ns[i].0) + 1
    {
      var c := ChildKind(ks, ch, k, id);
      HasIdMembers(ns, ks, ch, c);
      LevelIsDepth(c);
      LevelIsDepth(k);
      DepthBelow(c);
    }
  }

  lemma ParentIsUnique(ns: Update, ks: seq<Kind>, ch: Kind -> seq<Kind>, i: nat, j: nat, id: nat)
    requires Lists(ns, ks, ch) && Placed(ks, ch) && i < |ks| && j < |ks|
    requires id in ns[i].1.children && id in ns[j].1.children
    ensures i == j
  {
    var c := ChildKind(ks, ch, ks[i], id);
    var d := ChildKind(ks, ch, ks[j], id);
    IdsAreInjective(c, d);
    assert ks[i] == ks[j];
  }

  lemma ParentExists(ns: Update, ks: seq<Kind>, ch: Kind -> seq<Kind>, i: nat)
    requires Lists(ns, ks, ch) && Placed(ks, ch) && 0 < i < |ks|
    ensures HasParent(ns, ns[i].0)
  {
    var k := ks[i];
    var p := ParentOf(k);
    assert k in ks && k != Root;
    var j :| 0 <= j < |ks| && ks[j] == p;
    assert k in ch(p);
    forall c | c in ch(p)
      ensures InRange(c)
    {
      assert c in ks;
    }
    IdsMembers(ch(p), k);
    assert ns[i].0 in ns[j].1.children;
  }

  /** Placing every node under its one parent makes a rooted tree. */
  lemma PlacedGivesTree(ns: Update, ks: seq<Kind>, ch: Kind -> seq<Kind>)
    requires Lists(ns, ks, ch) && Placed(ks, ch)
    ensures IsRootedTree(ns)
  {
    LevelIsDepth(Root);
    IdsStayDistinct(ks);
    forall i, j | 0 <= i < j < |ns|
      ensures ns[i].0 != ns[j].0
    {
      assert Ids(ks)[i] != Ids(ks)[j];
    }
    forall i | 0 <= i < |ns|
      ensures Distinct(ns[i].1.children)
      ensures forall c :: c in ns[i].1.children ==> HasId(ns, c) && Level(c) == Level(ns[i].0) + 1
    {
      ChildrenAreOk(ns, ks, ch, i);
    }
    forall i, j, c | 0 <= i < |ns| && 0 <= j < |ns| && c in ns[i].1.children && c in ns[j].1.children
      ensures i == j
    {
      ParentIsUnique(ns, ks, ch, i, j, c);
    }
    forall i | 0 < i < |ns|
      ensures HasParent(ns, ns[i].0)
    {
      ParentExists(ns, ks, ch, i);
    }
  }

  // ----- The update of a client state -----

  function TreeUpdate(st: ClientState): (ns: Update) {
    NodesOf(st, NodeKinds(st))
  }

  function Children(st: ClientState): (ch: Kind -> seq<Kind>) {
    (k: Kind) => ChildrenOf(st, k)
  }

  lemma UpdateLists(st: ClientState)
    ensures Lists(TreeUpdate(st), NodeKinds(st), Children(st))
  {
    forall i | 0 <= i < |NodeKinds(st)|
      ensures TreeUpdate(st)[i].1.children == Ids(ChildrenOf(st, NodeKinds(st)[i]))
    {
      OnlyContainersHaveChildren(st, NodeKinds(st)[i]);
    }
  }

  lemma OverlayInRange(st: ClientState, k: Kind)
    requires Sized(st) && InOverlay(ActiveOverlay(st), k)
    ensures InRange(k)
  {
  }

  lemma RowInRange(st: ClientState, k: Kind)
    requires Sized(st) && Present(st, k) && (k.PaneRow? || k.PaneScrollbackRow?)
    ensures InRange(k)
  {
  }

  lemma PresentInRange(st: ClientState, k: Kind)
    requires Sized(st) && Present(st, k)
    ensures InRange(k)
  {
    if InOverlay(ActiveOverlay(st), k) {
      OverlayInRange(st, k);
    } else if k.PaneRow? || k.PaneScrollbackRow? {
      RowInRange(st, k);
    }
  }

  lemma OverlayParent(o: Overlay, k: Kind)
    requires InOverlay(o, k)
    ensures ParentOf(k) == Root || InOverlay(o, ParentOf(k))
  {
  }

  lemma ParentIsPresent(st: ClientState, k: Kind)
    requires Present(st, k)
    ensures Present(st, ParentOf(k))
  {
    if InOverlay(ActiveOverlay(st), k) {
      OverlayParent(ActiveOverlay(st), k);
      OverlayPresence(st, ParentOf(k));
    } else if k.PaneRow? || k.PaneScrollbackRow? {
      RowPresent(st, k);
    }
  }

  lemma KindsInRange(st: ClientState)
    requires Sized(st)
    ensures forall k :: k in NodeKinds(st) ==> InRange(k)
  {
    forall k | k in NodeKinds(st)
      ensures InRange(k)
    {
      KindMembers(st, k);
      PresentInRange(st, k);
    }
  }

  lemma KindPlaces(st: ClientState, k: Kind)
    requires Sized(st) && Sound(st) && k in NodeKinds(st)
    ensures InRange(k) && ParentOf(k) in NodeKinds(st) && Distinct(ChildrenOf(st, k))
  {
    KindMembers(st, k);
    PresentInRange(st, k);
    ParentIsPresent(st, k);
    KindMembers(st, ParentOf(k));
    ChildrenDistinct(st, k);
  }

  lemma ChildPlaces(st: ClientState, k: Kind, c: Kind)
    requires Sound(st) && k in NodeKinds(st)
    ensures c in ChildrenOf(st, k) <==> c in NodeKinds(st) && c != Root && ParentOf(c) == k
  {
    KindMembers(st, k);
    KindMembers(st, c);
    ChildMembers(st, k, c);
  }

  /** A sound state gives a rooted tree. */
  lemma SoundGivesTree(st: ClientState)
    requires Sized(st) && Sound(st)
    ensures IsRootedTree(TreeUpdate(st))
  {
    var ks, ch := NodeKinds(st), Children(st);
    assert ks != [] && ks[0] == Root;
    KindsDistinct(st);
    forall k | k in ks
      ensures InRange(k) && ParentOf(k) in ks && Distinct(ch(k))
    {
      KindPlaces(st, k);
    }
    forall k, c | k in ks
      ensures c in ch(k) <==> c in ks && c != Root && ParentOf(c) == k
    {
      ChildPlaces(st, k, c);
    }
    UpdateLists(st);
    PlacedGivesTree(TreeUpdate(st), ks, ch);
  }

  // ----- The other half: an unsound state never gives a tree -----

  lemma RepeatedKind(st: ClientState, i: nat, j: nat)
    requires i < j < |NodeKinds(st)| && NodeKinds(st)[i] == NodeKinds(st)[j]
    ensures !IdsDistinct(TreeUpdate(st))
  {
    assert TreeUpdate(st)[i].0 == TreeUpdate(st)[j].0;
  }

  /** Where in the list the tabs, the bars and the alerts are. */
  lemma TabsAt(st: ClientState, i: nat)
    requires i < |TabOrder(st)|
    ensures 3 + i < |NodeKinds(st)| && NodeKinds(st)[3 + i] == Tab(TabOrder(st)[i])
  {
    var tabs, base := Tabs(TabOrder(st)), BaseKinds(st);
    assert base[3 + i] == tabs[i];
    assert NodeKinds(st)[3 + i] == base[3 + i];
  }

  function BarsStart(st: ClientState): (b: nat) {
    |BaseKinds(st) + OverlayKinds(ActiveOverlay(st))|
  }

  lemma BarsAt(st: ClientState, i: nat)
    requires i < |LiveSlots(st.bars)|
    ensures BarsStart(st) + i < |NodeKinds(st)|
    ensures NodeKinds(st)[BarsStart(st) + i] == InfoBar(LiveSlots(st.bars)[i])
  {
    Middle(BaseKinds(st) + OverlayKinds(ActiveOverlay(st)), BarKinds(LiveSlots(st.bars)), AlertKinds(st.alerts), i);
  }

  lemma AlertsAt(st: ClientState, i: nat)
    requires i < |st.alerts|
    ensures BarsStart(st) + |LiveSlots(st.bars)| + 1 + i < |NodeKinds(st)|
    ensures NodeKinds(st)[BarsStart(st) + |LiveSlots(st.bars)| + 1 + i] == Alert(st.alerts[i])
  {
    var front := BaseKinds(st) + OverlayKinds(ActiveOverlay(st)) + BarKinds(LiveSlots(st.bars));
    Middle(front, AlertKinds(st.alerts), [], 1 + i);
    assert front + AlertKinds(st.alerts) + [] == NodeKinds(st);
  }

  lemma Middle<T>(a: seq<T>, b: seq<T>, c: seq<T>, i: nat)
    requires i < |b|
    ensures (a + b + c)[|a| + i] == b[i]
  {
  }

  lemma RepeatedTab(st: ClientState, i: nat, j: nat)
    requires i < j < |TabOrder(st)| && TabOrder(st)[i] == TabOrder(st)[j]
    ensures !IdsDistinct(TreeUpdate(st))
  {
    TabsAt(st, i);
    TabsAt(st, j);
    RepeatedKind(st, 3 + i, 3 + j);
  }

  lemma RepeatedBar(st: ClientState, i: nat, j: nat)
    requires i < j < |LiveSlots(st.bars)| && LiveSlots(st.bars)[i] == LiveSlots(st.bars)[j]
    ensures !IdsDistinct(TreeUpdate(st))
  {
    BarsAt(st, i);
    BarsAt(st, j);
    RepeatedKind(st, BarsStart(st) + i, BarsStart(st) + j);
  }

  lemma RepeatedAlert(st: ClientState, i: nat, j: nat)
    requires i < j < |st.alerts| && st.alerts[i] == st.alerts[j]
    ensures !IdsDistinct(TreeUpdate(st))
  {
    var start := BarsStart(st) + |LiveSlots(st.bars)| + 1;
    AlertsAt(st, i);
    AlertsAt(st, j);
    RepeatedKind(st, start + i, start + j);
  }

  lemma DistinctIdsGiveDistinctState(st: ClientState)
    requires IdsDistinct(TreeUpdate(st))
    ensures Distinct(TabOrder(st)) && Distinct(LiveSlots(st.bars)) && Distinct(st.alerts)
  {
    if i, j :| 0 <= i < j < |TabOrder(st)| && TabOrder(st)[i] == TabOrder(st)[j] {
      RepeatedTab(st, i, j);
    }
    if i, j :| 0 <= i < j < |LiveSlots(st.bars)| && LiveSlots(st.bars)[i] == LiveSlots(st.bars)[j] {
      RepeatedBar(st, i, j);
    }
    if i, j :| 0 <= i < j < |st.alerts| && st.alerts[i] == st.alerts[j] {
      RepeatedAlert(st, i, j);
    }
  }

  lemma TreeGivesSound(st: ClientState)
    requires Sized(st) && IsRootedTree(TreeUpdate(st))
    ensures Sound(st)
  {
    DistinctIdsGiveDistinctState(st);
    forall p | p in TabOrder(st)
      ensures p in st.panes
    {
      ShownPaneExists(st, p);
    }
  }

  lemma AreaLists(st: ClientState, p: nat)
    requires Sized(st) && p in TabOrder(st)
    ensures Encode(Pane(p)) in Ids(ChildrenOf(st, PaneArea))
  {
    var cs := ChildrenOf(st, PaneArea);
    TabsMembers(TabOrder(st), Pane(p));
    forall c | c in cs
      ensures InRange(c)
    {
      TabsMembers(TabOrder(st), c);
    }
    IdsMembers(cs, Pane(p));
  }

  lemma AreaIsThird(st: ClientState)
    ensures |NodeKinds(st)| > 2 && NodeKinds(st)[2] == PaneArea
  {
  }

  lemma NodePresent(st: ClientState, k: Kind)
    requires Sized(st) && InRange(k) && HasId(TreeUpdate(st), Encode(k))
    ensures Present(st, k)
  {
    UpdateLists(st);
    KindsInRange(st);
    HasIdMembers(TreeUpdate(st), NodeKinds(st), Children(st), k);
    KindMembers(st, k);
  }

  /** The pane area lists every pane of the tab order, so each must have a node. */
  lemma ShownPaneExists(st: ClientState, p: nat)
    requires Sized(st) && IsRootedTree(TreeUpdate(st)) && p in TabOrder(st)
    ensures p in st.panes
  {
    UpdateLists(st);
    AreaLists(st, p);
    AreaIsThird(st);
    assert HasId(TreeUpdate(st), Encode(Pane(p)));
    NodePresent(st, Pane(p));
  }

  /** The update is a rooted tree if and only if the tab order has no duplicates and only
      existing panes, no two shown bars share a slot, and alert numbers are distinct. */
  lemma TreeIffSound(st: ClientState)
    requires Sized(st)
    ensures IsRootedTree(TreeUpdate(st)) <==> Sound(st)
  {
    if Sound(st) {
      SoundGivesTree(st);
    }
    if IsRootedTree(TreeUpdate(st)) {
      TreeGivesSound(st);
    }
  }

  /** The focus is a node of the update if and only if an overlay is open, no pane is
      focused, or the focused pane is shown. */
  lemma FocusIsNodeIff(st: ClientState)
    requires Sized(st)
    ensures HasId(TreeUpdate(st), Encode(FocusOf(st))) <==>
            || ActiveOverlay(st) != NoOverlay
            || st.focusedPane.None?
            || (st.focusedPane.value in TabOrder(st) && st.focusedPane.value in st.panes)
  {
    var k := FocusOf(st);
    FocusPresentIff(st);
    if Present(st, k) {
      PresentInRange(st, k);
    }
    KindsInRange(st);
    KindMembers(st, k);
    UpdateLists(st);
    HasIdMembers(TreeUpdate(st), NodeKinds(st), Children(st), k);
  }

  lemma FocusPresentIff(st: ClientState)
    requires Sized(st)
    ensures InRange(FocusOf(st)) || Present(st, FocusOf(st))
    ensures Present(st, FocusOf(st)) <==>
            || ActiveOverlay(st) != NoOverlay
            || st.focusedPane.None?
            || (st.focusedPane.value in TabOrder(st) && st.focusedPane.value in st.panes)
  {
  }

  ghost predicate PointsInto(caret: Caret, target: (nat, Node)) {
    && target.0 == caret.node && target.1.role == TextRun
    && caret.index <= |target.1.text| == |target.1.lengths|
  }

  lemma OnlyPanesHaveCarets(st: ClientState, k: Kind)
    requires NodeOf(st, k).caret.Some?
    ensures k.Pane? && k.paneId in st.panes
    ensures NodeOf(st, k).caret == CaretOf(st.focusedPane, k.paneId, st.panes[k.paneId])
  {
  }

  lemma PaneLists(st: ClientState, id: nat)
    requires id in st.panes
    ensures NodeOf(st, Pane(id)).children == Ids(RowKinds(id, st.panes[id]))
  {
  }

  /** Any caret points at a row listed under its own pane, and at most one past the last
      character of that row's text. */
  lemma CaretPointsIntoRow(st: ClientState, k: Kind)
    requires k in NodeKinds(st) && NodeOf(st, k).caret.Some?
    ensures var caret := NodeOf(st, k).caret.value;
            && caret.node in NodeOf(st, k).children
            && exists j :: 0 <= j < |TreeUpdate(st)| && PointsInto(caret, TreeUpdate(st)[j])
  {
    KindMembers(st, k);
    OnlyPanesHaveCarets(st, k);
    PaneLists(st, k.paneId);
    CaretIsInRow(st, k.paneId);
    var row := PaneRow(k.paneId, st.panes[k.paneId].cursorRow);
    KindMembers(st, row);
    var j := NodeListed(st, NodeKinds(st), row);
    assert PointsInto(NodeOf(st, k).caret.value, TreeUpdate(st)[j]);
  }

  lemma NodeListed(st: ClientState, ks: seq<Kind>, k: Kind) returns (j: nat)
    requires k in ks
    ensures j < |ks| && NodesOf(st, ks)[j] == (Encode(k), NodeOf(st, k))
  {
    j :| 0 <= j < |ks| && ks[j] == k;
  }

  lemma CaretIsInRow(st: ClientState, id: nat)
    requires id in TabOrder(st) && id in st.panes && CaretOf(st.focusedPane, id, st.panes[id]).Some?
    ensures var row, caret := PaneRow(id, st.panes[id].cursorRow), CaretOf(st.focusedPane, id, st.panes[id]).value;
            && Present(st, row) && PointsInto(caret, (Encode(row), NodeOf(st, row)))
            && caret.node in Ids(RowKinds(id, st.panes[id]))
  {
    var p := st.panes[id];
    var row, ks := PaneRow(id, p.cursorRow), RowKinds(id, p);
    RowMembers(id, p, row);
    var a :| 0 <= a < |ks| && ks[a] == row;
    assert Ids(ks)[a] == Encode(row);
    assert NodeOf(st, row) == RowNode(p.rows[p.cursorRow]);
  }

  // ----- The scrollback window -----

  predicate Exposed(p: PaneState, row: nat) {
    WindowStart(p) <= row < WindowEnd(p)
  }

  /** Existing rows within the radius of the scroll position. */
  predicate Nearby(p: PaneState, row: nat) {
    && row < |p.scrollback|
    && WindowCenter(p) - SCROLLBACK_WINDOW_RADIUS <= row <= WindowCenter(p) + SCROLLBACK_WINDOW_RADIUS
  }

  /** At most 201 scrollback rows are exposed, all of them nearby, existing and encodable. */
  lemma WindowIsBounded(p: PaneState)
    ensures WindowEnd(p) - WindowStart(p) <= 2 * SCROLLBACK_WINDOW_RADIUS + 1 == 201
    ensures forall r: nat :: Exposed(p, r) ==> Nearby(p, r) && r < MAX_SCROLLBACK_ROWS_PER_PANE
  {
  }

  /** The rows on each side of the scroll position are all exposed if and only if the last of
      them is below the 9000-row cap; from row 9100 on, no scrollback is exposed at all. */
  lemma WindowCoversScrollPosition(p: PaneState)
    requires p.scrollback != []
    ensures (forall r: nat :: Nearby(p, r) ==> Exposed(p, r))
            <==> Min(WindowCenter(p) + SCROLLBACK_WINDOW_RADIUS + 1, |p.scrollback|) <= MAX_SCROLLBACK_ROWS_PER_PANE
    ensures WindowStart(p) == WindowEnd(p)
            <==> WindowCenter(p) >= MAX_SCROLLBACK_ROWS_PER_PANE + SCROLLBACK_WINDOW_RADIUS
  {
    var last := Min(WindowCenter(p) + SCROLLBACK_WINDOW_RADIUS + 1, |p.scrollback|) - 1;
    assert Nearby(p, last);
    assert Exposed(p, last) <==> WindowStart(p) <= last < WindowEnd(p);
  }

  // ----- A long history -----

  /** At 9101 rows of history, nothing scrolled back, a screen reader gets no row of it. */
  lemma LongHistoryIsSilent(p: PaneState)
    requires |p.scrollback| == 9101 && p.scrollOffset == 0
    ensures WindowStart(p) == WindowEnd(p) && forall r: nat :: !Exposed(p, r)
    ensures forall r: nat :: 9000 <= r < 9101 ==> Nearby(p, r)
  {
  }

  // ----- Row text -----

  /** The text of a row is never empty, and its character lengths cut its bytes into characters. */
  lemma RowTextIsMeasured(cells: string, i: nat)
    requires i < |RowText(cells)|
    ensures var text := RowText(cells);
            var lengths := RowNode(cells).lengths;
            && text != "" && |lengths| == |text| && Sum(lengths) == |EncodeText(text)|
            && Sum(lengths[..i]) <= |EncodeText(text)|
            && ReadChar(EncodeText(text)[Sum(lengths[..i])..]) == Some((text[i] as int, lengths[i]))
  {
    LengthsAddUp(RowText(cells));
    LengthsLocate(RowText(cells), i);
  }
}
