/**
 The tree update built from a client state is a rooted tree with a valid focus, and
 exactly when.
 */
module AccessTree {
  import opened Wrappers
  import opened NodeIds
  import opened AccessModel

  // ----- Which nodes are present -----

  /** Whether the update has a node of this kind. */
  ghost predicate Present(st: ClientState, k: Kind) {
    match k
    case Root => true
    case TabBar => true
    case PaneArea => true
    case PaneInputBuffer => true
    case Tab(p) => p in TabOrder(st)
    case WindowMinimize => st.windowButtons
    case WindowMaximize => st.windowButtons
    case WindowClose => st.windowButtons
    case Pane(p) => p in TabOrder(st) && p in st.panes
    case PaneRow(p, r) => p in TabOrder(st) && p in st.panes && r < RowCount(st.panes[p])
    case PaneScrollbackRow(p, r) =>
      p in TabOrder(st) && p in st.panes && WindowStart(st.panes[p]) <= r < WindowEnd(st.panes[p])
    case InfoBar(slot) => slot in LiveSlots(st.bars)
    case AlertRegion => st.alerts != []
    case Alert(a) => a in st.alerts
    case _ => InOverlay(ActiveOverlay(st), k)
  }

  /** The same for the tabs, the panes and their containers. */
  ghost predicate InBase(st: ClientState, k: Kind) {
    || k.Root? || k.TabBar? || k.PaneArea? || k.PaneInputBuffer?
    || (k.Tab? && k.paneId in TabOrder(st))
    || ((k.WindowMinimize? || k.WindowMaximize? || k.WindowClose?) && st.windowButtons)
    || (k.Pane? && k.paneId in TabOrder(st) && k.paneId in st.panes)
    || ((k.PaneRow? || k.PaneScrollbackRow?) && k.paneId in TabOrder(st) && k.paneId in st.panes
        && InRows(st.panes[k.paneId], k))
  }

  /** The bars and the alerts. */
  ghost predicate InTail(st: ClientState, k: Kind) {
    || (k.InfoBar? && k.slot in LiveSlots(st.bars))
    || (k.AlertRegion? && st.alerts != []) || (k.Alert? && k.serial in st.alerts)
  }

  lemma PlainParts(st: ClientState, k: Kind)
    requires !InOverlay(ActiveOverlay(st), k)
    ensures Present(st, k) <==> InBase(st, k) || InTail(st, k)
  {
  }

  lemma PresentParts(st: ClientState, k: Kind)
    ensures Present(st, k) <==> InBase(st, k) || InOverlay(ActiveOverlay(st), k) || InTail(st, k)
  {
    if InOverlay(ActiveOverlay(st), k) {
      OverlayPresence(st, k);
    } else {
      PlainParts(st, k);
    }
  }

  predicate InRows(p: PaneState, k: Kind) {
    || (k.PaneRow? && k.row < RowCount(p))
    || (k.PaneScrollbackRow? && WindowStart(p) <= k.sbRow < WindowEnd(p))
  }

  ghost predicate InOverlay(o: Overlay, k: Kind) {
    match o
    case NoOverlay => false
    case Closing(_) => k == CloseDialog || k == CloseDialogKill || k == CloseDialogCancel
    case Selecting(qs) =>
      k == QuickSelect || k == QuickSelectList || (k.QuickSelectItem? && k.idx < |qs.labels|)
    case InMenu(m) => k == ContextMenu || (k.ContextItem? && k.idx < |m.separators|)
    case InPalette(l) =>
      k == Palette || k == PaletteSearch || k == PaletteList || (k.PaletteItem? && k.idx < l.count)
    case InHosts(l) => k == HostManager || (k.HostItem? && k.idx < l.count)
    case InMacros(l) => k == MacroPicker || (k.MacroItem? && k.idx < l.count)
  }

  lemma TabsMembers(order: seq<nat>, k: Kind)
    ensures k in Tabs(order) <==> k.Tab? && k.paneId in order
    ensures k in Panes(order) <==> k.Pane? && k.paneId in order
  {
    forall i | 0 <= i < |order| && k == Tab(order[i])
      ensures k in Tabs(order)
    {
      assert Tabs(order)[i] == k;
    }
    forall i | 0 <= i < |order| && k == Pane(order[i])
      ensures k in Panes(order)
    {
      assert Panes(order)[i] == k;
    }
  }

  lemma RowMembers(id: nat, p: PaneState, k: Kind)
    ensures k in RowKinds(id, p) <==> (k.PaneRow? || k.PaneScrollbackRow?) && k.paneId == id && InRows(p, k)
  {
    var sb, vp := ScrollbackRows(id, p), ViewportRows(id, p);
    if k.PaneRow? && k.paneId == id && k.row < RowCount(p) {
      assert vp[k.row] == k;
    }
    if k.PaneScrollbackRow? && k.paneId == id && WindowStart(p) <= k.sbRow < WindowEnd(p) {
      assert sb[k.sbRow - WindowStart(p)] == k;
    }
  }

  lemma {:induction false} PaneMembers(order: seq<nat>, panes: map<nat, PaneState>, k: Kind)
    ensures k in PaneKinds(order, panes) <==>
            && (k.Pane? || k.PaneRow? || k.PaneScrollbackRow?) && k.paneId in order && k.paneId in panes
            && (k.Pane? || InRows(panes[k.paneId], k))
    decreases |order|
  {
    if order != [] {
      var front, id := order[..|order| - 1], order[|order| - 1];
      assert order == front + [id];
      PaneMembers(front, panes, k);
      if id in panes {
        RowMembers(id, panes[id], k);
      }
    }
  }

  lemma ItemMembers(n: nat, k: Kind)
    ensures k in ContextItems(n) <==> k.ContextItem? && k.idx < n
    ensures k in QuickItems(n) <==> k.QuickSelectItem? && k.idx < n
    ensures k in PaletteItems(n) <==> k.PaletteItem? && k.idx < n
    ensures k in HostItems(n) <==> k.HostItem? && k.idx < n
    ensures k in MacroItems(n) <==> k.MacroItem? && k.idx < n
  {
    if k.ContextItem? && k.idx < n { assert ContextItems(n)[k.idx] == k; }
    if k.QuickSelectItem? && k.idx < n { assert QuickItems(n)[k.idx] == k; }
    if k.PaletteItem? && k.idx < n { assert PaletteItems(n)[k.idx] == k; }
    if k.HostItem? && k.idx < n { assert HostItems(n)[k.idx] == k; }
    if k.MacroItem? && k.idx < n { assert MacroItems(n)[k.idx] == k; }
  }

  lemma OverlayMembers(o: Overlay, k: Kind)
    ensures k in OverlayKinds(o) <==> InOverlay(o, k)
  {
    match o
    case Selecting(qs) => ItemMembers(|qs.labels|, k);
    case InMenu(m) => ItemMembers(|m.separators|, k);
    case InPalette(l) => ItemMembers(l.count, k);
    case InHosts(l) => ItemMembers(l.count, k);
    case InMacros(l) => ItemMembers(l.count, k);
    case _ =>
  }

  lemma BarMembers(slots: seq<Slot>, k: Kind)
    ensures k in BarKinds(slots) <==> k.InfoBar? && k.slot in slots
  {
    forall i | 0 <= i < |slots| && k == InfoBar(slots[i])
      ensures k in BarKinds(slots)
    {
      assert BarKinds(slots)[i] == k;
    }
  }

  lemma AlertMembers(alerts: seq<nat>, k: Kind)
    ensures k in Alerts(alerts) <==> k.Alert? && k.serial in alerts
  {
    forall i | 0 <= i < |alerts| && k == Alert(alerts[i])
      ensures k in Alerts(alerts)
    {
      assert Alerts(alerts)[i] == k;
    }
  }

  lemma BaseMembers(st: ClientState, k: Kind)
    ensures k in BaseKinds(st) <==> InBase(st, k)
  {
    TabsMembers(TabOrder(st), k);
    PaneMembers(TabOrder(st), st.panes, k);
    assert k in BaseKinds(st) <==>
        || k in [Root, TabBar, PaneArea] || k in Tabs(TabOrder(st)) || k in Buttons(st.windowButtons)
        || k in PaneKinds(TabOrder(st), st.panes) || k == PaneInputBuffer;
  }

  lemma KindMembers(st: ClientState, k: Kind)
    ensures k in NodeKinds(st) <==> Present(st, k)
  {
    PresentParts(st, k);
    BaseMembers(st, k);
    OverlayMembers(ActiveOverlay(st), k);
    BarMembers(LiveSlots(st.bars), k);
    AlertMembers(st.alerts, k);
    InFour(BaseKinds(st), OverlayKinds(ActiveOverlay(st)), BarKinds(LiveSlots(st.bars)), AlertKinds(st.alerts), k);
  }

  /** Of a pane in the tab order, the rows that get a node are those of its height that it has, the
      first thousand at most. */
  lemma ViewportIsListed(st: ClientState, id: nat, r: nat)
    requires id in TabOrder(st) && id in st.panes
    ensures PaneRow(id, r) in NodeKinds(st) <==> r < st.panes[id].height && r < |st.panes[id].rows| && r < 1_000
  {
    KindMembers(st, PaneRow(id, r));
  }

  /** The tabs are those of the tab order, or of all panes while there is none. */
  lemma TabsAreListed(st: ClientState, id: nat)
    requires Sized(st)
    ensures Tab(id) in NodeKinds(st) <==> if st.tabOrder == [] then id in st.panes else id in st.tabOrder
  {
    KindMembers(st, Tab(id));
  }

  /** In the context menu a separator is a splitter, and any other entry an item to choose. */
  lemma MenuRoles(st: ClientState, i: nat)
    requires st.closeDialog.None? && st.quickSelect.None? && st.contextMenu.Some?
    requires i < |st.contextMenu.value.separators|
    ensures ContextItem(i) in NodeKinds(st)
    ensures NodeOf(st, ContextItem(i)).role == if st.contextMenu.value.separators[i] then Splitter else MenuItem
  {
    MenuIsListed(st, i);
  }

  lemma MenuIsListed(st: ClientState, i: nat)
    requires ActiveOverlay(st).InMenu? && i < |ActiveOverlay(st).menu.separators|
    ensures ContextItem(i) in NodeKinds(st)
  {
    KindMembers(st, ContextItem(i));
  }

  lemma InFour<T>(a: seq<T>, b: seq<T>, c: seq<T>, d: seq<T>, x: T)
    ensures x in a + b + c + d <==> x in a || x in b || x in c || x in d
  {
  }

  /** Panes to show all exist: then children are exactly the present nodes placed here. */
  ghost predicate PanesExist(st: ClientState) {
    forall p :: p in TabOrder(st) ==> p in st.panes
  }

  predicate IsContainer(k: Kind) {
    k.Root? || k.TabBar? || k.PaneArea? || k.Pane? || k.AlertRegion? || IsOverlayContainer(k)
  }

  predicate IsOverlayContainer(k: Kind) {
    || k.CloseDialog? || k.QuickSelect? || k.QuickSelectList? || k.ContextMenu? || k.Palette? || k.PaletteList?
    || k.HostManager? || k.MacroPicker?
  }

  lemma OnlyContainersHaveChildren(st: ClientState, k: Kind)
    ensures IsContainer(ParentOf(k))
    ensures !IsContainer(k) ==> ChildrenOf(st, k) == []
  {
  }

  /** The children of a present node are exactly the present nodes placed under it. */
  lemma ChildMembers(st: ClientState, k: Kind, c: Kind)
    requires Present(st, k) && PanesExist(st)
    ensures c in ChildrenOf(st, k) <==> Present(st, c) && c != Root && ParentOf(c) == k
  {
    OnlyContainersHaveChildren(st, k);
    OnlyContainersHaveChildren(st, c);
    if k.Root? {
      RootChildMembers(st, c);
    } else if k.TabBar? || k.PaneArea? {
      BarAndAreaMembers(st, k, c);
    } else if k.Pane? {
      PaneChildMembers(st, k.paneId, c);
    } else if k.AlertRegion? {
      AlertChildMembers(st, c);
    } else if IsOverlayContainer(k) {
      OverlayPlaces(st, k);
      OverlayChildMembers(ActiveOverlay(st), k, c);
      OverlayPresence(st, c);
    }
  }

  lemma OverlayPlaces(st: ClientState, k: Kind)
    requires IsOverlayContainer(k)
    ensures ChildrenOf(st, k) == OverlayChildren(ActiveOverlay(st), k)
    ensures Present(st, k) <==> InOverlay(ActiveOverlay(st), k)
  {
  }

  lemma OverlayPresence(st: ClientState, c: Kind)
    ensures IsOverlayContainer(ParentOf(c)) ==> (Present(st, c) <==> InOverlay(ActiveOverlay(st), c))
    ensures InOverlay(ActiveOverlay(st), c) ==> Present(st, c) && c != Root
  {
  }

  lemma RootChildParts(st: ClientState, c: Kind)
    ensures c in RootChildren(st) <==>
              || c == TabBar || c == PaneArea || c in OverlayRoots(ActiveOverlay(st))
              || c in BarKinds(LiveSlots(st.bars)) || (st.alerts != [] && c == AlertRegion)
  {
    var alertRoots := if st.alerts == [] then [] else [AlertRegion];
    assert c in RootChildren(st) <==>
        c in [TabBar, PaneArea] || c in OverlayRoots(ActiveOverlay(st)) || c in BarKinds(LiveSlots(st.bars))
        || c in alertRoots;
  }

  lemma BaseUnderRoot(st: ClientState, c: Kind)
    requires InBase(st, c)
    ensures c != Root && ParentOf(c) == Root <==> c == TabBar || c == PaneArea
  {
  }

  lemma TailUnderRoot(st: ClientState, c: Kind)
    requires InTail(st, c)
    ensures c != Root && ParentOf(c) == Root <==> c.InfoBar? || c == AlertRegion
  {
  }

  lemma PlainUnderRoot(st: ClientState, c: Kind)
    requires !InOverlay(ActiveOverlay(st), c)
    ensures Present(st, c) && c != Root && ParentOf(c) == Root <==>
              || c == TabBar || c == PaneArea
              || (c.InfoBar? && c.slot in LiveSlots(st.bars)) || (st.alerts != [] && c == AlertRegion)
  {
    PlainParts(st, c);
    if InBase(st, c) {
      BaseUnderRoot(st, c);
    } else if InTail(st, c) {
      TailUnderRoot(st, c);
    }
  }

  lemma OverlayIsElsewhere(o: Overlay, c: Kind)
    requires InOverlay(o, c)
    ensures c != TabBar && c != PaneArea && c != AlertRegion && !c.InfoBar?
  {
  }

  lemma UnderRoot(st: ClientState, c: Kind)
    ensures Present(st, c) && c != Root && ParentOf(c) == Root <==>
              || c == TabBar || c == PaneArea || (InOverlay(ActiveOverlay(st), c) && ParentOf(c) == Root)
              || (c.InfoBar? && c.slot in LiveSlots(st.bars)) || (st.alerts != [] && c == AlertRegion)
  {
    if InOverlay(ActiveOverlay(st), c) {
      OverlayPresence(st, c);
      OverlayIsElsewhere(ActiveOverlay(st), c);
    } else {
      PlainUnderRoot(st, c);
    }
  }

  lemma RootChildMembers(st: ClientState, c: Kind)
    ensures c in RootChildren(st) <==> Present(st, c) && c != Root && ParentOf(c) == Root
  {
    RootChildParts(st, c);
    UnderRoot(st, c);
    BarMembers(LiveSlots(st.bars), c);
    OverlayRootMembers(ActiveOverlay(st), c);
  }

  lemma OverlayRootMembers(o: Overlay, c: Kind)
    ensures c in OverlayRoots(o) <==> InOverlay(o, c) && ParentOf(c) == Root
  {
  }

  lemma BarAndAreaMembers(st: ClientState, k: Kind, c: Kind)
    requires PanesExist(st) && (k == TabBar || k == PaneArea)
    ensures c in ChildrenOf(st, k) <==> Present(st, c) && c != Root && ParentOf(c) == k
  {
    TabsMembers(TabOrder(st), c);
  }

  lemma ParentIsPane(c: Kind, id: nat)
    ensures ParentOf(c) == Pane(id) <==> (c.PaneRow? || c.PaneScrollbackRow?) && c.paneId == id
  {
  }

  lemma RowPresent(st: ClientState, c: Kind)
    requires c.PaneRow? || c.PaneScrollbackRow?
    ensures Present(st, c) <==> Present(st, Pane(c.paneId)) && InRows(st.panes[c.paneId], c)
  {
  }

  lemma PaneChildMembers(st: ClientState, id: nat, c: Kind)
    requires Present(st, Pane(id))
    ensures c in RowKinds(id, st.panes[id]) <==> Present(st, c) && c != Root && ParentOf(c) == Pane(id)
  {
    RowMembers(id, st.panes[id], c);
    ParentIsPane(c, id);
    if c.PaneRow? || c.PaneScrollbackRow? {
      RowPresent(st, c);
    }
  }

  lemma AlertChildMembers(st: ClientState, c: Kind)
    ensures c in Alerts(st.alerts) <==> Present(st, c) && c != Root && ParentOf(c) == AlertRegion
  {
    AlertMembers(st.alerts, c);
  }

  lemma QuickSelectMembers(qs: QuickSelectState, k: Kind, c: Kind)
    requires k == QuickSelect || k == QuickSelectList
    ensures c in OverlayChildren(Selecting(qs), k) <==> InOverlay(Selecting(qs), c) && ParentOf(c) == k
  {
    ItemMembers(|qs.labels|, c);
    if k == QuickSelect {
      assert OverlayChildren(Selecting(qs), k) == [QuickSelectList];
    }
  }

  lemma MenuMembers(m: Menu, c: Kind)
    ensures c in OverlayChildren(InMenu(m), ContextMenu) <==> InOverlay(InMenu(m), c) && ParentOf(c) == ContextMenu
  {
    ItemMembers(|m.separators|, c);
  }

  lemma PaletteMembers(l: Listing, k: Kind, c: Kind)
    requires k == Palette || k == PaletteList
    ensures c in OverlayChildren(InPalette(l), k) <==> InOverlay(InPalette(l), c) && ParentOf(c) == k
  {
    ItemMembers(l.count, c);
    if k == Palette {
      assert OverlayChildren(InPalette(l), k) == [PaletteSearch, PaletteList];
    }
  }

  lemma ListMembers(l: Listing, c: Kind)
    ensures c in OverlayChildren(InHosts(l), HostManager) <==> InOverlay(InHosts(l), c) && ParentOf(c) == HostManager
    ensures c in OverlayChildren(InMacros(l), MacroPicker) <==> InOverlay(InMacros(l), c) && ParentOf(c) == MacroPicker
  {
    ItemMembers(l.count, c);
  }

  lemma OverlayChildMembers(o: Overlay, k: Kind, c: Kind)
    requires IsOverlayContainer(k) && InOverlay(o, k)
    ensures c in OverlayChildren(o, k) <==> InOverlay(o, c) && ParentOf(c) == k
  {
    match o
    case Closing(_) => assert k == CloseDialog;
    case Selecting(qs) => QuickSelectMembers(qs, k, c);
    case InMenu(m) => MenuMembers(m, c);
    case InPalette(l) => PaletteMembers(l, k, c);
    case InHosts(l) => ListMembers(l, c);
    case InMacros(l) => ListMembers(l, c);
    case _ =>
  }

  // ----- No kind is listed twice -----

  /** What the caller of the builder has to get right. */
  ghost predicate Sound(st: ClientState) {
    && Distinct(TabOrder(st)) && PanesExist(st)
    && Distinct(LiveSlots(st.bars)) && Distinct(st.alerts)
  }

  function Section(k: Kind): (n: nat) {
    match k
    case Root => 0
    case TabBar => 0
    case PaneArea => 0
    case Tab(_) => 1
    case WindowMinimize => 2
    case WindowMaximize => 2
    case WindowClose => 2
    case Pane(_) => 3
    case PaneRow(_, _) => 3
    case PaneScrollbackRow(_, _) => 3
    case PaneInputBuffer => 4
    case InfoBar(_) => 6
    case AlertRegion => 7
    case Alert(_) => 7
    case _ => 5
  }

  ghost predicate Within(ks: seq<Kind>, lo: nat, hi: nat) {
    forall k :: k in ks ==> lo <= Section(k) < hi
  }

  lemma DistinctConcat<T>(a: seq<T>, b: seq<T>)
    requires Distinct(a) && Distinct(b)
    requires forall x :: x in a ==> x !in b
    ensures Distinct(a + b)
  {
    forall i, j | 0 <= i < j < |a + b|
      ensures (a + b)[i] != (a + b)[j]
    {
      if i < |a| <= j {
        assert a[i] in a && b[j - |a|] in b;
      }
    }
  }

  lemma NextSection(a: seq<Kind>, b: seq<Kind>, n: nat)
    requires Distinct(a) && Distinct(b) && Within(a, 0, n) && Within(b, n, n + 1)
    ensures Distinct(a + b) && Within(a + b, 0, n + 1)
  {
    DistinctConcat(a, b);
  }

  lemma RowsDistinct(id: nat, p: PaneState)
    ensures Distinct(RowKinds(id, p) + [Pane(id)])
  {
    DistinctConcat(ScrollbackRows(id, p), ViewportRows(id, p));
    DistinctConcat(RowKinds(id, p), [Pane(id)]);
  }

  lemma {:induction false} PanesDistinct(order: seq<nat>, panes: map<nat, PaneState>)
    requires Distinct(order)
    ensures Distinct(PaneKinds(order, panes)) && Within(PaneKinds(order, panes), 3, 4)
    decreases |order|
  {
    forall k | k in PaneKinds(order, panes)
      ensures Section(k) == 3
    {
      PaneMembers(order, panes, k);
    }
    if order != [] {
      var front, id := order[..|order| - 1], order[|order| - 1];
      PanesDistinct(front, panes);
      if id in panes {
        var block := RowKinds(id, panes[id]) + [Pane(id)];
        RowsDistinct(id, panes[id]);
        forall k | k in PaneKinds(front, panes)
          ensures k !in block
        {
          PaneMembers(front, panes, k);
          RowMembers(id, panes[id], k);
        }
        DistinctConcat(PaneKinds(front, panes), block);
      }
    }
  }

  lemma OverlayDistinct(o: Overlay)
    ensures Distinct(OverlayKinds(o)) && Within(OverlayKinds(o), 5, 6)
  {
    forall k | k in OverlayKinds(o)
      ensures Section(k) == 5
    {
      OverlayMembers(o, k);
    }
    match o
    case Selecting(qs) => DistinctConcat([QuickSelect, QuickSelectList], QuickItems(|qs.labels|));
    case InMenu(m) => DistinctConcat([ContextMenu], ContextItems(|m.separators|));
    case InPalette(l) => DistinctConcat([Palette, PaletteSearch, PaletteList], PaletteItems(l.count));
    case InHosts(l) => DistinctConcat([HostManager], HostItems(l.count));
    case InMacros(l) => DistinctConcat([MacroPicker], MacroItems(l.count));
    case _ =>
  }

  lemma AlertsDistinct(alerts: seq<nat>)
    requires Distinct(alerts)
    ensures Distinct(AlertKinds(alerts)) && Within(AlertKinds(alerts), 7, 8)
  {
    forall k | k in Alerts(alerts)
      ensures k.Alert?
    {
      AlertMembers(alerts, k);
    }
    if alerts != [] {
      DistinctConcat([AlertRegion], Alerts(alerts));
    }
  }

  lemma TabsWithin(order: seq<nat>)
    requires Distinct(order)
    ensures Distinct(Tabs(order)) && Within(Tabs(order), 1, 2)
  {
    forall k | k in Tabs(order)
      ensures Section(k) == 1
    {
      TabsMembers(order, k);
    }
  }

  lemma FixedWithin(visible: bool)
    ensures Distinct([Root, TabBar, PaneArea]) && Within([Root, TabBar, PaneArea], 0, 1)
    ensures Distinct(Buttons(visible)) && Within(Buttons(visible), 2, 3)
    ensures Distinct([PaneInputBuffer]) && Within([PaneInputBuffer], 4, 5)
  {
  }

  lemma BaseDistinct(st: ClientState)
    requires Distinct(TabOrder(st))
    ensures Distinct(BaseKinds(st)) && Within(BaseKinds(st), 0, 5)
  {
    FixedWithin(st.windowButtons);
    TabsWithin(TabOrder(st));
    PanesDistinct(TabOrder(st), st.panes);
    FiveSections([Root, TabBar, PaneArea], Tabs(TabOrder(st)), Buttons(st.windowButtons),
                 PaneKinds(TabOrder(st), st.panes), [PaneInputBuffer]);
  }

  lemma FiveSections(a: seq<Kind>, b: seq<Kind>, c: seq<Kind>, d: seq<Kind>, e: seq<Kind>)
    requires Distinct(a) && Distinct(b) && Distinct(c) && Distinct(d) && Distinct(e)
    requires Within(a, 0, 1) && Within(b, 1, 2) && Within(c, 2, 3) && Within(d, 3, 4) && Within(e, 4, 5)
    ensures Distinct(a + b + c + d + e) && Within(a + b + c + d + e, 0, 5)
  {
    NextSection(a, b, 1);
    NextSection(a + b, c, 2);
    NextSection(a + b + c, d, 3);
    NextSection(a + b + c + d, e, 4);
  }

  lemma KindsDistinct(st: ClientState)
    requires Sound(st)
    ensures Distinct(NodeKinds(st))
  {
    var base, over, bars := BaseKinds(st), OverlayKinds(ActiveOverlay(st)), BarKinds(LiveSlots(st.bars));
    BaseDistinct(st);
    OverlayDistinct(ActiveOverlay(st));
    NextSection(base, over, 5);
    forall k | k in bars
      ensures Section(k) == 6
    {
      BarMembers(LiveSlots(st.bars), k);
    }
    NextSection(base + over, bars, 6);
    AlertsDistinct(st.alerts);
    NextSection(base + over + bars, AlertKinds(st.alerts), 7);
  }

  lemma RootChildrenDistinct(st: ClientState)
    requires Distinct(LiveSlots(st.bars))
    ensures Distinct(RootChildren(st))
  {
    var head := [TabBar, PaneArea] + OverlayRoots(ActiveOverlay(st));
    var bars := BarKinds(LiveSlots(st.bars));
    var tail := if st.alerts == [] then [] else [AlertRegion];
    forall c | c in bars
      ensures c.InfoBar?
    {
      BarMembers(LiveSlots(st.bars), c);
    }
    DistinctConcat(head, bars);
    DistinctConcat(head + bars, tail);
  }

  lemma TabChildrenDistinct(order: seq<nat>, buttons: bool)
    requires Distinct(order)
    ensures Distinct(Tabs(order) + Buttons(buttons)) && Distinct(Panes(order) + [PaneInputBuffer])
  {
    forall c | c in Tabs(order) || c in Panes(order)
      ensures c.Tab? || c.Pane?
    {
      TabsMembers(order, c);
    }
    DistinctConcat(Tabs(order), Buttons(buttons));
    DistinctConcat(Panes(order), [PaneInputBuffer]);
  }

  lemma ChildrenDistinct(st: ClientState, k: Kind)
    requires Sound(st)
    ensures Distinct(ChildrenOf(st, k))
  {
    match k
    case Root => RootChildrenDistinct(st);
    case TabBar => TabChildrenDistinct(TabOrder(st), st.windowButtons);
    case PaneArea => TabChildrenDistinct(TabOrder(st), st.windowButtons);
    case Pane(id) =>
      if id in st.panes {
        DistinctConcat(ScrollbackRows(id, st.panes[id]), ViewportRows(id, st.panes[id]));
      }
    case AlertRegion =>
    case _ => OverlayChildrenDistinct(ActiveOverlay(st), k);
  }

  lemma OverlayChildrenDistinct(o: Overlay, k: Kind)
    ensures Distinct(OverlayChildren(o, k))
  {
  }
}
