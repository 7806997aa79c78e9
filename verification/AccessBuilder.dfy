/**
 The builder of the accessibility update: loops that push identifiers and nodes, overlay by
 overlay, proved to yield exactly the update `AccessModel` describes.
 */
module AccessBuilder {
  import opened Wrappers
  import opened NodeIds
  import opened AccessModel
  import opened AccessTree
  import opened RootedTree
  import opened AccessFocus

  lemma NodesConcat(st: ClientState, a: seq<Kind>, b: seq<Kind>)
    ensures NodesOf(st, a + b) == NodesOf(st, a) + NodesOf(st, b)
    ensures Ids(a + b) == Ids(a) + Ids(b)
  {
    NodesJoin(st, a, b);
  }

  lemma NodesJoin(st: ClientState, a: seq<Kind>, b: seq<Kind>)
    ensures NodesOf(st, a + b) == NodesOf(st, a) + NodesOf(st, b)
  {
    assert forall i :: 0 <= i < |b| ==> (a + b)[|a| + i] == b[i];
  }

  lemma NodesConcat4(st: ClientState, a: seq<Kind>, b: seq<Kind>, c: seq<Kind>, d: seq<Kind>)
    ensures NodesOf(st, a + b + c + d) == NodesOf(st, a) + NodesOf(st, b) + NodesOf(st, c) + NodesOf(st, d)
    ensures Ids(a + b + c + d) == Ids(a) + Ids(b) + Ids(c) + Ids(d)
  {
    NodesConcat(st, a, b);
    NodesConcat(st, a + b, c);
    NodesConcat(st, a + b + c, d);
  }

  lemma NodesThree(st: ClientState, a: Kind, b: Kind, c: Kind)
    ensures NodesOf(st, [a]) == [(Encode(a), NodeOf(st, a))] && Ids([a]) == [Encode(a)]
    ensures NodesOf(st, [a, b]) == [(Encode(a), NodeOf(st, a)), (Encode(b), NodeOf(st, b))]
    ensures NodesOf(st, [a, b, c]) ==
            [(Encode(a), NodeOf(st, a)), (Encode(b), NodeOf(st, b)), (Encode(c), NodeOf(st, c))]
    ensures Ids([a, b]) == [Encode(a), Encode(b)]
  {
  }

  lemma LeafNode(st: ClientState, k: Kind)
    requires !IsContainer(k) && !k.PaneRow? && !k.PaneScrollbackRow?
    ensures NodeOf(st, k) == Plain(RoleOf(st, k), [])
  {
    OnlyContainersHaveChildren(st, k);
    assert Ids([]) == [];
  }

  lemma ContainerNode(st: ClientState, k: Kind)
    requires IsContainer(k) && !k.Pane?
    ensures NodeOf(st, k) == Plain(RoleOf(st, k), Ids(ChildrenOf(st, k)))
  {
  }

  /** Replacing the first element leaves the rest alone. */
  lemma SwapHead<T>(a: seq<T>, b: seq<T>, r1: seq<T>, r2: seq<T>, r3: seq<T>)
    requires |a| == |b| > 0 && a[1..] == b[1..]
    ensures (b + r1 + r2 + r3)[0 := a[0]] == a + r1 + r2 + r3
  {
    assert a == [a[0]] + a[1..] && b == [b[0]] + b[1..];
  }

  lemma SameTail<T>(a: seq<T>, b: seq<T>, r1: seq<T>, r2: seq<T>, r3: seq<T>, r4: seq<T>)
    requires |a| == |b| > 0 && a[1..] == b[1..]
    ensures (b + r1 + r2 + r3 + r4)[1..] == (a + r1 + r2 + r3 + r4)[1..]
    ensures |b + r1 + r2 + r3 + r4| == |a + r1 + r2 + r3 + r4|
  {
    var rest := r1 + r2 + r3 + r4;
    assert b + r1 + r2 + r3 + r4 == b + rest && a + r1 + r2 + r3 + r4 == a + rest;
    assert (b + rest)[1..] == b[1..] + rest && (a + rest)[1..] == a[1..] + rest;
  }

  /** These kinds have neither children nor text, and all the same role. */
  ghost predicate AreLeaves(st: ClientState, ks: seq<Kind>, role: Role) {
    forall k :: k in ks ==> !IsContainer(k) && !k.PaneRow? && !k.PaneScrollbackRow? && RoleOf(st, k) == role
  }

  lemma OptionsAreLeaves(st: ClientState, n: nat)
    ensures AreLeaves(st, PaletteItems(n), ListBoxOption) && AreLeaves(st, HostItems(n), ListBoxOption)
    ensures AreLeaves(st, MacroItems(n), ListBoxOption)
  {
  }

  /** One leaf node per kind, all in one role. */
  method PushLeaves(ghost st: ClientState, ks: seq<Kind>, role: Role) returns (nodes: Update)
    requires AreLeaves(st, ks, role)
    ensures nodes == NodesOf(st, ks)
  {
    nodes := [];
    for i := 0 to |ks|
      invariant nodes == NodesOf(st, ks[..i])
    {
      LeafNode(st, ks[i]);
      nodes := nodes + [(Encode(ks[i]), Plain(role, []))];
    }
    assert ks[..|ks|] == ks;
  }

  /** Row nodes of one pane: the scrollback window, then the viewport; the cursor row of the
      focused pane sets the caret. */
  method PushRows(st: ClientState, id: nat) returns (childIds: seq<nat>, nodes: Update, caret: Option<Caret>)
    requires id in st.panes
    ensures childIds == Ids(RowKinds(id, st.panes[id])) && nodes == NodesOf(st, RowKinds(id, st.panes[id]))
    ensures caret == CaretOf(st.focusedPane, id, st.panes[id])
  {
    var pane := st.panes[id];
    childIds, nodes := PushScrollback(st, id);
    ghost var front := ScrollbackRows(id, pane);
    caret := None;
    var rows := RowCount(pane);
    for row := 0 to rows
      invariant childIds == Ids(front + ViewportRows(id, pane)[..row])
      invariant nodes == NodesOf(st, front + ViewportRows(id, pane)[..row])
      invariant caret == if pane.cursorRow < row then CaretOf(st.focusedPane, id, pane) else None
    {
      var rowId := Encode(PaneRow(id, row));
      if st.focusedPane == Some(id) && row == pane.cursorRow {
        caret := Some(Caret(rowId, CaretIndex(RowText(pane.rows[row]), pane.cursorCol)));
      }
      ViewportStep(st, id, row);
      childIds := childIds + [rowId];
      nodes := nodes + [(rowId, RowNode(pane.rows[row]))];
    }
    assert front + ViewportRows(id, pane)[..rows] == RowKinds(id, pane);
  }

  /** One more row of the scrollback window. */
  lemma ScrollbackStep(st: ClientState, id: nat, k: nat)
    requires id in st.panes && WindowStart(st.panes[id]) + k < WindowEnd(st.panes[id])
    ensures var p := st.panes[id];
            var ks, i := ScrollbackRows(id, p), WindowStart(p) + k;
            && k < |ks| && i < |p.scrollback|
            && Ids(ks[..k + 1]) == Ids(ks[..k]) + [Encode(PaneScrollbackRow(id, i))]
            && NodesOf(st, ks[..k + 1])
               == NodesOf(st, ks[..k]) + [(Encode(PaneScrollbackRow(id, i)), RowNode(p.scrollback[i]))]
  {
    var p := st.panes[id];
    var ks, i := ScrollbackRows(id, p), WindowStart(p) + k;
    assert ks[k] == PaneScrollbackRow(id, i);
    assert NodeOf(st, ks[k]) == RowNode(p.scrollback[i]);
  }

  /** One more row of the viewport, behind the scrollback window. */
  lemma ViewportStep(st: ClientState, id: nat, row: nat)
    requires id in st.panes && row < RowCount(st.panes[id])
    ensures var p := st.panes[id];
            var front, ks := ScrollbackRows(id, p), ViewportRows(id, p);
            && row < |ks| && row < |p.rows|
            && Ids(front + ks[..row + 1]) == Ids(front + ks[..row]) + [Encode(PaneRow(id, row))]
            && NodesOf(st, front + ks[..row + 1])
               == NodesOf(st, front + ks[..row]) + [(Encode(PaneRow(id, row)), RowNode(p.rows[row]))]
  {
    var p := st.panes[id];
    var front, ks := ScrollbackRows(id, p), ViewportRows(id, p);
    assert ks[row] == PaneRow(id, row) && NodeOf(st, ks[row]) == RowNode(p.rows[row]);
    assert front + ks[..row + 1] == (front + ks[..row]) + [ks[row]];
  }

  method PushScrollback(st: ClientState, id: nat) returns (childIds: seq<nat>, nodes: Update)
    requires id in st.panes
    ensures childIds == Ids(ScrollbackRows(id, st.panes[id]))
    ensures nodes == NodesOf(st, ScrollbackRows(id, st.panes[id]))
  {
    var pane := st.panes[id];
    childIds, nodes := [], [];
    var start, end := WindowStart(pane), WindowEnd(pane);
    ghost var ks := ScrollbackRows(id, pane);
    var i := start;
    while i < end
      invariant start <= i <= end
      invariant childIds == Ids(ks[..i - start]) && nodes == NodesOf(st, ks[..i - start])
    {
      var rowId := Encode(PaneScrollbackRow(id, i));
      ScrollbackStep(st, id, i - start);
      childIds := childIds + [rowId];
      nodes := nodes + [(rowId, RowNode(pane.scrollback[i]))];
      i := i + 1;
    }
    assert ks[..end - start] == ks;
  }

  lemma PaneBlock(st: ClientState, order: seq<nat>, id: nat)
    ensures NodesOf(st, PaneKinds(order + [id], st.panes)) ==
            NodesOf(st, PaneKinds(order, st.panes))
            + (if id in st.panes
               then NodesOf(st, RowKinds(id, st.panes[id])) + [(Encode(Pane(id)), NodeOf(st, Pane(id)))] else [])
  {
    assert (order + [id])[..|order|] == order;
    if id in st.panes {
      var block := RowKinds(id, st.panes[id]);
      NodesThree(st, Pane(id), Pane(id), Pane(id));
      NodesConcat(st, block, [Pane(id)]);
      NodesConcat(st, PaneKinds(order, st.panes), block + [Pane(id)]);
    } else {
      assert PaneKinds(order + [id], st.panes) == PaneKinds(order, st.panes);
    }
  }

  /** Rows and body of every pane in tab order; a tab without a pane is skipped. */
  method PushPanes(st: ClientState) returns (nodes: Update)
    ensures nodes == NodesOf(st, PaneKinds(TabOrder(st), st.panes))
  {
    nodes := [];
    var order := TabOrder(st);
    for i := 0 to |order|
      invariant nodes == NodesOf(st, PaneKinds(order[..i], st.panes))
    {
      var id := order[i];
      assert order[..i + 1] == order[..i] + [id];
      PaneBlock(st, order[..i], id);
      if id in st.panes {
        var childIds, rows, caret := PushRows(st, id);
        nodes := nodes + (rows + [(Encode(Pane(id)), Node(Terminal, childIds, "", [], caret))]);
      }
    }
    assert order[..|order|] == order;
  }

  /** Identifiers of the tabs and of the panes, in tab order. */
  method TabAndPaneIds(order: seq<nat>) returns (tabIds: seq<nat>, paneIds: seq<nat>)
    ensures tabIds == Ids(Tabs(order)) && paneIds == Ids(Panes(order))
  {
    tabIds, paneIds := [], [];
    for i := 0 to |order|
      invariant tabIds == Ids(Tabs(order)[..i]) && paneIds == Ids(Panes(order)[..i])
    {
      tabIds := tabIds + [Encode(Tab(order[i]))];
      paneIds := paneIds + [Encode(Pane(order[i]))];
    }
    assert Tabs(order)[..|order|] == Tabs(order) && Panes(order)[..|order|] == Panes(order);
  }

  /** The tentative root, the tab bar and the pane area. */
  method BuildHead(st: ClientState) returns (head: Update)
    ensures |head| == 3 && head[1..] == NodesOf(st, [Root, TabBar, PaneArea])[1..]
  {
    var tabIds, paneIds := TabAndPaneIds(TabOrder(st));
    var root := (Encode(Root), Plain(Window, [Encode(TabBar), Encode(PaneArea)]));
    var bar := (Encode(TabBar), Plain(TabList, tabIds + Ids(Buttons(st.windowButtons))));
    var area := (Encode(PaneArea), Plain(Group, paneIds + [Encode(PaneInputBuffer)]));
    BarAndAreaNodes(st);
    HeadNodes(st, root, bar, area);
    head := [root, bar, area];
  }

  lemma TabsAreLeaves(st: ClientState, order: seq<nat>)
    ensures AreLeaves(st, Tabs(order), TabRole)
  {
    forall k | k in Tabs(order)
      ensures k.Tab?
    {
      TabsMembers(order, k);
    }
  }

  lemma ButtonsAreLeaves(st: ClientState)
    ensures AreLeaves(st, Buttons(st.windowButtons), Button)
  {
  }

  /** The tab nodes, then the window buttons. */
  method BuildTabs(st: ClientState) returns (tabs: Update, buttons: Update)
    ensures tabs == NodesOf(st, Tabs(TabOrder(st))) && buttons == NodesOf(st, Buttons(st.windowButtons))
  {
    TabsAreLeaves(st, TabOrder(st));
    ButtonsAreLeaves(st);
    tabs := PushLeaves(st, Tabs(TabOrder(st)), TabRole);
    buttons := PushLeaves(st, Buttons(st.windowButtons), Button);
  }

  /** Everything but overlays, bars and alerts; the root's children are still tentative. */
  method BuildBaseNodes(st: ClientState) returns (nodes: Update)
    ensures |nodes| == |BaseKinds(st)| > 0 && nodes[1..] == NodesOf(st, BaseKinds(st))[1..]
  {
    var head := BuildHead(st);
    var tabs, buttons := BuildTabs(st);
    var panes := PushPanes(st);
    var input := [(Encode(PaneInputBuffer), Plain(TextInput, []))];
    InputNode(st);
    nodes := head + tabs + buttons + panes + input;
    BaseSections(st);
    SameTail(NodesOf(st, [Root, TabBar, PaneArea]), head, tabs, buttons, panes, input);
  }

  lemma InputNode(st: ClientState)
    ensures NodesOf(st, [PaneInputBuffer]) == [(Encode(PaneInputBuffer), Plain(TextInput, []))]
  {
    NodesThree(st, PaneInputBuffer, PaneInputBuffer, PaneInputBuffer);
    LeafNode(st, PaneInputBuffer);
  }

  lemma BarAndAreaNodes(st: ClientState)
    ensures NodeOf(st, TabBar) == Plain(TabList, Ids(Tabs(TabOrder(st))) + Ids(Buttons(st.windowButtons)))
    ensures NodeOf(st, PaneArea) == Plain(Group, Ids(Panes(TabOrder(st))) + [Encode(PaneInputBuffer)])
  {
    ContainerNode(st, TabBar);
    ContainerNode(st, PaneArea);
    NodesConcat(st, Tabs(TabOrder(st)), Buttons(st.windowButtons));
    NodesConcat(st, Panes(TabOrder(st)), [PaneInputBuffer]);
    NodesThree(st, PaneInputBuffer, PaneInputBuffer, PaneInputBuffer);
  }

  /** The base nodes, section by section. */
  lemma BaseSections(st: ClientState)
    ensures NodesOf(st, BaseKinds(st)) ==
            NodesOf(st, [Root, TabBar, PaneArea]) + NodesOf(st, Tabs(TabOrder(st)))
            + NodesOf(st, Buttons(st.windowButtons)) + NodesOf(st, PaneKinds(TabOrder(st), st.panes))
            + NodesOf(st, [PaneInputBuffer])
  {
    var a, b := [Root, TabBar, PaneArea], Tabs(TabOrder(st));
    var c, d := Buttons(st.windowButtons), PaneKinds(TabOrder(st), st.panes);
    NodesConcat4(st, a, b, c, d);
    NodesConcat(st, a + b + c + d, [PaneInputBuffer]);
  }

  lemma HeadNodes(st: ClientState, root: (nat, Node), bar: (nat, Node), area: (nat, Node))
    requires bar == (Encode(TabBar), NodeOf(st, TabBar)) && area == (Encode(PaneArea), NodeOf(st, PaneArea))
    ensures [root, bar, area][1..] == NodesOf(st, [Root, TabBar, PaneArea])[1..]
  {
    NodesThree(st, Root, TabBar, PaneArea);
  }

  /** One option per match; remembers the first one typed towards. */
  method PushMatches(ghost st: ClientState, qs: QuickSelectState) returns (items: Update, focusIdx: Option<nat>)
    ensures items == NodesOf(st, QuickItems(|qs.labels|))
    ensures focusIdx == if qs.typed != "" && FirstPrefixed(qs.labels, qs.typed) < |qs.labels|
                        then Some(FirstPrefixed(qs.labels, qs.typed)) else None
  {
    items, focusIdx := [], None;
    ghost var ks := QuickItems(|qs.labels|);
    for i := 0 to |qs.labels|
      invariant items == NodesOf(st, ks[..i])
      invariant focusIdx.None? ==> qs.typed == "" || FirstPrefixed(qs.labels, qs.typed) >= i
      invariant focusIdx.Some? ==> qs.typed != "" && focusIdx.value == FirstPrefixed(qs.labels, qs.typed) < i
    {
      LeafNode(st, QuickSelectItem(i));
      NodesSnoc(st, ks, i);
      if qs.typed != "" && qs.typed <= qs.labels[i] && focusIdx.None? {
        focusIdx := Some(i);
      }
      items := items + [(Encode(QuickSelectItem(i)), Plain(ListBoxOption, []))];
    }
    assert ks[..|qs.labels|] == ks;
  }

  lemma QuickSelectHead(st: ClientState, qs: QuickSelectState)
    requires ActiveOverlay(st) == Selecting(qs)
    ensures NodesOf(st, [QuickSelect, QuickSelectList]) ==
            [(Encode(QuickSelect), Plain(Dialog, [Encode(QuickSelectList)])),
             (Encode(QuickSelectList), Plain(ListBox, Ids(QuickItems(|qs.labels|))))]
  {
    NodesThree(st, QuickSelect, QuickSelectList, QuickSelectList);
    NodesThree(st, QuickSelectList, QuickSelectList, QuickSelectList);
    ContainerNode(st, QuickSelect);
    ContainerNode(st, QuickSelectList);
  }

  method BuildQuickSelect(st: ClientState, qs: QuickSelectState) returns (nodes: Update, focus: nat)
    requires ActiveOverlay(st) == Selecting(qs)
    ensures nodes == NodesOf(st, OverlayKinds(Selecting(qs))) && focus == Encode(FocusOf(st))
    ensures FocusFits(st, nodes, focus)
  {
    FocusFitsOverlay(st, OverlayKinds(ActiveOverlay(st)));
    var items, focusIdx := PushMatches(st, qs);
    QuickSelectHead(st, qs);
    var dialog := (Encode(QuickSelect), Plain(Dialog, [Encode(QuickSelectList)]));
    var list := (Encode(QuickSelectList), Plain(ListBox, Ids(QuickItems(|qs.labels|))));
    nodes := [dialog, list] + items;
    NodesConcat(st, [QuickSelect, QuickSelectList], QuickItems(|qs.labels|));
    focus := match focusIdx
      case Some(i) => Encode(QuickSelectItem(i))
      case None => if qs.labels != [] then Encode(QuickSelectItem(0)) else Encode(QuickSelectList);
  }

  lemma NodesSnoc(st: ClientState, ks: seq<Kind>, i: nat)
    requires i < |ks|
    ensures NodesOf(st, ks[..i + 1]) == NodesOf(st, ks[..i]) + [(Encode(ks[i]), NodeOf(st, ks[i]))]
  {
    assert ks[..i + 1][..i] == ks[..i];
    var more, less := NodesOf(st, ks[..i + 1]), NodesOf(st, ks[..i]);
    assert more[i] == (Encode(ks[i]), NodeOf(st, ks[i]));
    assert forall j :: 0 <= j < i ==> more[j] == less[j];
  }

  /** One node per menu entry: a splitter for a separator, an item otherwise. */
  method PushMenuItems(st: ClientState, m: Menu) returns (items: Update)
    requires ActiveOverlay(st) == InMenu(m)
    ensures items == NodesOf(st, ContextItems(|m.separators|))
  {
    items := [];
    ghost var ks := ContextItems(|m.separators|);
    for i := 0 to |m.separators|
      invariant items == NodesOf(st, ks[..i])
    {
      LeafNode(st, ContextItem(i));
      NodesSnoc(st, ks, i);
      items := items + [(Encode(ContextItem(i)), Plain(if m.separators[i] then Splitter else MenuItem, []))];
    }
    assert ks[..|m.separators|] == ks;
  }

  lemma MenuHead(st: ClientState, m: Menu)
    requires ActiveOverlay(st) == InMenu(m)
    ensures NodesOf(st, [ContextMenu] + ContextItems(|m.separators|)) ==
            [(Encode(ContextMenu), Plain(MenuRole, Ids(ContextItems(|m.separators|))))]
            + NodesOf(st, ContextItems(|m.separators|))
  {
    ContainerNode(st, ContextMenu);
    NodesConcat(st, [ContextMenu], ContextItems(|m.separators|));
  }

  method BuildContextMenu(st: ClientState, m: Menu) returns (nodes: Update, focus: nat)
    requires ActiveOverlay(st) == InMenu(m)
    ensures nodes == NodesOf(st, OverlayKinds(InMenu(m))) && focus == Encode(FocusOf(st))
    ensures FocusFits(st, nodes, focus)
  {
    FocusFitsOverlay(st, OverlayKinds(ActiveOverlay(st)));
    var items := PushMenuItems(st, m);
    MenuHead(st, m);
    nodes := [(Encode(ContextMenu), Plain(MenuRole, Ids(ContextItems(|m.separators|))))] + items;
    focus := if m.hovered.Some? && m.hovered.value < |m.separators| then Encode(ContextItem(m.hovered.value))
             else Encode(ContextMenu);
  }

  lemma CloseDialogNodes(st: ClientState, button: nat)
    requires ActiveOverlay(st) == Closing(button)
    ensures NodesOf(st, OverlayKinds(Closing(button))) ==
            [(Encode(CloseDialog), Plain(AlertDialog, [Encode(CloseDialogKill), Encode(CloseDialogCancel)])),
             (Encode(CloseDialogKill), Plain(Button, [])), (Encode(CloseDialogCancel), Plain(Button, []))]
  {
    LeafNode(st, CloseDialogKill);
    LeafNode(st, CloseDialogCancel);
    ContainerNode(st, CloseDialog);
    NodesThree(st, CloseDialog, CloseDialogKill, CloseDialogCancel);
    NodesThree(st, CloseDialogKill, CloseDialogCancel, CloseDialogCancel);
  }

  method BuildCloseDialog(st: ClientState, button: nat) returns (nodes: Update, focus: nat)
    requires ActiveOverlay(st) == Closing(button)
    ensures nodes == NodesOf(st, OverlayKinds(Closing(button))) && focus == Encode(FocusOf(st))
    ensures FocusFits(st, nodes, focus)
  {
    FocusFitsOverlay(st, OverlayKinds(ActiveOverlay(st)));
    CloseDialogNodes(st, button);
    nodes := [(Encode(CloseDialog), Plain(AlertDialog, [Encode(CloseDialogKill), Encode(CloseDialogCancel)])),
              (Encode(CloseDialogKill), Plain(Button, [])), (Encode(CloseDialogCancel), Plain(Button, []))];
    focus := match button
      case 0 => Encode(CloseDialogKill)
      case 1 => Encode(CloseDialogCancel)
      case _ => Encode(CloseDialogKill);
  }

  lemma PaletteHead(st: ClientState, l: Listing)
    requires ActiveOverlay(st) == InPalette(l)
    ensures NodesOf(st, [Palette, PaletteSearch, PaletteList]) ==
            [(Encode(Palette), Plain(Dialog, [Encode(PaletteSearch), Encode(PaletteList)])),
             (Encode(PaletteSearch), Plain(SearchInput, [])),
             (Encode(PaletteList), Plain(ListBox, Ids(PaletteItems(l.count))))]
  {
    LeafNode(st, PaletteSearch);
    ContainerNode(st, Palette);
    ContainerNode(st, PaletteList);
    NodesThree(st, Palette, PaletteSearch, PaletteList);
    NodesThree(st, PaletteSearch, PaletteList, PaletteList);
  }

  method BuildPalette(st: ClientState, l: Listing) returns (nodes: Update, focus: nat)
    requires ActiveOverlay(st) == InPalette(l)
    ensures nodes == NodesOf(st, OverlayKinds(InPalette(l))) && focus == Encode(FocusOf(st))
    ensures FocusFits(st, nodes, focus)
  {
    FocusFitsOverlay(st, OverlayKinds(ActiveOverlay(st)));
    PaletteHead(st, l);
    nodes := [(Encode(Palette), Plain(Dialog, [Encode(PaletteSearch), Encode(PaletteList)])),
              (Encode(PaletteSearch), Plain(SearchInput, [])),
              (Encode(PaletteList), Plain(ListBox, Ids(PaletteItems(l.count))))];
    OptionsAreLeaves(st, l.count);
    var items := PushLeaves(st, PaletteItems(l.count), ListBoxOption);
    nodes := nodes + items;
    NodesConcat(st, [Palette, PaletteSearch, PaletteList], PaletteItems(l.count));
    focus := if l.count == 0 || l.selected >= l.count then Encode(PaletteSearch) else Encode(PaletteItem(l.selected));
  }

  method BuildHostManager(st: ClientState, l: Listing) returns (nodes: Update, focus: nat)
    requires ActiveOverlay(st) == InHosts(l)
    ensures nodes == NodesOf(st, OverlayKinds(InHosts(l))) && focus == Encode(FocusOf(st))
    ensures FocusFits(st, nodes, focus)
  {
    FocusFitsOverlay(st, OverlayKinds(ActiveOverlay(st)));
    OptionsAreLeaves(st, l.count);
    var items := PushLeaves(st, HostItems(l.count), ListBoxOption);
    nodes := [(Encode(HostManager), Plain(Dialog, Ids(HostItems(l.count))))] + items;
    NodesConcat(st, [HostManager], HostItems(l.count));
    focus := if l.count == 0 || l.selected >= l.count then Encode(HostManager) else Encode(HostItem(l.selected));
  }

  method BuildMacroPicker(st: ClientState, l: Listing) returns (nodes: Update, focus: nat)
    requires ActiveOverlay(st) == InMacros(l)
    ensures nodes == NodesOf(st, OverlayKinds(InMacros(l))) && focus == Encode(FocusOf(st))
    ensures FocusFits(st, nodes, focus)
  {
    FocusFitsOverlay(st, OverlayKinds(ActiveOverlay(st)));
    OptionsAreLeaves(st, l.count);
    var items := PushLeaves(st, MacroItems(l.count), ListBoxOption);
    nodes := [(Encode(MacroPicker), Plain(Dialog, Ids(MacroItems(l.count))))] + items;
    NodesConcat(st, [MacroPicker], MacroItems(l.count));
    focus := if l.count == 0 || l.selected >= l.count then Encode(MacroPicker) else Encode(MacroItem(l.selected));
  }

  /** The frontmost overlay, in priority order; without one the focused pane has the focus. */
  method BuildOverlay(st: ClientState) returns (nodes: Update, roots: seq<nat>, focus: nat)
    ensures nodes == NodesOf(st, OverlayKinds(ActiveOverlay(st))) && roots == Ids(OverlayRoots(ActiveOverlay(st)))
    ensures focus == Encode(FocusOf(st)) && FocusFits(st, nodes, focus)
  {
    if st.closeDialog.Some? {
      nodes, focus := BuildCloseDialog(st, st.closeDialog.value);
      roots := [Encode(CloseDialog)];
    } else if st.quickSelect.Some? {
      nodes, focus := BuildQuickSelect(st, st.quickSelect.value);
      roots := [Encode(QuickSelect)];
    } else if st.contextMenu.Some? {
      nodes, focus := BuildContextMenu(st, st.contextMenu.value);
      roots := [Encode(ContextMenu)];
    } else if st.palette.Some? {
      nodes, focus := BuildPalette(st, st.palette.value);
      roots := [Encode(Palette)];
    } else if st.hostManager.Some? {
      nodes, focus := BuildHostManager(st, st.hostManager.value);
      roots := [Encode(HostManager)];
    } else if st.macroPicker.Some? {
      nodes, focus := BuildMacroPicker(st, st.macroPicker.value);
      roots := [Encode(MacroPicker)];
    } else {
      nodes, roots := [], [];
      focus := match st.focusedPane case Some(p) => Encode(Pane(p)) case None => Encode(Root);
    }
  }

  /** One alert node per bar that has not been dismissed. */
  lemma BarStep(st: ClientState, slots: seq<Slot>, slot: Slot)
    ensures Ids(BarKinds(slots + [slot])) == Ids(BarKinds(slots)) + [Encode(InfoBar(slot))]
    ensures NodesOf(st, BarKinds(slots + [slot]))
            == NodesOf(st, BarKinds(slots)) + [(Encode(InfoBar(slot)), Plain(AlertRole, []))]
  {
    LeafNode(st, InfoBar(slot));
    assert BarKinds(slots + [slot]) == BarKinds(slots) + [InfoBar(slot)];
  }

  method PushBars(st: ClientState) returns (nodes: Update, ids: seq<nat>)
    ensures nodes == NodesOf(st, BarKinds(LiveSlots(st.bars))) && ids == Ids(BarKinds(LiveSlots(st.bars)))
  {
    nodes, ids := [], [];
    ghost var slots: seq<Slot> := [];
    var i := 0;
    while i < |st.bars|
      invariant 0 <= i <= |st.bars|
      invariant slots + LiveSlots(st.bars[i..]) == LiveSlots(st.bars)
      invariant nodes == NodesOf(st, BarKinds(slots)) && ids == Ids(BarKinds(slots))
    {
      var bar := st.bars[i];
      assert st.bars[i..][1..] == st.bars[i + 1..];
      if !bar.dismissed {
        BarStep(st, slots, bar.slot);
        assert slots + ([bar.slot] + LiveSlots(st.bars[i + 1..])) == (slots + [bar.slot]) + LiveSlots(st.bars[i + 1..]);
        nodes := nodes + [(Encode(InfoBar(bar.slot)), Plain(AlertRole, []))];
        ids := ids + [Encode(InfoBar(bar.slot))];
        slots := slots + [bar.slot];
      }
      i := i + 1;
    }
    assert slots + [] == slots;
  }

  /** The alert region and its alerts, or nothing when there are none. */
  method BuildAlertRegion(st: ClientState) returns (nodes: Update)
    ensures nodes == NodesOf(st, AlertKinds(st.alerts)) && (nodes == [] <==> st.alerts == [])
  {
    if st.alerts == [] {
      return [];
    }
    forall k | k in Alerts(st.alerts)
      ensures k.Alert?
    {
      AlertMembers(st.alerts, k);
    }
    var alerts := PushLeaves(st, Alerts(st.alerts), AlertRole);
    nodes := [(Encode(AlertRegion), Plain(Group, Ids(Alerts(st.alerts))))] + alerts;
    NodesConcat(st, [AlertRegion], Alerts(st.alerts));
  }

  /** The whole update: identifiers with nodes, and the focus. */
  method BuildTree(st: ClientState) returns (nodes: Update, focus: nat)
    ensures nodes == TreeUpdate(st) && focus == Encode(FocusOf(st))
    ensures FocusFits(st, nodes, focus)
    ensures forall id :: id in TabOrder(st) && id in st.panes ==> CaretFollows(st, id, nodes)
  {
    FocusFollowsState(st);
    CaretsFollowCursors(st);
    nodes := BuildBaseNodes(st);
    ghost var base := nodes;
    var rootChildren := [Encode(TabBar), Encode(PaneArea)];
    var overlayNodes, overlayRoots, f := BuildOverlay(st);
    focus := f;
    nodes := nodes + overlayNodes;
    rootChildren := rootChildren + overlayRoots;
    var barNodes, barIds := PushBars(st);
    nodes := nodes + barNodes;
    rootChildren := rootChildren + barIds;
    var alertNodes := BuildAlertRegion(st);
    if alertNodes != [] {
      nodes := nodes + alertNodes;
      rootChildren := rootChildren + [Encode(AlertRegion)];
    }
    RootIds(st, overlayRoots, barIds);
    assert rootChildren == [Encode(TabBar), Encode(PaneArea)] + overlayRoots + barIds
                           + (if st.alerts == [] then [] else [Encode(AlertRegion)]);
    var root := (Encode(Root), Plain(Window, rootChildren));
    ContainerNode(st, Root);
    assert nodes == base + overlayNodes + barNodes + alertNodes;
    WholeLayout(st, base, overlayNodes, barNodes, alertNodes, root);
    nodes := nodes[0 := root];
  }

  lemma RootIds(st: ClientState, overlayRoots: seq<nat>, barIds: seq<nat>)
    requires overlayRoots == Ids(OverlayRoots(ActiveOverlay(st))) && barIds == Ids(BarKinds(LiveSlots(st.bars)))
    ensures Ids(RootChildren(st)) ==
            [Encode(TabBar), Encode(PaneArea)] + overlayRoots + barIds
            + (if st.alerts == [] then [] else [Encode(AlertRegion)])
  {
    var tail := if st.alerts == [] then [] else [AlertRegion];
    NodesConcat4(st, [TabBar, PaneArea], OverlayRoots(ActiveOverlay(st)), BarKinds(LiveSlots(st.bars)), tail);
    NodesThree(st, TabBar, PaneArea, PaneArea);
    NodesThree(st, AlertRegion, AlertRegion, AlertRegion);
    assert Ids([]) == [];
  }

  lemma WholeLayout(st: ClientState, base: Update, over: Update, bars: Update, alerts: Update, root: (nat, Node))
    requires |base| == |BaseKinds(st)| > 0 && base[1..] == NodesOf(st, BaseKinds(st))[1..]
    requires over == NodesOf(st, OverlayKinds(ActiveOverlay(st))) && bars == NodesOf(st, BarKinds(LiveSlots(st.bars)))
    requires alerts == NodesOf(st, AlertKinds(st.alerts)) && root == (Encode(Root), NodeOf(st, Root))
    ensures (base + over + bars + alerts)[0 := root] == TreeUpdate(st)
  {
    NodesConcat4(st, BaseKinds(st), OverlayKinds(ActiveOverlay(st)), BarKinds(LiveSlots(st.bars)),
                 AlertKinds(st.alerts));
    FirstNode(st, BaseKinds(st), Root);
    SwapHead(NodesOf(st, BaseKinds(st)), base, over, bars, alerts);
  }

  lemma FirstNode(st: ClientState, ks: seq<Kind>, k: Kind)
    requires ks != [] && ks[0] == k
    ensures |NodesOf(st, ks)| == |ks| && NodesOf(st, ks)[0] == (Encode(k), NodeOf(st, k))
  {
  }
}
