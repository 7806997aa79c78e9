/**
 Where the focus and the caret of the accessibility update are, told from the client state and
 the listed nodes.
 */
module AccessFocus {
  import opened Wrappers
  import opened NodeIds
  import opened AccessModel
  import opened AccessTree
  import opened RootedTree

  // ----- Focus -----

  /** The node `list` has these children, and the focus is on the one at `at`, or else on `fallback`. */
  ghost predicate FocusesChild(update: Update, list: Kind, children: seq<Kind>, at: nat, fallback: Kind, focus: nat) {
    && (exists j :: 0 <= j < |update| && update[j].0 == Encode(list) && update[j].1.children == Ids(children))
    && focus == Encode(if at < |children| then children[at] else fallback)
  }

  /** The first label that starts with what was typed, if anything was, is the one at `i`. */
  ghost predicate IsFirstMatch(qs: QuickSelectState, i: nat) {
    && qs.typed != "" && i < |qs.labels| && qs.typed <= qs.labels[i]
    && forall j :: 0 <= j < i ==> !(qs.typed <= qs.labels[j])
  }

  ghost predicate FocusesMatch(update: Update, qs: QuickSelectState, focus: nat) {
    var items := QuickItems(|qs.labels|);
    && (forall i :: IsFirstMatch(qs, i) ==> FocusesChild(update, QuickSelectList, items, i, QuickSelectList, focus))
    && ((forall i :: !IsFirstMatch(qs, i)) ==>
          FocusesChild(update, QuickSelectList, items, 0, QuickSelectList, focus))
  }

  /**
   The focus goes to the frontmost overlay: to the dialog button selected, the first one for any
   other value; to the first match of what was typed, the first match of all when there is none;
   to the menu item under the pointer; to the list entry selected. Each has a node to fall back to.
   Without an overlay it goes to the focused pane, or to the window.
   */
  ghost predicate FocusFits(st: ClientState, update: Update, focus: nat) {
    if st.closeDialog.Some? then
      var button := st.closeDialog.value;
      FocusesChild(update, CloseDialog, [CloseDialogKill, CloseDialogCancel], if button < 2 then button else 0,
                   CloseDialog, focus)
    else if st.quickSelect.Some? then FocusesMatch(update, st.quickSelect.value, focus)
    else if st.contextMenu.Some? then
      var m := st.contextMenu.value;
      FocusesChild(update, ContextMenu, ContextItems(|m.separators|),
                   if m.hovered.Some? then m.hovered.value else |m.separators|, ContextMenu, focus)
    else if st.palette.Some? then
      var l := st.palette.value;
      FocusesChild(update, PaletteList, PaletteItems(l.count), l.selected, PaletteSearch, focus)
    else if st.hostManager.Some? then
      var l := st.hostManager.value;
      FocusesChild(update, HostManager, HostItems(l.count), l.selected, HostManager, focus)
    else if st.macroPicker.Some? then
      var l := st.macroPicker.value;
      FocusesChild(update, MacroPicker, MacroItems(l.count), l.selected, MacroPicker, focus)
    else focus == Encode(if st.focusedPane.Some? then Pane(st.focusedPane.value) else Root)
  }

  lemma {:induction false} ListedChild(st: ClientState, ks: seq<Kind>, list: Kind, children: seq<Kind>, at: nat,
                                       fallback: Kind, focus: Kind)
    requires list in ks && !list.PaneRow? && !list.PaneScrollbackRow? && ChildrenOf(st, list) == children
    requires focus == if at < |children| then children[at] else fallback
    ensures FocusesChild(NodesOf(st, ks), list, children, at, fallback, Encode(focus))
  {
    var j := NodeListed(st, ks, list);
    assert NodesOf(st, ks)[j].1.children == Ids(children);
  }

  lemma {:induction false} MatchFits(st: ClientState, ks: seq<Kind>, qs: QuickSelectState)
    requires ActiveOverlay(st) == Selecting(qs) && QuickSelectList in ks
    ensures FocusesMatch(NodesOf(st, ks), qs, Encode(FocusOf(st)))
  {
    var items, first := QuickItems(|qs.labels|), FirstPrefixed(qs.labels, qs.typed);
    if qs.typed != "" && first < |qs.labels| {
      assert IsFirstMatch(qs, first);
      forall i | IsFirstMatch(qs, i)
        ensures FocusesChild(NodesOf(st, ks), QuickSelectList, items, i, QuickSelectList, Encode(FocusOf(st)))
      {
        ListedChild(st, ks, QuickSelectList, items, i, QuickSelectList, FocusOf(st));
      }
    } else {
      ListedChild(st, ks, QuickSelectList, items, 0, QuickSelectList, FocusOf(st));
    }
  }

  /** The focus fits any update that lists the nodes of the overlay. */
  lemma {:induction false} FocusFitsOverlay(st: ClientState, ks: seq<Kind>)
    requires forall k :: k in OverlayKinds(ActiveOverlay(st)) ==> k in ks
    ensures FocusFits(st, NodesOf(st, ks), Encode(FocusOf(st)))
  {
    var o, focus := ActiveOverlay(st), FocusOf(st);
    match o
    case NoOverlay =>
    case Closing(button) =>
      assert CloseDialog in OverlayKinds(o);
      ListedChild(st, ks, CloseDialog, [CloseDialogKill, CloseDialogCancel], if button < 2 then button else 0,
                  CloseDialog, focus);
    case Selecting(qs) =>
      assert QuickSelectList in OverlayKinds(o);
      MatchFits(st, ks, qs);
    case InMenu(m) =>
      assert ContextMenu in OverlayKinds(o);
      ListedChild(st, ks, ContextMenu, ContextItems(|m.separators|),
                  if m.hovered.Some? then m.hovered.value else |m.separators|, ContextMenu, focus);
    case InPalette(l) =>
      assert PaletteList in OverlayKinds(o);
      ListedChild(st, ks, PaletteList, PaletteItems(l.count), l.selected, PaletteSearch, focus);
    case InHosts(l) =>
      assert HostManager in OverlayKinds(o);
      ListedChild(st, ks, HostManager, HostItems(l.count), l.selected, HostManager, focus);
    case InMacros(l) =>
      assert MacroPicker in OverlayKinds(o);
      ListedChild(st, ks, MacroPicker, MacroItems(l.count), l.selected, MacroPicker, focus);
  }

  /** The focus of the whole update is where the client state puts it. */
  lemma {:induction false} FocusFollowsState(st: ClientState)
    ensures FocusFits(st, TreeUpdate(st), Encode(FocusOf(st)))
  {
    FocusFitsOverlay(st, NodeKinds(st));
  }

  // ----- Caret -----

  /** The caret of a pane's node: in the focused pane, on the child for the cursor's row, in the
      cursor's column or behind the last character of a shorter row. */
  ghost predicate CaretFits(st: ClientState, id: nat, node: Node, row: (nat, Node))
    requires id in st.panes
  {
    var p := st.panes[id];
    if st.focusedPane == Some(id) && p.cursorRow < RowCount(p) then
      && node.caret.Some? && RowCount(p) <= |node.children|
      && node.caret.value.node == node.children[|node.children| - RowCount(p) + p.cursorRow] == row.0
      && row.1 == RowNode(p.rows[p.cursorRow])
      && node.caret.value.index == if p.cursorCol <= |row.1.text| then p.cursorCol else |row.1.text|
    else node.caret.None?
  }

  /** In this update the pane has its caret where its cursor is. */
  ghost predicate CaretFollows(st: ClientState, id: nat, update: Update)
    requires id in st.panes
  {
    exists i, j :: 0 <= i < |update| && 0 <= j < |update| && update[i].0 == Encode(Pane(id))
                   && CaretFits(st, id, update[i].1, update[j])
  }

  /** Every pane shown has its caret where its cursor is. */
  lemma {:induction false} CaretFollowsCursor(st: ClientState, id: nat)
    requires id in TabOrder(st) && id in st.panes
    ensures CaretFollows(st, id, TreeUpdate(st))
  {
    PaneListed(st, id);
    if st.focusedPane == Some(id) && st.panes[id].cursorRow < RowCount(st.panes[id]) {
      CaretRow(st, id);
      RowListed(st, id, st.panes[id].cursorRow);
      Located(st, id, PaneRow(id, st.panes[id].cursorRow), NodeKinds(st));
    } else {
      NoCaret(st, id);
      Located(st, id, Pane(id), NodeKinds(st));
    }
  }

  lemma {:induction false} CaretsFollowCursors(st: ClientState)
    ensures forall id :: id in TabOrder(st) && id in st.panes ==> CaretFollows(st, id, TreeUpdate(st))
  {
    forall id | id in TabOrder(st) && id in st.panes
      ensures CaretFollows(st, id, TreeUpdate(st))
    {
      CaretFollowsCursor(st, id);
    }
  }

  lemma {:induction false} PaneListed(st: ClientState, id: nat)
    requires id in TabOrder(st) && id in st.panes
    ensures Pane(id) in NodeKinds(st)
  {
    KindMembers(st, Pane(id));
  }

  lemma {:induction false} RowListed(st: ClientState, id: nat, r: nat)
    requires id in TabOrder(st) && id in st.panes && r < RowCount(st.panes[id])
    ensures PaneRow(id, r) in NodeKinds(st)
  {
    KindMembers(st, PaneRow(id, r));
  }

  lemma {:induction false} Located(st: ClientState, id: nat, row: Kind, ks: seq<Kind>)
    requires id in st.panes && Pane(id) in ks && row in ks
    requires CaretFits(st, id, NodeOf(st, Pane(id)), (Encode(row), NodeOf(st, row)))
    ensures CaretFollows(st, id, NodesOf(st, ks))
  {
    var i := NodeListed(st, ks, Pane(id));
    var j := NodeListed(st, ks, row);
    assert CaretFits(st, id, NodesOf(st, ks)[i].1, NodesOf(st, ks)[j]);
  }

  lemma {:induction false} NoCaret(st: ClientState, id: nat)
    requires id in st.panes && !(st.focusedPane == Some(id) && st.panes[id].cursorRow < RowCount(st.panes[id]))
    ensures CaretFits(st, id, NodeOf(st, Pane(id)), (Encode(Pane(id)), NodeOf(st, Pane(id))))
  {
  }

  lemma {:induction false} CaretRow(st: ClientState, id: nat)
    requires id in st.panes && st.focusedPane == Some(id) && st.panes[id].cursorRow < RowCount(st.panes[id])
    ensures var row := PaneRow(id, st.panes[id].cursorRow);
            CaretFits(st, id, NodeOf(st, Pane(id)), (Encode(row), NodeOf(st, row)))
  {
    var p := st.panes[id];
    var row, ks := PaneRow(id, p.cursorRow), RowKinds(id, p);
    PaneLists(st, id);
    assert ks[|ks| - RowCount(p) + p.cursorRow] == row;
    assert NodeOf(st, row) == RowNode(p.rows[p.cursorRow]);
  }
}
