/**
 What the accessibility tree of a client state contains: which nodes are present, in which
 order they are listed, and what each node holds. `AccessBuilder` pushes this list together
 in loops; `AccessTree` proves that it is a tree.
 */
module AccessModel {
  import opened Wrappers
  import opened NodeIds
  import opened Utf8

  const SCROLLBACK_WINDOW_RADIUS: nat := 100

  // ----- Client state, as far as the tree reads it -----

  /** A terminal grid with its scrollback; a row is the characters of its cells. */
  datatype PaneState = PaneState(rows: seq<string>, height: nat, cursorRow: nat, cursorCol: nat,
                                 scrollback: seq<string>, scrollOffset: nat)

  /** A list overlay, by its number of filtered entries and the selected index. */
  datatype Listing = Listing(count: nat, selected: nat)

  /** A menu item is described by whether it is a separator. */
  datatype Menu = Menu(separators: seq<bool>, hovered: Option<nat>)

  datatype QuickSelectState = QuickSelectState(labels: seq<string>, typed: string)

  datatype Bar = Bar(slot: Slot, dismissed: bool)

  /** `paneKeys` lists the keys of `panes` in the order the hash map yields them; `bars` is
      in stack order, loudest first. */
  datatype ClientState = ClientState(
    tabOrder: seq<nat>, panes: map<nat, PaneState>, paneKeys: seq<nat>, focusedPane: Option<nat>,
    windowButtons: bool,
    closeDialog: Option<nat>, quickSelect: Option<QuickSelectState>, contextMenu: Option<Menu>,
    palette: Option<Listing>, hostManager: Option<Listing>, macroPicker: Option<Listing>,
    bars: seq<Bar>, alerts: seq<nat>)

  /** Sizes and identifiers stay in the ranges their encoders assume, and the key listing is
      one of the map's. */
  ghost predicate Sized(st: ClientState) {
    && (forall p :: p in TabOrder(st) ==> p < U32)
    && Distinct(st.paneKeys) && (forall p :: p in st.paneKeys <==> p in st.panes)
    && (st.focusedPane.Some? ==> st.focusedPane.value < U32)
    && (forall a :: a in st.alerts ==> ALERT_OFFSET + a < U64)
    && (st.quickSelect.Some? ==> |st.quickSelect.value.labels| <= DYN_RANGE)
    && (st.contextMenu.Some? ==> |st.contextMenu.value.separators| <= DYN_RANGE)
    && (st.palette.Some? ==> st.palette.value.count <= DYN_RANGE)
    && (st.hostManager.Some? ==> st.hostManager.value.count <= DYN_RANGE)
    && (st.macroPicker.Some? ==> st.macroPicker.value.count <= DYN_RANGE)
  }

  function TabOrder(st: ClientState): (order: seq<nat>) {
    if st.tabOrder == [] then st.paneKeys else st.tabOrder
  }

  /** The one overlay that is exposed, highest priority first. */
  datatype Overlay =
    | NoOverlay
    | Closing(selectedButton: nat)
    | Selecting(qs: QuickSelectState)
    | InMenu(menu: Menu)
    | InPalette(palette: Listing)
    | InHosts(hosts: Listing)
    | InMacros(macros: Listing)

  function ActiveOverlay(st: ClientState): (o: Overlay) {
    if st.closeDialog.Some? then Closing(st.closeDialog.value)
    else if st.quickSelect.Some? then Selecting(st.quickSelect.value)
    else if st.contextMenu.Some? then InMenu(st.contextMenu.value)
    else if st.palette.Some? then InPalette(st.palette.value)
    else if st.hostManager.Some? then InHosts(st.hostManager.value)
    else if st.macroPicker.Some? then InMacros(st.macroPicker.value)
    else NoOverlay
  }

  /** Slots of the bars still shown, in stack order. */
  function LiveSlots(bars: seq<Bar>): (slots: seq<Slot>) {
    if bars == [] then []
    else (if bars[0].dismissed then [] else [bars[0].slot]) + LiveSlots(bars[1..])
  }

  /** A bar is shown exactly when it was not dismissed. */
  lemma {:induction false} LiveSlotsSpec(bars: seq<Bar>, slot: Slot)
    ensures slot in LiveSlots(bars) <==> Bar(slot, false) in bars
  {
    if bars != [] {
      LiveSlotsSpec(bars[1..], slot);
      var first := if bars[0].dismissed then [] else [bars[0].slot];
      assert slot in first <==> bars[0] == Bar(slot, false);
      assert LiveSlots(bars) == first + LiveSlots(bars[1..]);
      assert bars == [bars[0]] + bars[1..];
    }
  }

  /** One more bar at the quiet end of the stack is the last to be shown. */
  lemma {:induction false} LiveSlotsSnoc(bars: seq<Bar>, bar: Bar)
    ensures LiveSlots(bars + [bar]) == LiveSlots(bars) + (if bar.dismissed then [] else [bar.slot])
  {
    if bars == [] {
      assert bars + [bar] == [bar] && [bar][1..] == [];
    } else {
      LiveSlotsSnoc(bars[1..], bar);
      assert (bars + [bar])[0] == bars[0] && (bars + [bar])[1..] == bars[1..] + [bar];
    }
  }

  // ----- Rows -----

  function TrimSpaces(s: string): (t: string)
    ensures |t| <= |s| && t == s[..|t|]
    ensures t == [] || t[|t| - 1] != ' '
    ensures forall i :: |t| <= i < |s| ==> s[i] == ' '
  {
    if s != [] && s[|s| - 1] == ' ' then TrimSpaces(s[..|s| - 1]) else s
  }

  /** Row text for a screen reader: trailing spaces trimmed, never empty. */
  function RowText(cells: string): (text: string) {
    if TrimSpaces(cells) == [] then " " else TrimSpaces(cells)
  }

  /** The text is the row up to its last character that is not a space, or one space for a blank row. */
  lemma RowTextSpec(cells: string)
    ensures var text := RowText(cells);
            && text != "" && (text <= cells || text == " ")
            && (forall i :: |text| <= i < |cells| ==> cells[i] == ' ')
            && (text[|text| - 1] == ' ' ==> text == " " && forall i :: 0 <= i < |cells| ==> cells[i] == ' ')
  {
    var trimmed := TrimSpaces(cells);
  }

  /** Rows of the viewport that get a node. */
  function RowCount(p: PaneState): (n: nat) {
    var shown := if p.height < |p.rows| then p.height else |p.rows|;
    if shown < MAX_VIEWPORT_ROWS_PER_PANE then shown else MAX_VIEWPORT_ROWS_PER_PANE
  }

  /** The scrollback row just above the viewport. */
  function WindowCenter(p: PaneState): (c: nat) {
    SaturatingSub(|p.scrollback|, p.scrollOffset + 1)
  }

  function WindowStart(p: PaneState): (s: nat) {
    SaturatingSub(WindowCenter(p), SCROLLBACK_WINDOW_RADIUS)
  }

  /** One past the last scrollback row exposed, or the start when none is. */
  function WindowEnd(p: PaneState): (e: nat)
    ensures e >= WindowStart(p)
  {
    var end := Min(Min(WindowCenter(p) + SCROLLBACK_WINDOW_RADIUS + 1, |p.scrollback|), MAX_SCROLLBACK_ROWS_PER_PANE);
    if |p.scrollback| == 0 || end < WindowStart(p) then WindowStart(p) else end
  }

  function CaretIndex(text: string, cursorCol: nat): (i: nat) {
    if cursorCol < |text| then cursorCol else |text|
  }

  // ----- Nodes -----

  datatype Role =
    | Window | TabList | TabRole | Group | Terminal | TextRun | TextInput | Button | Dialog | AlertDialog
    | SearchInput | ListBox | ListBoxOption | MenuRole | MenuItem | Splitter | AlertRole

  /** A text position: a row node and a character index. */
  datatype Caret = Caret(node: nat, index: nat)

  datatype Node = Node(role: Role, children: seq<nat>, text: string, lengths: seq<nat>, caret: Option<Caret>)

  function Plain(role: Role, children: seq<nat>): (n: Node) {
    Node(role, children, "", [], None)
  }

  function RowNode(cells: string): (n: Node) {
    Node(TextRun, [], RowText(cells), CharLengths(RowText(cells)), None)
  }

  /** The place of each kind of node: its parent. */
  function ParentOf(k: Kind): (p: Kind) {
    match k
    case Tab(_) => TabBar
    case WindowMinimize => TabBar
    case WindowMaximize => TabBar
    case WindowClose => TabBar
    case Pane(_) => PaneArea
    case PaneInputBuffer => PaneArea
    case PaneRow(p, _) => Pane(p)
    case PaneScrollbackRow(p, _) => Pane(p)
    case CloseDialogKill => CloseDialog
    case CloseDialogCancel => CloseDialog
    case QuickSelectList => QuickSelect
    case QuickSelectItem(_) => QuickSelectList
    case ContextItem(_) => ContextMenu
    case PaletteSearch => Palette
    case PaletteList => Palette
    case PaletteItem(_) => PaletteList
    case HostItem(_) => HostManager
    case MacroItem(_) => MacroPicker
    case Alert(_) => AlertRegion
    case _ => Root
  }

  function Depth(k: Kind): (d: nat)
    ensures k == Root <==> d == 0
  {
    match k
    case Root => 0
    case Tab(_) => 2
    case WindowMinimize => 2
    case WindowMaximize => 2
    case WindowClose => 2
    case Pane(_) => 2
    case PaneInputBuffer => 2
    case PaneRow(_, _) => 3
    case PaneScrollbackRow(_, _) => 3
    case CloseDialogKill => 2
    case CloseDialogCancel => 2
    case QuickSelectList => 2
    case QuickSelectItem(_) => 3
    case ContextItem(_) => 2
    case PaletteSearch => 2
    case PaletteList => 2
    case PaletteItem(_) => 3
    case HostItem(_) => 2
    case MacroItem(_) => 2
    case Alert(_) => 2
    case _ => 1
  }

  // ----- Kinds of the nodes, in list order -----

  function Tabs(order: seq<nat>): (ks: seq<Kind>) {
    seq(|order|, i requires 0 <= i < |order| => Tab(order[i]))
  }

  function Panes(order: seq<nat>): (ks: seq<Kind>) {
    seq(|order|, i requires 0 <= i < |order| => Pane(order[i]))
  }

  function Buttons(visible: bool): (ks: seq<Kind>) {
    if visible then [WindowMinimize, WindowMaximize, WindowClose] else []
  }

  function ScrollbackRows(id: nat, p: PaneState): (ks: seq<Kind>) {
    seq(WindowEnd(p) - WindowStart(p), (i: nat) => PaneScrollbackRow(id, WindowStart(p) + i))
  }

  function ViewportRows(id: nat, p: PaneState): (ks: seq<Kind>) {
    seq(RowCount(p), (i: nat) => PaneRow(id, i))
  }

  function RowKinds(id: nat, p: PaneState): (ks: seq<Kind>) {
    ScrollbackRows(id, p) + ViewportRows(id, p)
  }

  /** Rows and pane nodes, pane by pane; a tab without a pane contributes nothing. */
  function PaneKinds(order: seq<nat>, panes: map<nat, PaneState>): (ks: seq<Kind>) {
    if order == [] then []
    else
      PaneKinds(order[..|order| - 1], panes)
      + (var id := order[|order| - 1]; if id in panes then RowKinds(id, panes[id]) + [Pane(id)] else [])
  }

  function BaseKinds(st: ClientState): (ks: seq<Kind>) {
    [Root, TabBar, PaneArea] + Tabs(TabOrder(st)) + Buttons(st.windowButtons)
    + PaneKinds(TabOrder(st), st.panes) + [PaneInputBuffer]
  }

  function ContextItems(n: nat): (ks: seq<Kind>) { seq(n, (i: nat) => ContextItem(i)) }
  function QuickItems(n: nat): (ks: seq<Kind>) { seq(n, (i: nat) => QuickSelectItem(i)) }
  function PaletteItems(n: nat): (ks: seq<Kind>) { seq(n, (i: nat) => PaletteItem(i)) }
  function HostItems(n: nat): (ks: seq<Kind>) { seq(n, (i: nat) => HostItem(i)) }
  function MacroItems(n: nat): (ks: seq<Kind>) { seq(n, (i: nat) => MacroItem(i)) }

  function OverlayKinds(o: Overlay): (ks: seq<Kind>) {
    match o
    case NoOverlay => []
    case Closing(_) => [CloseDialog, CloseDialogKill, CloseDialogCancel]
    case Selecting(qs) => [QuickSelect, QuickSelectList] + QuickItems(|qs.labels|)
    case InMenu(m) => [ContextMenu] + ContextItems(|m.separators|)
    case InPalette(l) => [Palette, PaletteSearch, PaletteList] + PaletteItems(l.count)
    case InHosts(l) => [HostManager] + HostItems(l.count)
    case InMacros(l) => [MacroPicker] + MacroItems(l.count)
  }

  function OverlayRoots(o: Overlay): (ks: seq<Kind>) {
    match o
    case NoOverlay => []
    case Closing(_) => [CloseDialog]
    case Selecting(_) => [QuickSelect]
    case InMenu(_) => [ContextMenu]
    case InPalette(_) => [Palette]
    case InHosts(_) => [HostManager]
    case InMacros(_) => [MacroPicker]
  }

  function BarKinds(slots: seq<Slot>): (ks: seq<Kind>) {
    seq(|slots|, i requires 0 <= i < |slots| => InfoBar(slots[i]))
  }

  function Alerts(alerts: seq<nat>): (ks: seq<Kind>) {
    seq(|alerts|, i requires 0 <= i < |alerts| => Alert(alerts[i]))
  }

  function AlertKinds(alerts: seq<nat>): (ks: seq<Kind>) {
    if alerts == [] then [] else [AlertRegion] + Alerts(alerts)
  }

  function NodeKinds(st: ClientState): (ks: seq<Kind>) {
    BaseKinds(st) + OverlayKinds(ActiveOverlay(st)) + BarKinds(LiveSlots(st.bars)) + AlertKinds(st.alerts)
  }

  // ----- Contents of a node -----

  function RootChildren(st: ClientState): (ks: seq<Kind>) {
    [TabBar, PaneArea] + OverlayRoots(ActiveOverlay(st)) + BarKinds(LiveSlots(st.bars))
    + (if st.alerts == [] then [] else [AlertRegion])
  }

  function OverlayChildren(o: Overlay, k: Kind): (ks: seq<Kind>) {
    match (o, k)
    case (Closing(_), CloseDialog) => [CloseDialogKill, CloseDialogCancel]
    case (Selecting(_), QuickSelect) => [QuickSelectList]
    case (Selecting(qs), QuickSelectList) => QuickItems(|qs.labels|)
    case (InMenu(m), ContextMenu) => ContextItems(|m.separators|)
    case (InPalette(_), Palette) => [PaletteSearch, PaletteList]
    case (InPalette(l), PaletteList) => PaletteItems(l.count)
    case (InHosts(l), HostManager) => HostItems(l.count)
    case (InMacros(l), MacroPicker) => MacroItems(l.count)
    case _ => []
  }

  function ChildrenOf(st: ClientState, k: Kind): (ks: seq<Kind>) {
    match k
    case Root => RootChildren(st)
    case TabBar => Tabs(TabOrder(st)) + Buttons(st.windowButtons)
    case PaneArea => Panes(TabOrder(st)) + [PaneInputBuffer]
    case Pane(id) => if id in st.panes then RowKinds(id, st.panes[id]) else []
    case AlertRegion => Alerts(st.alerts)
    case _ => OverlayChildren(ActiveOverlay(st), k)
  }

  function RoleOf(st: ClientState, k: Kind): (r: Role) {
    match k
    case Root => Window
    case TabBar => TabList
    case Tab(_) => TabRole
    case WindowMinimize => Button
    case WindowMaximize => Button
    case WindowClose => Button
    case Pane(_) => Terminal
    case PaneRow(_, _) => TextRun
    case PaneScrollbackRow(_, _) => TextRun
    case PaneInputBuffer => TextInput
    case CloseDialog => AlertDialog
    case CloseDialogKill => Button
    case CloseDialogCancel => Button
    case ContextMenu => MenuRole
    case ContextItem(i) =>
      (match ActiveOverlay(st)
       case InMenu(m) => if i < |m.separators| && m.separators[i] then Splitter else MenuItem
       case _ => MenuItem)
    case Palette => Dialog
    case HostManager => Dialog
    case MacroPicker => Dialog
    case QuickSelect => Dialog
    case PaletteSearch => SearchInput
    case PaletteList => ListBox
    case QuickSelectList => ListBox
    case PaletteItem(_) => ListBoxOption
    case HostItem(_) => ListBoxOption
    case MacroItem(_) => ListBoxOption
    case QuickSelectItem(_) => ListBoxOption
    case InfoBar(_) => AlertRole
    case Alert(_) => AlertRole
    case _ => Group
  }

  /** The cells a row node shows. */
  function CellsOf(panes: map<nat, PaneState>, k: Kind): (cells: string) {
    match k
    case PaneRow(id, r) => if id in panes && r < |panes[id].rows| then panes[id].rows[r] else ""
    case PaneScrollbackRow(id, r) => if id in panes && r < |panes[id].scrollback| then panes[id].scrollback[r] else ""
    case _ => ""
  }

  /** The focused pane points at its cursor row, when that row has a node. */
  function CaretOf(focused: Option<nat>, id: nat, p: PaneState): (c: Option<Caret>) {
    if focused == Some(id) && p.cursorRow < RowCount(p) then
      Some(Caret(Encode(PaneRow(id, p.cursorRow)), CaretIndex(RowText(p.rows[p.cursorRow]), p.cursorCol)))
    else None
  }

  function Ids(ks: seq<Kind>): (ids: seq<nat>) {
    seq(|ks|, i requires 0 <= i < |ks| => Encode(ks[i]))
  }

  function NodeOf(st: ClientState, k: Kind): (n: Node) {
    if k.PaneRow? || k.PaneScrollbackRow? then RowNode(CellsOf(st.panes, k))
    else
      Node(RoleOf(st, k), Ids(ChildrenOf(st, k)), "", [],
           if k.Pane? && k.paneId in st.panes then CaretOf(st.focusedPane, k.paneId, st.panes[k.paneId]) else None)
  }

  /** A tree update lists identifiers with their nodes. */
  function NodesOf(st: ClientState, ks: seq<Kind>): (ns: seq<(nat, Node)>) {
    seq(|ks|, i requires 0 <= i < |ks| => (Encode(ks[i]), NodeOf(st, ks[i])))
  }

  // ----- Focus -----

  /** Position of the first label that what was typed is a prefix of. */
  function FirstPrefixed(labels: seq<string>, typed: string): (i: nat)
    ensures i <= |labels|
    ensures i < |labels| ==> typed <= labels[i]
    ensures forall j :: 0 <= j < i ==> !(typed <= labels[j])
  {
    if labels == [] || typed <= labels[0] then 0
    else
      var i := FirstPrefixed(labels[1..], typed);
      assert forall j :: 0 < j < i + 1 ==> labels[j] == labels[1..][j - 1];
      i + 1
  }

  function FocusOf(st: ClientState): (k: Kind) {
    match ActiveOverlay(st)
    case NoOverlay => if st.focusedPane.Some? then Pane(st.focusedPane.value) else Root
    case Closing(button) => if button == 1 then CloseDialogCancel else CloseDialogKill
    case Selecting(qs) =>
      var i := FirstPrefixed(qs.labels, qs.typed);
      if qs.typed != "" && i < |qs.labels| then QuickSelectItem(i)
      else if qs.labels != [] then QuickSelectItem(0)
      else QuickSelectList
    case InMenu(m) =>
      if m.hovered.Some? && m.hovered.value < |m.separators| then ContextItem(m.hovered.value) else ContextMenu
    case InPalette(l) => if l.selected < l.count then PaletteItem(l.selected) else PaletteSearch
    case InHosts(l) => if l.selected < l.count then HostItem(l.selected) else HostManager
    case InMacros(l) => if l.selected < l.count then MacroItem(l.selected) else MacroPicker
  }
}
