/**
 Node identifiers of the accessibility tree: one number per node, packed into disjoint
 ranges, and the decoder that turns an action's target back into what it names.
 */
module NodeIds {
  const U16: nat := 0x1_0000
  const U32: nat := 0x1_0000_0000
  const U64: nat := 0x1_0000_0000_0000_0000

  const SETTINGS_TAB_BASE: nat := 60
  /** Slots 60 to 99. */
  const SETTINGS_TAB_SLOTS: nat := 40
  const PALETTE_ITEM_OFFSET: nat := 100_000_000
  const HOST_ITEM_OFFSET: nat := 200_000_000
  const MACRO_ITEM_OFFSET: nat := 300_000_000
  const CONTEXT_ITEM_OFFSET: nat := 400_000_000
  const QUICKSELECT_ITEM_OFFSET: nat := 500_000_000
  const SETTINGS_WIDGET_BASE: nat := 700_000_000
  const DYN_RANGE: nat := 100_000_000
  const TAB_OFFSET: nat := 1_000_000_000
  const PANE_OFFSET: nat := 10_000_000_000
  const PANE_ROW_OFFSET: nat := 20_000_000_000
  const ALERT_OFFSET: nat := 50_000_000_000_000
  const MAX_ROWS_PER_PANE: nat := 10_000
  const MAX_VIEWPORT_ROWS_PER_PANE: nat := 1_000
  const MAX_SCROLLBACK_ROWS_PER_PANE: nat := MAX_ROWS_PER_PANE - MAX_VIEWPORT_ROWS_PER_PANE

  datatype Slot = Update | Offline | ServerError

  datatype Kind =
    | Root | TabBar | PaneArea | SettingsPanel | Palette | HostManager | MacroPicker | ContextMenu | CloseDialog
    | QuickSelect | PaletteSearch | PaletteList | CloseDialogKill | CloseDialogCancel | QuickSelectList
    | SettingsTabList | SettingsContent | AlertRegion | PaneInputBuffer
    | SettingsFooterOpenConfig | SettingsFooterResetCategory
    | SshDeleteDialog | SshDeleteConfirm | SshDeleteCancel | KeyDeleteDialog | KeyDeleteConfirm | KeyDeleteCancel
    | WindowMinimize | WindowMaximize | WindowClose
    | InfoBar(slot: Slot)
    | SettingsTab(idx: nat)
    | PaletteItem(idx: nat) | HostItem(idx: nat) | MacroItem(idx: nat) | ContextItem(idx: nat)
    | QuickSelectItem(idx: nat)
    | SettingsWidget(category: nat, index: nat)
    | Tab(paneId: nat) | Pane(paneId: nat)
    | PaneRow(paneId: nat, row: nat) | PaneScrollbackRow(paneId: nat, sbRow: nat)
    | Alert(serial: nat)
    | Unknown

  /** The identifiers as the encoders compute them. */
  function Encode(k: Kind): (id: nat) {
    match k
    case Root => 1
    case TabBar => 2
    case PaneArea => 3
    case SettingsPanel => 4
    case Palette => 5
    case HostManager => 6
    case MacroPicker => 7
    case ContextMenu => 8
    case CloseDialog => 9
    case QuickSelect => 11
    case PaletteSearch => 12
    case PaletteList => 13
    case CloseDialogKill => 14
    case CloseDialogCancel => 15
    case QuickSelectList => 16
    case SettingsTabList => 17
    case SettingsContent => 25
    case AlertRegion => 26
    case PaneInputBuffer => 27
    case InfoBar(slot) => (match slot case Update => 28 case Offline => 29 case ServerError => 30)
    case SettingsFooterOpenConfig => 31
    case SettingsFooterResetCategory => 32
    case SshDeleteDialog => 47
    case SshDeleteConfirm => 48
    case SshDeleteCancel => 49
    case KeyDeleteDialog => 54
    case KeyDeleteConfirm => 55
    case KeyDeleteCancel => 56
    case WindowMinimize => 57
    case WindowMaximize => 58
    case WindowClose => 59
    case SettingsTab(i) => SETTINGS_TAB_BASE + i
    case PaletteItem(i) => PALETTE_ITEM_OFFSET + i
    case HostItem(i) => HOST_ITEM_OFFSET + i
    case MacroItem(i) => MACRO_ITEM_OFFSET + i
    case ContextItem(i) => CONTEXT_ITEM_OFFSET + i
    case QuickSelectItem(i) => QUICKSELECT_ITEM_OFFSET + i
    case SettingsWidget(c, i) => SETTINGS_WIDGET_BASE + c * 65536 + i
    case Tab(p) => TAB_OFFSET + p
    case Pane(p) => PANE_OFFSET + p
    case PaneRow(p, r) => PANE_ROW_OFFSET + p * MAX_ROWS_PER_PANE + r
    case PaneScrollbackRow(p, r) => PANE_ROW_OFFSET + p * MAX_ROWS_PER_PANE + MAX_VIEWPORT_ROWS_PER_PANE + r
    case Alert(s) => ALERT_OFFSET + s
    case Unknown => 0
  }

  /** The descriptors the encoders may be called with. */
  predicate InRange(k: Kind) {
    match k
    case SettingsTab(i) => i < SETTINGS_TAB_SLOTS
    case PaletteItem(i) => i < DYN_RANGE
    case HostItem(i) => i < DYN_RANGE
    case MacroItem(i) => i < DYN_RANGE
    case ContextItem(i) => i < DYN_RANGE
    case QuickSelectItem(i) => i < DYN_RANGE
    case SettingsWidget(c, i) => c < 256 && i < U16
    case Tab(p) => p < U32
    case Pane(p) => p < U32
    case PaneRow(p, r) => p < U32 && r < MAX_VIEWPORT_ROWS_PER_PANE
    case PaneScrollbackRow(p, r) => p < U32 && r < MAX_SCROLLBACK_ROWS_PER_PANE
    case Alert(s) => ALERT_OFFSET + s < U64
    case Unknown => false
    case _ => true
  }

  /** `decode_node_id`: fixed identifiers and the two low ranges first. */
  function Decode(raw: nat): (k: Kind) {
    if raw <= 59 then DecodeFixed(raw)
    else if raw <= 99 then SettingsTab(raw - SETTINGS_TAB_BASE)
    else if 700_000_000 <= raw <= 799_999_999 then DecodeWidget(raw - SETTINGS_WIDGET_BASE)
    else DecodeDynamic(raw)
  }

  function DecodeFixed(raw: nat): (k: Kind) {
    match raw
    case 1 => Root
    case 2 => TabBar
    case 3 => PaneArea
    case 4 => SettingsPanel
    case 5 => Palette
    case 6 => HostManager
    case 7 => MacroPicker
    case 8 => ContextMenu
    case 9 => CloseDialog
    case 11 => QuickSelect
    case 12 => PaletteSearch
    case 13 => PaletteList
    case 14 => CloseDialogKill
    case 15 => CloseDialogCancel
    case 16 => QuickSelectList
    case 17 => SettingsTabList
    case 25 => SettingsContent
    case 26 => AlertRegion
    case 27 => PaneInputBuffer
    case 28 => InfoBar(Update)
    case 29 => InfoBar(Offline)
    case 30 => InfoBar(ServerError)
    case 31 => SettingsFooterOpenConfig
    case 32 => SettingsFooterResetCategory
    case 47 => SshDeleteDialog
    case 48 => SshDeleteConfirm
    case 49 => SshDeleteCancel
    case 54 => KeyDeleteDialog
    case 55 => KeyDeleteConfirm
    case 56 => KeyDeleteCancel
    case 57 => WindowMinimize
    case 58 => WindowMaximize
    case 59 => WindowClose
    case _ => Unknown
  }

  /** A widget id packs a category byte over a 16-bit index. */
  function DecodeWidget(packed: nat): (k: Kind) {
    if packed > 0xFF_FFFF then Unknown else SettingsWidget(packed / 65536, packed % 65536)
  }

  function DecodeDynamic(raw: nat): (k: Kind) {
    if PALETTE_ITEM_OFFSET <= raw < PALETTE_ITEM_OFFSET + DYN_RANGE then PaletteItem(raw - PALETTE_ITEM_OFFSET)
    else if HOST_ITEM_OFFSET <= raw < HOST_ITEM_OFFSET + DYN_RANGE then HostItem(raw - HOST_ITEM_OFFSET)
    else if MACRO_ITEM_OFFSET <= raw < MACRO_ITEM_OFFSET + DYN_RANGE then MacroItem(raw - MACRO_ITEM_OFFSET)
    else if CONTEXT_ITEM_OFFSET <= raw < CONTEXT_ITEM_OFFSET + DYN_RANGE then ContextItem(raw - CONTEXT_ITEM_OFFSET)
    else if QUICKSELECT_ITEM_OFFSET <= raw < QUICKSELECT_ITEM_OFFSET + DYN_RANGE then
      QuickSelectItem(raw - QUICKSELECT_ITEM_OFFSET)
    else if TAB_OFFSET <= raw < TAB_OFFSET + U32 then Tab(raw - TAB_OFFSET)
    else if PANE_OFFSET <= raw < PANE_OFFSET + U32 then Pane(raw - PANE_OFFSET)
    else if PANE_ROW_OFFSET <= raw < PANE_ROW_OFFSET + (U32 - 1) * MAX_ROWS_PER_PANE + MAX_ROWS_PER_PANE then
      var normalized := raw - PANE_ROW_OFFSET;
      var paneId, offset := normalized / MAX_ROWS_PER_PANE, normalized % MAX_ROWS_PER_PANE;
      if offset < MAX_VIEWPORT_ROWS_PER_PANE then PaneRow(paneId, offset)
      else PaneScrollbackRow(paneId, offset - MAX_VIEWPORT_ROWS_PER_PANE)
    else if raw >= ALERT_OFFSET then Alert(raw - ALERT_OFFSET)
    else Unknown
  }

  lemma UnpackRow(paneId: nat, offset: nat)
    requires offset < MAX_ROWS_PER_PANE
    ensures (paneId * MAX_ROWS_PER_PANE + offset) / MAX_ROWS_PER_PANE == paneId
    ensures (paneId * MAX_ROWS_PER_PANE + offset) % MAX_ROWS_PER_PANE == offset
  {
  }

  lemma UnpackWidget(category: nat, index: nat)
    requires index < U16
    ensures (category * 65536 + index) / 65536 == category && (category * 65536 + index) % 65536 == index
  {
  }

  lemma RowDecodes(k: Kind)
    requires InRange(k) && (k.PaneRow? || k.PaneScrollbackRow?)
    ensures Decode(Encode(k)) == k && Encode(k) < U64
  {
    match k
    case PaneRow(p, r) => UnpackRow(p, r);
    case PaneScrollbackRow(p, r) => UnpackRow(p, MAX_VIEWPORT_ROWS_PER_PANE + r);
    case _ =>
  }

  lemma WidgetDecodes(c: nat, i: nat)
    requires InRange(SettingsWidget(c, i))
    ensures Decode(Encode(SettingsWidget(c, i))) == SettingsWidget(c, i) && Encode(SettingsWidget(c, i)) < U64
  {
    UnpackWidget(c, i);
  }

  lemma FixedDecodes(k: Kind)
    requires InRange(k) && Encode(k) < 500
    ensures Decode(Encode(k)) == k
  {
  }

  lemma ListedDecodes(k: Kind)
    requires InRange(k) && !k.PaneRow? && !k.PaneScrollbackRow? && !k.SettingsWidget? && Encode(k) >= 500
    ensures Decode(Encode(k)) == k && Encode(k) < U64
  {
  }

  /** Every descriptor in range decodes to itself, and its identifier fits 64 bits. */
  lemma EncodeDecode(k: Kind)
    requires InRange(k)
    ensures Decode(Encode(k)) == k && Encode(k) < U64
  {
    if k.PaneRow? || k.PaneScrollbackRow? {
      RowDecodes(k);
    } else if k.SettingsWidget? {
      WidgetDecodes(k.category, k.index);
    } else if Encode(k) < 500 {
      FixedDecodes(k);
    } else {
      ListedDecodes(k);
    }
  }

  lemma WidgetEncodes(raw: nat)
    requires 700_000_000 <= raw <= 799_999_999
    ensures Decode(raw) == Unknown || (InRange(Decode(raw)) && Encode(Decode(raw)) == raw)
  {
    var packed := raw - SETTINGS_WIDGET_BASE;
    assert packed == 65536 * (packed / 65536) + packed % 65536;
  }

  lemma RowEncodes(raw: nat)
    requires PANE_ROW_OFFSET <= raw < ALERT_OFFSET
    ensures Decode(raw) == Unknown || (InRange(Decode(raw)) && Encode(Decode(raw)) == raw)
  {
    var n := raw - PANE_ROW_OFFSET;
    assert n == MAX_ROWS_PER_PANE * (n / MAX_ROWS_PER_PANE) + n % MAX_ROWS_PER_PANE;
  }

  lemma PlainEncodes(raw: nat)
    requires raw < PANE_ROW_OFFSET || ALERT_OFFSET <= raw < U64
    requires !(700_000_000 <= raw <= 799_999_999)
    ensures Decode(raw) == Unknown || (InRange(Decode(raw)) && Encode(Decode(raw)) == raw)
  {
  }

  /** Every 64-bit number decodes to nothing, or to a descriptor in range that encodes to it. */
  lemma DecodeEncode(raw: nat)
    requires raw < U64
    ensures Decode(raw) == Unknown || (InRange(Decode(raw)) && Encode(Decode(raw)) == raw)
  {
    if 700_000_000 <= raw <= 799_999_999 {
      WidgetEncodes(raw);
    } else if PANE_ROW_OFFSET <= raw < ALERT_OFFSET {
      RowEncodes(raw);
    } else {
      PlainEncodes(raw);
    }
  }

  /** So no two kinds of node share an identifier. */
  lemma IdsAreInjective(a: Kind, b: Kind)
    requires InRange(a) && InRange(b)
    ensures Encode(a) == Encode(b) <==> a == b
  {
    EncodeDecode(a);
    EncodeDecode(b);
  }

  /** The range conditions are needed: one row too many is the first row of the next pane. */
  lemma OutOfRangeCollides(paneId: nat)
    ensures Encode(PaneScrollbackRow(paneId, MAX_SCROLLBACK_ROWS_PER_PANE)) == Encode(PaneRow(paneId + 1, 0))
    ensures Encode(PaneRow(paneId, MAX_VIEWPORT_ROWS_PER_PANE)) == Encode(PaneScrollbackRow(paneId, 0))
  {
  }
}
