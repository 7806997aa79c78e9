/**
 The views of the command blocks: the row look-up, the overlay lines of the visible window,
 the rows hidden by collapsed blocks, and the click that inverts the scrollback walk. The
 results say that the views agree.
 */
module BlockViews {
  import opened Wrappers
  import opened CommandBlocks

  // ----- Look-up -----

  predicate Contains(b: Block, row: nat) {
    b.promptRow <= row && (b.endRow.Some? ==> row <= b.endRow.value)
  }

  /** First block whose range has the row; a running block has no lower end. */
  function BlockContainingRow(bs: seq<Block>, row: nat): (b: Option<Block>) {
    if bs == [] then None
    else if Contains(bs[0], row) then Some(bs[0])
    else BlockContainingRow(bs[1..], row)
  }

  // ----- Overlay lines -----

  datatype Status = Running | Success | Failure

  function StatusOf(b: Block): (s: Status) {
    match (b.endRow, b.exitCode)
    case (None, _) => Running
    case (Some(_), None) => Running
    case (Some(_), Some(code)) => if code == 0 then Success else Failure
  }

  datatype Line = Line(blockId: nat, start: int, end: int, status: Status, selected: bool, promptRow: Option<int>)

  /** The low 32 bits of a number, read as a signed one. */
  function ToI32(n: int): (r: int) {
    var m := n % 0x1_0000_0000;
    if m < 0x8000_0000 then m else m - 0x1_0000_0000
  }

  /** Both rows are cast first, then subtracted with wrap-around. */
  function RowOffset(row: nat, top: nat): (d: int) {
    ToI32(ToI32(row) - ToI32(top))
  }

  lemma ToI32Spec(n: int) returns (k: int)
    ensures n == ToI32(n) + 0x1_0000_0000 * k && -0x8000_0000 <= ToI32(n) < 0x8000_0000
  {
    var m := n % 0x1_0000_0000;
    k := n / 0x1_0000_0000 + if m < 0x8000_0000 then 0 else 1;
  }

  /** Whole turns of 2^32 make no difference. */
  lemma ToI32Shift(n: int, m: int, k: int)
    requires n == m + 0x1_0000_0000 * k
    ensures ToI32(n) == ToI32(m)
  {
    assert n % 0x1_0000_0000 == m % 0x1_0000_0000;
  }

  /** The offset is the true one exactly when that fits 32 bits. */
  lemma RowOffsetIsTrue(row: nat, top: nat)
    ensures RowOffset(row, top) == row - top <==> -0x8000_0000 <= row - top < 0x8000_0000
  {
    var a := ToI32Spec(row);
    var b := ToI32Spec(top);
    ToI32Shift(row - top, ToI32(row) - ToI32(top), a - b);
    var c := ToI32Spec(row - top);
  }

  function OverlayLine(b: Block, selected: Option<nat>, top: nat, rows: nat): (l: Option<Line>)
    requires rows > 0
  {
    var last := top + rows - 1;
    var end := if b.endRow.Some? then b.endRow.value else last;
    if end < top || b.promptRow >= top + rows then None
    else Some(Line(b.id, RowOffset(b.promptRow, top), RowOffset(end, top), StatusOf(b), selected == Some(b.id),
                   if b.promptRow >= top then Some(RowOffset(b.promptRow, top)) else None))
  }

  /** One line for every block that overlaps the window, in block order. */
  function OverlayLines(bs: seq<Block>, selected: Option<nat>, top: nat, rows: nat): (ls: seq<Line>) {
    if rows == 0 || bs == [] then []
    else
      (match OverlayLine(bs[0], selected, top, rows) case Some(l) => [l] case None => [])
      + OverlayLines(bs[1..], selected, top, rows)
  }

  function FirstCovering(ls: seq<Line>, row: nat): (l: Option<Line>) {
    if ls == [] then None
    else if ls[0].start <= row <= ls[0].end then Some(ls[0])
    else FirstCovering(ls[1..], row)
  }

  /** No block starts 2^31 rows above the window or ends 2^31 rows below its top. */
  ghost predicate WithinI32(bs: seq<Block>, top: nat) {
    forall i :: 0 <= i < |bs| ==>
      top - bs[i].promptRow <= 0x8000_0000 && (bs[i].endRow.Some? ==> bs[i].endRow.value - top < 0x8000_0000)
  }

  /** The line is the block's: its id, its status by the exit code of a block that has ended, its
      selection, and it marks the prompt at the visible row `v` exactly when the block starts there. */
  predicate Names(l: Line, b: Block, selected: Option<nat>, top: nat, v: nat) {
    && l.blockId == b.id
    && (l.status == Success <==> b.endRow.Some? && b.exitCode == Some(0))
    && (l.status == Failure <==> b.endRow.Some? && b.exitCode.Some? && b.exitCode.value != 0)
    && (l.selected <==> selected == Some(b.id))
    && (l.promptRow == Some(v) <==> b.promptRow == top + v)
  }

  /** A block's line covers a visible row exactly when the block contains it. */
  lemma LineCoversIff(b: Block, selected: Option<nat>, top: nat, rows: nat, v: nat)
    requires v < rows < 0x1_0000
    requires top - b.promptRow <= 0x8000_0000 && (b.endRow.Some? ==> b.endRow.value - top < 0x8000_0000)
    ensures var l := OverlayLine(b, selected, top, rows);
            && (Contains(b, top + v) <==> l.Some? && l.value.start <= v <= l.value.end)
            && (l.Some? && Contains(b, top + v) ==> Names(l.value, b, selected, top, v))
  {
    var end := if b.endRow.Some? then b.endRow.value else top + rows - 1;
    RowOffsetIsTrue(b.promptRow, top);
    RowOffsetIsTrue(end, top);
  }

  /** A block has a line exactly when one of its rows is in the window. */
  lemma LineIffInView(b: Block, selected: Option<nat>, top: nat, rows: nat)
    requires rows > 0 && (b.endRow.Some? ==> b.promptRow <= b.endRow.value)
    ensures OverlayLine(b, selected, top, rows).Some? <==> exists row :: top <= row < top + rows && Contains(b, row)
  {
    if OverlayLine(b, selected, top, rows).Some? {
      var row := if b.promptRow < top then top else b.promptRow;
      assert Contains(b, row);
    }
  }

  /** For every visible row, the first overlay line covering it names the block the look-up
      finds on the absolute row, and there is no such line exactly when the look-up fails. */
  lemma {:induction false} OverlayAgreesWithLookup(bs: seq<Block>, selected: Option<nat>, top: nat, rows: nat, v: nat)
    requires v < rows < 0x1_0000 && WithinI32(bs, top)
    ensures var line, block := FirstCovering(OverlayLines(bs, selected, top, rows), v), BlockContainingRow(bs, top + v);
            && (line.None? <==> block.None?)
            && (block.Some? ==> Names(line.value, block.value, selected, top, v))
  {
    if bs != [] {
      LineCoversIff(bs[0], selected, top, rows, v);
      OverlayAgreesWithLookup(bs[1..], selected, top, rows, v);
      var rest := OverlayLines(bs[1..], selected, top, rows);
      match OverlayLine(bs[0], selected, top, rows)
      case Some(l) => assert ([l] + rest)[1..] == rest;
      case None => assert [] + rest == rest;
    }
  }

  // ----- Collapsed rows -----

  /** The first collapsed, finished block over the row decides; its prompt row and its first
      output row stay. */
  function IsRowCollapsed(bs: seq<Block>, row: nat): (c: bool) {
    if bs == [] then false
    else if bs[0].collapsed && bs[0].endRow.Some? && bs[0].promptRow <= row <= bs[0].endRow.value
    then row != bs[0].promptRow && row != bs[0].outputRow
    else IsRowCollapsed(bs[1..], row)
  }

  /** Blocks that follow each other in the scrollback, the rows of each in order. A block may
      begin on the row on which the one before it ends, and any block may be unfinished. */
  ghost predicate Consecutive(bs: seq<Block>) {
    && (forall i :: 0 <= i < |bs| ==>
          bs[i].promptRow <= bs[i].outputRow && (bs[i].endRow.Some? ==> bs[i].outputRow <= bs[i].endRow.value))
    && (forall i, j :: 0 <= i < j < |bs| ==>
          bs[i].promptRow <= bs[j].promptRow && (bs[i].endRow.Some? ==> bs[i].endRow.value <= bs[j].promptRow))
  }

  /** The blocks with exactly those at the given positions collapsed, as the user toggles them. */
  function Collapse(bs: seq<Block>, at: set<nat>): (r: seq<Block>) {
    seq(|bs|, i requires 0 <= i < |bs| => bs[i].(collapsed := i in at))
  }

  lemma {:induction false} PromptsAscend(paneId: nat, marks: seq<Mark>, i: nat, j: nat)
    requires RowsAscend(marks) && i < j < |Extract(paneId, marks)|
    ensures var bs := Extract(paneId, marks);
            bs[i].promptRow <= bs[j].promptRow && (bs[i].endRow.Some? ==> bs[i].endRow.value <= bs[j].promptRow)
    decreases j
  {
    RowsAreOrdered(paneId, marks, i);
    if i + 1 < j {
      PromptsAscend(paneId, marks, i, j - 1);
      RowsAreOrdered(paneId, marks, j - 1);
    }
  }

  /** Extraction from marks in scrollback order yields such blocks, whichever are collapsed. */
  lemma ExtractedAreConsecutive(paneId: nat, marks: seq<Mark>, at: set<nat>)
    requires RowsAscend(marks)
    ensures Consecutive(Collapse(Extract(paneId, marks), at))
  {
    var bs := Extract(paneId, marks);
    forall i | 0 <= i < |bs|
      ensures bs[i].promptRow <= bs[i].outputRow && (bs[i].endRow.Some? ==> bs[i].outputRow <= bs[i].endRow.value)
    {
      RowsAreOrdered(paneId, marks, i);
    }
    forall i, j | 0 <= i < j < |bs|
      ensures bs[i].promptRow <= bs[j].promptRow && (bs[i].endRow.Some? ==> bs[i].endRow.value <= bs[j].promptRow)
    {
      PromptsAscend(paneId, marks, i, j);
    }
  }

  predicate Covers(b: Block, row: nat) {
    b.collapsed && b.endRow.Some? && b.promptRow <= row <= b.endRow.value
  }

  /** The block at `i` decides about the row: the first collapsed one over it. */
  ghost predicate Decides(bs: seq<Block>, i: nat, row: nat) {
    i < |bs| && Covers(bs[i], row) && forall k :: 0 <= k < i ==> !Covers(bs[k], row)
  }

  lemma {:induction false} DeciderDecides(bs: seq<Block>, i: nat, row: nat)
    requires Decides(bs, i, row)
    ensures IsRowCollapsed(bs, row) <==> row != bs[i].promptRow && row != bs[i].outputRow
  {
    if i > 0 {
      assert !Covers(bs[0], row);
      assert forall k :: 0 <= k < i - 1 ==> bs[1..][k] == bs[k + 1];
      DeciderDecides(bs[1..], i - 1, row);
    }
  }

  lemma {:induction false} CollapsedHasDecider(bs: seq<Block>, row: nat) returns (i: nat)
    requires IsRowCollapsed(bs, row)
    ensures Decides(bs, i, row)
  {
    if Covers(bs[0], row) {
      i := 0;
    } else {
      var n := CollapsedHasDecider(bs[1..], row);
      i := n + 1;
      assert forall k :: 0 < k < i ==> bs[k] == bs[1..][k - 1];
    }
  }

  /** A collapsed finished block shows exactly its prompt row and its first output row,
      provided it shares no row with its neighbours. */
  lemma CollapsedBlockShowsTwoRows(bs: seq<Block>, i: nat, row: nat)
    requires Consecutive(bs) && i < |bs| && bs[i].collapsed && bs[i].endRow.Some?
    requires forall k :: 0 <= k < i && bs[k].endRow.Some? ==> bs[k].endRow.value < bs[i].promptRow
    requires bs[i].promptRow <= row <= bs[i].endRow.value
    ensures IsRowCollapsed(bs, row) <==> row != bs[i].promptRow && row != bs[i].outputRow
  {
    DeciderDecides(bs, i, row);
  }

  /** Whether a block hides the row it ends on. */
  predicate HidesItsEnd(b: Block, row: nat) {
    b.collapsed && b.endRow == Some(row) && b.promptRow < row && b.outputRow < row
  }

  /** The prompt row of a block is hidden exactly when an earlier collapsed block ends on that
      very row, with its own prompt and first output above it. */
  lemma PromptHiddenIff(bs: seq<Block>, j: nat)
    requires Consecutive(bs) && j < |bs|
    ensures IsRowCollapsed(bs, bs[j].promptRow) <==> exists i :: 0 <= i < j && HidesItsEnd(bs[i], bs[j].promptRow)
  {
    var row := bs[j].promptRow;
    if IsRowCollapsed(bs, row) {
      var i := CollapsedHasDecider(bs, row);
      DeciderDecides(bs, i, row);
      assert i < j && HidesItsEnd(bs[i], row);
    }
    if i :| 0 <= i < j && HidesItsEnd(bs[i], row) {
      DeciderDecides(bs, i, row);
    }
  }

  lemma ExampleBlocks(a: Mark, c: Mark, d: Mark, e: Mark)
    requires a.kind == PromptStart && c.kind == OutputStart && d.kind == CommandEnd && e.kind == PromptStart
    ensures Extract(1, [a, c, d, e]) ==
            [Open(1, a.row).(outputRow := c.row, endRow := Some(d.row), exitCode := d.exitCode), Open(1, e.row)]
  {
    FoldSnoc(1, [], a);
    FoldSnoc(1, [a], c);
    FoldSnoc(1, [a, c], d);
    FoldSnoc(1, [a, c, d], e);
    assert [] + [a] == [a] && [a] + [c] == [a, c] && [a, c] + [d] == [a, c, d] && [a, c, d] + [e] == [a, c, d, e];
  }

  /** A command that ends on row 3, where the next prompt is: collapsing it hides that prompt. */
  lemma CollapsingHidesNextPrompt()
    ensures var marks := [Mark(0, PromptStart, None), Mark(1, OutputStart, None),
                          Mark(3, CommandEnd, Some(0)), Mark(3, PromptStart, None)];
            var bs := Collapse(Extract(1, marks), {0});
            && RowsAscend(marks) && |bs| == 2 && bs[1].promptRow == 3
            && IsRowCollapsed(bs, 3) && !IsRowCollapsed(Extract(1, marks), 3)
  {
    var a, c, d, e := Mark(0, PromptStart, None), Mark(1, OutputStart, None), Mark(3, CommandEnd, Some(0)),
                      Mark(3, PromptStart, None);
    ExampleBlocks(a, c, d, e);
    NothingCollapsed(Extract(1, [a, c, d, e]), 3);
    var bs := Collapse(Extract(1, [a, c, d, e]), {0});
    assert Decides(bs, 0, 3);
    DeciderDecides(bs, 0, 3);
  }

  lemma {:induction false} NothingCollapsed(bs: seq<Block>, row: nat)
    requires forall i :: 0 <= i < |bs| ==> !bs[i].collapsed
    ensures !IsRowCollapsed(bs, row)
  {
    if bs != [] {
      NothingCollapsed(bs[1..], row);
    }
  }

  // ----- Clicks -----

  /** The rows the scrollback view draws, from `from` up to the end of the scrollback. */
  function KeptRows(bs: seq<Block>, from: nat, len: nat): (rows: seq<nat>)
    decreases len - from
  {
    if from >= len then []
    else (if IsRowCollapsed(bs, from) then [] else [from]) + KeptRows(bs, from + 1, len)
  }

  /** Walk the drawn rows until the clicked one. */
  method ResolveClickedRow(bs: seq<Block>, scrollbackLen: nat, scrollOffset: nat, visualRow: nat)
    returns (row: Option<nat>)
    ensures var kept := KeptRows(bs, scrollOffset, scrollbackLen);
            row == if visualRow < |kept| then Some(kept[visualRow]) else None
  {
    var visual, sb := 0, scrollOffset;
    ghost var kept := KeptRows(bs, scrollOffset, scrollbackLen);
    while sb < scrollbackLen
      invariant sb >= scrollOffset && visual <= visualRow
      invariant |kept| == visual + |KeptRows(bs, sb, scrollbackLen)|
      invariant kept[visual..] == KeptRows(bs, sb, scrollbackLen)
    {
      if IsRowCollapsed(bs, sb) {
        sb := sb + 1;
        continue;
      }
      assert kept[visual..][0] == sb && kept[visual..][1..] == kept[visual + 1..];
      if visual == visualRow {
        return Some(sb);
      }
      visual := visual + 1;
      sb := sb + 1;
    }
    return None;
  }

  lemma Prepends(first: nat, rest: seq<nat>)
    requires forall r :: r in rest ==> first < r
    requires forall i, j :: 0 <= i < j < |rest| ==> rest[i] < rest[j]
    ensures forall r :: r in [first] + rest <==> r == first || r in rest
    ensures forall i, j :: 0 <= i < j < |[first] + rest| ==> ([first] + rest)[i] < ([first] + rest)[j]
  {
    forall i, j | 0 <= i < j < |[first] + rest|
      ensures ([first] + rest)[i] < ([first] + rest)[j]
    {
      assert rest[j - 1] in rest;
    }
  }

  /** The drawn rows are exactly the rows in range that no block hides, in order; so every
      drawn row answers to exactly one click. */
  lemma {:induction false} KeptRowsSpec(bs: seq<Block>, from: nat, len: nat)
    ensures var kept := KeptRows(bs, from, len);
            && (forall r :: r in kept <==> from <= r < len && !IsRowCollapsed(bs, r))
            && forall i, j :: 0 <= i < j < |kept| ==> kept[i] < kept[j]
    decreases len - from
  {
    if from < len {
      KeptRowsSpec(bs, from + 1, len);
      Prepends(from, KeptRows(bs, from + 1, len));
    }
  }

  /** Between its prompt and its end, a collapsed finished block that shares no row with an earlier
      one contributes to the drawn rows exactly its prompt row and its first output row, as far as
      they are in view. */
  lemma CollapsedBlockKeepsTwoRows(bs: seq<Block>, i: nat, from: nat, len: nat, row: nat)
    requires Consecutive(bs) && i < |bs| && bs[i].collapsed && bs[i].endRow.Some?
    requires forall k :: 0 <= k < i && bs[k].endRow.Some? ==> bs[k].endRow.value < bs[i].promptRow
    requires bs[i].promptRow <= row <= bs[i].endRow.value
    ensures row in KeptRows(bs, from, len) <==> from <= row < len && (row == bs[i].promptRow || row == bs[i].outputRow)
  {
    KeptRowsSpec(bs, from, len);
    CollapsedBlockShowsTwoRows(bs, i, row);
  }
}
