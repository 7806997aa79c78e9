/**
 Command blocks folded from the stream of OSC 133 marks: the loop that folds them, what it
 computes stated over positions in the stream, and how the blocks behave as marks arrive.
 */
module CommandBlocks {
  import opened Wrappers

  datatype MarkKind = PromptStart | CommandStart | OutputStart | CommandEnd

  /** A mark at a scrollback-absolute row. */
  datatype Mark = Mark(row: nat, kind: MarkKind, exitCode: Option<int>)

  datatype Block = Block(id: nat, paneId: nat, promptRow: nat, commandRow: nat, outputRow: nat,
                         endRow: Option<nat>, exitCode: Option<int>, collapsed: bool)

  /** The pane above 32 bits, the low 32 bits of the row below. */
  function MakeBlockId(paneId: nat, promptRow: nat): (id: nat) {
    paneId * 0x1_0000_0000 + promptRow % 0x1_0000_0000
  }

  /** Two blocks share an id exactly when they share the pane and the row modulo 2^32. */
  lemma BlockIdsCollide(p1: nat, r1: nat, p2: nat, r2: nat)
    ensures MakeBlockId(p1, r1) == MakeBlockId(p2, r2) <==> p1 == p2 && r1 % 0x1_0000_0000 == r2 % 0x1_0000_0000
  {
    assert MakeBlockId(p1, r1) / 0x1_0000_0000 == p1 && MakeBlockId(p2, r2) / 0x1_0000_0000 == p2;
  }

  // ----- The fold -----

  function Open(paneId: nat, row: nat): (b: Block) {
    Block(MakeBlockId(paneId, row), paneId, row, row, row, None, None, false)
  }

  /** The state of the fold: finished blocks, and the block still open. */
  datatype Fold = Fold(blocks: seq<Block>, current: Option<Block>)

  function Flush(f: Fold): (bs: seq<Block>) {
    if f.current.Some? then f.blocks + [f.current.value] else f.blocks
  }

  function Consume(paneId: nat, f: Fold, m: Mark): (n: Fold) {
    match (m.kind, f.current)
    case (PromptStart, _) => Fold(Flush(f), Some(Open(paneId, m.row)))
    case (CommandStart, Some(b)) => f.(current := Some(b.(commandRow := m.row, outputRow := m.row)))
    case (OutputStart, Some(b)) => f.(current := Some(b.(outputRow := m.row)))
    case (CommandEnd, Some(b)) => Fold(f.blocks + [b.(endRow := Some(m.row), exitCode := m.exitCode)], None)
    case (_, None) => f
  }

  function FoldMarks(paneId: nat, marks: seq<Mark>): (f: Fold) {
    if marks == [] then Fold([], None)
    else Consume(paneId, FoldMarks(paneId, marks[..|marks| - 1]), marks[|marks| - 1])
  }

  /** The blocks of a mark stream; a block still open at the end is flushed as running. */
  function Extract(paneId: nat, marks: seq<Mark>): (bs: seq<Block>) {
    Flush(FoldMarks(paneId, marks))
  }

  /** The extraction loop. */
  method ExtractCommandBlocks(paneId: nat, marks: seq<Mark>) returns (blocks: seq<Block>)
    ensures blocks == Extract(paneId, marks)
  {
    blocks := [];
    var current: Option<Block> := None;
    for i := 0 to |marks|
      invariant Fold(blocks, current) == FoldMarks(paneId, marks[..i])
    {
      var m := marks[i];
      assert marks[..i + 1][..i] == marks[..i];
      match m.kind {
        case PromptStart =>
          if current.Some? {
            blocks := blocks + [current.value];
          }
          current := Some(Open(paneId, m.row));
        case CommandStart =>
          if current.Some? {
            current := Some(current.value.(commandRow := m.row, outputRow := m.row));
          }
        case OutputStart =>
          if current.Some? {
            current := Some(current.value.(outputRow := m.row));
          }
        case CommandEnd =>
          if current.Some? {
            blocks := blocks + [current.value.(endRow := Some(m.row), exitCode := m.exitCode)];
            current := None;
          }
      }
    }
    assert marks[..|marks|] == marks;
    if current.Some? {
      blocks := blocks + [current.value];
    }
  }

  // ----- What it computes, over positions -----

  /** Positions of the prompt marks, in order. */
  function Starts(marks: seq<Mark>): (ps: seq<nat>)
    ensures forall i :: 0 <= i < |ps| ==> ps[i] < |marks| && marks[ps[i]].kind == PromptStart
  {
    if marks == [] then []
    else
      Starts(marks[..|marks| - 1]) + (if marks[|marks| - 1].kind == PromptStart then [|marks| - 1] else [])
  }

  /** Where the stretch of the i-th prompt ends: at the next prompt, or with the stream. */
  function StretchEnd(marks: seq<Mark>, i: nat): (hi: nat) {
    if i + 1 < |Starts(marks)| then Starts(marks)[i + 1] else |marks|
  }

  /** First command end in (lo, hi), or `hi`. */
  function FirstEnd(marks: seq<Mark>, lo: nat, hi: nat): (e: nat)
    requires lo < hi <= |marks|
    ensures lo < e <= hi
  {
    if hi == lo + 1 then hi
    else
      var e := FirstEnd(marks, lo, hi - 1);
      if e < hi - 1 then e else if marks[hi - 1].kind == CommandEnd then hi - 1 else hi
  }

  /** Last position in (lo, hi) of one of the kinds, or `lo`. */
  function LastOf(marks: seq<Mark>, kinds: set<MarkKind>, lo: nat, hi: nat): (p: nat)
    requires lo < hi <= |marks|
    ensures lo <= p < hi
  {
    if hi == lo + 1 then lo
    else if marks[hi - 1].kind in kinds then hi - 1
    else LastOf(marks, kinds, lo, hi - 1)
  }

  lemma {:induction false} FirstEndSpec(marks: seq<Mark>, lo: nat, hi: nat)
    requires lo < hi <= |marks|
    ensures var e := FirstEnd(marks, lo, hi);
            && (e < hi ==> marks[e].kind == CommandEnd)
            && forall k :: lo < k < e ==> marks[k].kind != CommandEnd
  {
    if hi > lo + 1 {
      FirstEndSpec(marks, lo, hi - 1);
    }
  }

  lemma {:induction false} LastOfSpec(marks: seq<Mark>, kinds: set<MarkKind>, lo: nat, hi: nat)
    requires lo < hi <= |marks|
    ensures var p := LastOf(marks, kinds, lo, hi);
            && (p > lo ==> marks[p].kind in kinds)
            && forall k :: p < k < hi ==> marks[k].kind !in kinds
  {
    if hi > lo + 1 && marks[hi - 1].kind !in kinds {
      LastOfSpec(marks, kinds, lo, hi - 1);
    }
  }

  /** The block of the prompt at `lo` whose stretch ends at `hi`: command row from the last B,
      output row from the last B or C, both before the first D; end and exit code from it. */
  function BlockAt(paneId: nat, marks: seq<Mark>, lo: nat, hi: nat): (b: Block)
    requires lo < hi <= |marks|
  {
    var stop := FirstEnd(marks, lo, hi);
    Block(MakeBlockId(paneId, marks[lo].row), paneId, marks[lo].row,
          marks[LastOf(marks, {CommandStart}, lo, stop)].row,
          marks[LastOf(marks, {CommandStart, OutputStart}, lo, stop)].row,
          if stop < hi then Some(marks[stop].row) else None,
          if stop < hi then marks[stop].exitCode else None,
          false)
  }

  lemma {:induction false} StartsAreOrdered(marks: seq<Mark>)
    ensures forall i, j :: 0 <= i < j < |Starts(marks)| ==> Starts(marks)[i] < Starts(marks)[j]
    ensures forall k :: 0 <= k < |marks| && marks[k].kind == PromptStart ==> k in Starts(marks)
  {
    if marks != [] {
      var front := marks[..|marks| - 1];
      StartsAreOrdered(front);
      forall k | 0 <= k < |marks| && marks[k].kind == PromptStart
        ensures k in Starts(marks)
      {
        if k < |front| {
          assert front[k] == marks[k];
        } else {
          assert Starts(marks)[|Starts(marks)| - 1] == k;
        }
      }
    }
  }

  /** Looking only at a stretch, more marks after it change nothing. */
  lemma {:induction false} StretchIsLocal(marks: seq<Mark>, more: seq<Mark>, lo: nat, hi: nat)
    requires lo < hi <= |marks| && marks <= more
    ensures FirstEnd(more, lo, hi) == FirstEnd(marks, lo, hi)
    decreases hi
  {
    if hi > lo + 1 {
      StretchIsLocal(marks, more, lo, hi - 1);
    }
  }

  lemma {:induction false} LastIsLocal(marks: seq<Mark>, more: seq<Mark>, kinds: set<MarkKind>, lo: nat, hi: nat)
    requires lo < hi <= |marks| && marks <= more
    ensures LastOf(more, kinds, lo, hi) == LastOf(marks, kinds, lo, hi)
    decreases hi
  {
    if hi > lo + 1 {
      LastIsLocal(marks, more, kinds, lo, hi - 1);
    }
  }

  lemma BlockIsLocal(paneId: nat, marks: seq<Mark>, more: seq<Mark>, lo: nat, hi: nat)
    requires lo < hi <= |marks| && marks <= more
    ensures BlockAt(paneId, more, lo, hi) == BlockAt(paneId, marks, lo, hi)
  {
    StretchIsLocal(marks, more, lo, hi);
    var stop := FirstEnd(marks, lo, hi);
    LastIsLocal(marks, more, {CommandStart}, lo, stop);
    LastIsLocal(marks, more, {CommandStart, OutputStart}, lo, stop);
  }

  /** What a mark other than a prompt does to the last block: nothing once it has ended. */
  function Grown(b: Block, m: Mark): (n: Block) {
    if b.endRow.Some? then b
    else
      match m.kind
      case PromptStart => b
      case CommandStart => b.(commandRow := m.row, outputRow := m.row)
      case OutputStart => b.(outputRow := m.row)
      case CommandEnd => b.(endRow := Some(m.row), exitCode := m.exitCode)
  }

  /** One more mark that is not a prompt, seen by the last stretch. */
  lemma StretchGrows(paneId: nat, front: seq<Mark>, m: Mark, lo: nat)
    requires lo < |front| && m.kind != PromptStart
    ensures BlockAt(paneId, front + [m], lo, |front| + 1) == Grown(BlockAt(paneId, front, lo, |front|), m)
  {
    var marks, hi := front + [m], |front|;
    BlockIsLocal(paneId, front, marks, lo, hi);
    StretchIsLocal(front, marks, lo, hi);
    var stop := FirstEnd(front, lo, hi);
    assert FirstEnd(marks, lo, hi + 1) ==
           if stop < hi then stop else if m.kind == CommandEnd then hi else hi + 1;
  }

  /** The blocks, one for each prompt in order. */
  function SpecBlocks(paneId: nat, marks: seq<Mark>): (bs: seq<Block>) {
    StartsBounds(marks);
    seq(|Starts(marks)|, i requires 0 <= i < |Starts(marks)| =>
      BlockAt(paneId, marks, Starts(marks)[i], StretchEnd(marks, i)))
  }

  lemma StartsBounds(marks: seq<Mark>)
    ensures forall i :: 0 <= i < |Starts(marks)| ==> Starts(marks)[i] < StretchEnd(marks, i) <= |marks|
  {
    StartsAreOrdered(marks);
  }

  /** One more mark: a prompt adds a block, any other mark grows the last one. */
  function NextBlocks(paneId: nat, bs: seq<Block>, m: Mark): (n: seq<Block>) {
    if m.kind == PromptStart then bs + [Open(paneId, m.row)]
    else if bs == [] then []
    else bs[..|bs| - 1] + [Grown(bs[|bs| - 1], m)]
  }

  lemma StartsSnoc(front: seq<Mark>, m: Mark)
    ensures Starts(front + [m]) == Starts(front) + (if m.kind == PromptStart then [|front|] else [])
  {
    assert (front + [m])[..|front|] == front;
  }

  /** Blocks before the last one are settled; the last one too when a prompt comes. */
  lemma SettledBlock(paneId: nat, front: seq<Mark>, m: Mark, i: nat)
    requires i < |Starts(front)| && (i + 1 < |Starts(front)| || m.kind == PromptStart)
    ensures SpecBlocks(paneId, front + [m])[i] == SpecBlocks(paneId, front)[i]
  {
    StartsSnoc(front, m);
    StartsBounds(front);
    StartsBounds(front + [m]);
    BlockIsLocal(paneId, front, front + [m], Starts(front)[i], StretchEnd(front, i));
  }

  lemma LastSpecBlock(paneId: nat, marks: seq<Mark>, last: nat, lo: nat)
    requires last + 1 == |Starts(marks)| && lo == Starts(marks)[last]
    ensures lo < |marks| && SpecBlocks(paneId, marks)[last] == BlockAt(paneId, marks, lo, |marks|)
  {
    StartsBounds(marks);
  }

  /** A mark that is no prompt leaves the last stretch where it began. */
  lemma LastStartStays(front: seq<Mark>, m: Mark, last: nat, lo: nat)
    requires m.kind != PromptStart && last + 1 == |Starts(front)| && lo == Starts(front)[last]
    ensures last + 1 == |Starts(front + [m])| && lo == Starts(front + [m])[last]
  {
    StartsSnoc(front, m);
  }

  lemma LastBlock(paneId: nat, front: seq<Mark>, marks: seq<Mark>, m: Mark, last: nat)
    requires m.kind != PromptStart && last + 1 == |Starts(front)| && marks == front + [m]
    ensures |Starts(marks)| == last + 1
    ensures SpecBlocks(paneId, marks)[last] == Grown(SpecBlocks(paneId, front)[last], m)
  {
    var lo := Starts(front)[last];
    LastStartStays(front, m, last, lo);
    LastSpecBlock(paneId, front, last, lo);
    LastSpecBlock(paneId, marks, last, lo);
    StretchGrows(paneId, front, m, lo);
  }

  lemma NewBlock(paneId: nat, front: seq<Mark>, m: Mark)
    requires m.kind == PromptStart
    ensures var n := SpecBlocks(paneId, front + [m]);
            |n| == |Starts(front)| + 1 && n[|n| - 1] == Open(paneId, m.row)
  {
    StartsSnoc(front, m);
    StartsBounds(front + [m]);
  }

  lemma SettledBlocks(paneId: nat, front: seq<Mark>, m: Mark, k: nat)
    requires k <= |Starts(front)| && (k < |Starts(front)| || m.kind == PromptStart)
    ensures k <= |Starts(front + [m])| && SpecBlocks(paneId, front + [m])[..k] == SpecBlocks(paneId, front)[..k]
  {
    StartsSnoc(front, m);
    forall i | 0 <= i < k
      ensures SpecBlocks(paneId, front + [m])[i] == SpecBlocks(paneId, front)[i]
    {
      SettledBlock(paneId, front, m, i);
    }
  }

  lemma FrontAndLast<T>(s: seq<T>, k: nat)
    requires |s| == k + 1
    ensures s == s[..k] + [s[k]]
  {
  }

  lemma SpecAtPrompt(paneId: nat, front: seq<Mark>, m: Mark)
    requires m.kind == PromptStart
    ensures SpecBlocks(paneId, front + [m]) == SpecBlocks(paneId, front) + [Open(paneId, m.row)]
  {
    var k := |Starts(front)|;
    SettledBlocks(paneId, front, m, k);
    NewBlock(paneId, front, m);
    FrontAndLast(SpecBlocks(paneId, front + [m]), k);
  }

  lemma SpecGrows(paneId: nat, front: seq<Mark>, m: Mark, last: nat)
    requires m.kind != PromptStart && last + 1 == |Starts(front)|
    ensures var bs := SpecBlocks(paneId, front);
            SpecBlocks(paneId, front + [m]) == bs[..last] + [Grown(bs[last], m)]
  {
    SettledBlocks(paneId, front, m, last);
    LastBlock(paneId, front, front + [m], m, last);
    FrontAndLast(SpecBlocks(paneId, front + [m]), last);
  }

  lemma SpecSnoc(paneId: nat, front: seq<Mark>, m: Mark)
    ensures SpecBlocks(paneId, front + [m]) == NextBlocks(paneId, SpecBlocks(paneId, front), m)
  {
    if m.kind == PromptStart {
      SpecAtPrompt(paneId, front, m);
    } else if Starts(front) == [] {
      StartsSnoc(front, m);
    } else {
      SpecGrows(paneId, front, m, |Starts(front)| - 1);
    }
  }

  /** The fold holds these blocks, the last one open exactly while it has not ended. */
  ghost predicate Holds(f: Fold, bs: seq<Block>) {
    && Flush(f) == bs
    && (f.current.Some? <==> bs != [] && bs[|bs| - 1].endRow.None?)
  }

  lemma ConsumeHolds(paneId: nat, f: Fold, bs: seq<Block>, m: Mark)
    requires Holds(f, bs)
    ensures Holds(Consume(paneId, f, m), NextBlocks(paneId, bs, m))
  {
    if bs != [] && f.current.Some? {
      assert f.blocks == bs[..|bs| - 1] && f.current.value == bs[|bs| - 1];
    } else if bs != [] {
      assert bs == bs[..|bs| - 1] + [bs[|bs| - 1]];
    }
  }

  lemma FoldSnoc(paneId: nat, marks: seq<Mark>, m: Mark)
    ensures FoldMarks(paneId, marks + [m]) == Consume(paneId, FoldMarks(paneId, marks), m)
  {
    assert (marks + [m])[..|marks|] == marks;
  }

  lemma FoldSpecSnoc(paneId: nat, front: seq<Mark>, m: Mark)
    requires Holds(FoldMarks(paneId, front), SpecBlocks(paneId, front))
    ensures Holds(FoldMarks(paneId, front + [m]), SpecBlocks(paneId, front + [m]))
  {
    FoldSnoc(paneId, front, m);
    SpecSnoc(paneId, front, m);
    ConsumeHolds(paneId, FoldMarks(paneId, front), SpecBlocks(paneId, front), m);
  }

  lemma {:induction false} FoldSpec(paneId: nat, marks: seq<Mark>)
    ensures Holds(FoldMarks(paneId, marks), SpecBlocks(paneId, marks))
  {
    if marks != [] {
      var front, m := marks[..|marks| - 1], marks[|marks| - 1];
      FoldSpec(paneId, front);
      FoldSpecSnoc(paneId, front, m);
      assert marks == front + [m];
    } else {
      assert Starts(marks) == [];
    }
  }

  /** The extraction is the declarative one. */
  lemma ExtractIsSpec(paneId: nat, marks: seq<Mark>)
    ensures Extract(paneId, marks) == SpecBlocks(paneId, marks)
  {
    FoldSpec(paneId, marks);
  }

  ghost predicate RowsAscend(marks: seq<Mark>) {
    forall a, b :: 0 <= a <= b < |marks| ==> marks[a].row <= marks[b].row
  }

  lemma StretchIsOrdered(paneId: nat, marks: seq<Mark>, lo: nat, hi: nat)
    requires RowsAscend(marks) && lo < hi <= |marks|
    ensures var b := BlockAt(paneId, marks, lo, hi);
            && b.promptRow <= b.commandRow <= b.outputRow
            && (b.endRow.Some? ==> b.outputRow <= b.endRow.value)
            && (hi < |marks| ==>
                  b.outputRow <= marks[hi].row && (b.endRow.Some? ==> b.endRow.value <= marks[hi].row))
  {
    var stop := FirstEnd(marks, lo, hi);
    var c, o := LastOf(marks, {CommandStart}, lo, stop), LastOf(marks, {CommandStart, OutputStart}, lo, stop);
    LastOfSpec(marks, {CommandStart}, lo, stop);
    LastOfSpec(marks, {CommandStart, OutputStart}, lo, stop);
    assert c <= o;
  }

  /** Marks in scrollback order give ordered rows: prompt, command, output, end, next prompt. */
  lemma RowsAreOrdered(paneId: nat, marks: seq<Mark>, i: nat)
    requires RowsAscend(marks) && i < |Extract(paneId, marks)|
    ensures var bs := Extract(paneId, marks); var b := bs[i];
            && b.promptRow <= b.commandRow <= b.outputRow
            && (b.endRow.Some? ==> b.outputRow <= b.endRow.value)
            && (i + 1 < |bs| ==>
                  && b.outputRow <= bs[i + 1].promptRow
                  && (b.endRow.Some? ==> b.endRow.value <= bs[i + 1].promptRow))
  {
    ExtractIsSpec(paneId, marks);
    StartsBounds(marks);
    StretchIsOrdered(paneId, marks, Starts(marks)[i], StretchEnd(marks, i));
  }

  // ----- The stream grows -----

  lemma ExtractSnoc(paneId: nat, marks: seq<Mark>, m: Mark)
    ensures Extract(paneId, marks + [m]) == NextBlocks(paneId, Extract(paneId, marks), m)
  {
    ExtractIsSpec(paneId, marks);
    ExtractIsSpec(paneId, marks + [m]);
    SpecSnoc(paneId, marks, m);
  }

  /** More marks keep every block but a last running one, and of that one the identity. */
  ghost predicate Extends(before: seq<Block>, after: seq<Block>) {
    && |before| <= |after|
    && (forall i :: 0 <= i < |before| && (i + 1 < |before| || before[i].endRow.Some?) ==> after[i] == before[i])
    && (before != [] ==>
          var last := |before| - 1;
          && after[last].id == before[last].id && after[last].paneId == before[last].paneId
          && after[last].promptRow == before[last].promptRow)
  }

  lemma NextExtends(paneId: nat, o: seq<Block>, n: seq<Block>, m: Mark)
    requires Extends(o, n)
    ensures Extends(o, NextBlocks(paneId, n, m))
  {
  }

  /** Extraction is stable: extending the stream never changes a block, except a last one
      that is still running, whose id and prompt row stay. */
  lemma {:induction false} ExtractionIsStable(paneId: nat, marks: seq<Mark>, more: seq<Mark>)
    ensures Extends(Extract(paneId, marks), Extract(paneId, marks + more))
    decreases |more|
  {
    if more == [] {
      assert marks + more == marks;
    } else {
      var front, m := more[..|more| - 1], more[|more| - 1];
      ExtractionIsStable(paneId, marks, front);
      assert marks + more == (marks + front) + [m];
      ExtractSnoc(paneId, marks + front, m);
      NextExtends(paneId, Extract(paneId, marks), Extract(paneId, marks + front), m);
    }
  }

  /** A stream that continues with a prompt splits: the blocks are those of the two parts. */
  lemma {:induction false} PromptSplitsStream(paneId: nat, marks: seq<Mark>, more: seq<Mark>)
    requires more != [] && more[0].kind == PromptStart
    ensures Extract(paneId, marks + more) == Extract(paneId, marks) + Extract(paneId, more)
    decreases |more|
  {
    var front, m := more[..|more| - 1], more[|more| - 1];
    assert marks + more == (marks + front) + [m] && more == front + [m];
    ExtractSnoc(paneId, marks + front, m);
    ExtractSnoc(paneId, front, m);
    if |more| == 1 {
      assert marks + front == marks && Extract(paneId, front) == [];
    } else {
      PromptSplitsStream(paneId, marks, front);
      PromptHasBlock(paneId, front);
      NextConcat(paneId, Extract(paneId, marks), Extract(paneId, front), m);
    }
  }

  lemma NextConcat(paneId: nat, a: seq<Block>, b: seq<Block>, m: Mark)
    requires b != []
    ensures NextBlocks(paneId, a + b, m) == a + NextBlocks(paneId, b, m)
  {
    assert (a + b)[..|a + b| - 1] == a + b[..|b| - 1];
  }

  lemma PromptHasBlock(paneId: nat, marks: seq<Mark>)
    requires marks != [] && marks[0].kind == PromptStart
    ensures Extract(paneId, marks) != []
  {
    ExtractIsSpec(paneId, marks);
    StartsAreOrdered(marks);
    assert 0 in Starts(marks);
  }

  // ----- Stepping from block to block -----

  /** Position of the first block with this id, or the number of blocks. */
  function Position(bs: seq<Block>, id: nat): (i: nat)
    ensures i <= |bs|
  {
    PositionFrom(bs, id, 0)
  }

  function PositionFrom(bs: seq<Block>, id: nat, from: nat): (i: nat)
    requires from <= |bs|
    ensures from <= i <= |bs|
    decreases |bs| - from
  {
    if from == |bs| || bs[from].id == id then from else PositionFrom(bs, id, from + 1)
  }

  lemma {:induction false} PositionSpec(bs: seq<Block>, id: nat, from: nat)
    requires from <= |bs|
    ensures var i := PositionFrom(bs, id, from);
            (i < |bs| ==> bs[i].id == id) && forall j :: from <= j < i ==> bs[j].id != id
    decreases |bs| - from
  {
    if from < |bs| && bs[from].id != id {
      PositionSpec(bs, id, from + 1);
    }
  }

  function NextBlockId(bs: seq<Block>, current: Option<nat>): (id: Option<nat>) {
    match current
    case None => if bs == [] then None else Some(bs[0].id)
    case Some(c) =>
      var i := Position(bs, c);
      if i + 1 < |bs| then Some(bs[i + 1].id) else None
  }

  function PrevBlockId(bs: seq<Block>, current: Option<nat>): (id: Option<nat>) {
    match current
    case None => if bs == [] then None else Some(bs[|bs| - 1].id)
    case Some(c) =>
      var i := Position(bs, c);
      if 0 < i < |bs| then Some(bs[i - 1].id) else None
  }

  /** Where stepping begins and ends: at either end of the list, and at an id that is not in it. */
  lemma {:induction false} StepsEnd(bs: seq<Block>, id: nat)
    ensures (forall i :: 0 <= i < |bs| ==> bs[i].id != id) ==>
              NextBlockId(bs, Some(id)) == None && PrevBlockId(bs, Some(id)) == None
    ensures bs == [] ==> NextBlockId(bs, None) == None && PrevBlockId(bs, None) == None
    ensures bs != [] ==>
              && NextBlockId(bs, None) == Some(bs[0].id) && PrevBlockId(bs, Some(bs[0].id)) == None
              && PrevBlockId(bs, None) == Some(bs[|bs| - 1].id)
  {
    PositionSpec(bs, id, 0);
    assert bs != [] ==> Position(bs, bs[0].id) == 0;
  }

  ghost predicate DistinctIds(bs: seq<Block>) {
    forall i, j :: 0 <= i < j < |bs| ==> bs[i].id != bs[j].id
  }

  function Iterate<T>(f: T -> T, x: T, n: nat): (y: T) {
    if n == 0 then x else f(Iterate(f, x, n - 1))
  }

  /** Where an iteration comes to the same value twice, it goes on the same way. */
  lemma {:induction false} IterateRepeats<T>(f: T -> T, x: T, i: nat, j: nat, n: nat)
    requires Iterate(f, x, i) == Iterate(f, x, j)
    ensures Iterate(f, x, i + n) == Iterate(f, x, j + n)
  {
    if n > 0 {
      IterateRepeats(f, x, i, j, n - 1);
    }
  }

  function StepFrom(bs: seq<Block>): (f: Option<nat> -> Option<nat>) {
    (at: Option<nat>) => if at.None? then None else NextBlockId(bs, at)
  }

  /** The n-th stop of stepping forward from nothing. */
  function Walk(bs: seq<Block>, n: nat): (id: Option<nat>) {
    Iterate(StepFrom(bs), NextBlockId(bs, None), n)
  }

  /** Stepping forward visits every block in order and then stops. */
  ghost predicate VisitsAll(bs: seq<Block>) {
    (forall i :: 0 <= i < |bs| ==> Walk(bs, i) == Some(bs[i].id)) && Walk(bs, |bs|) == None
  }

  lemma {:induction false} WalkInOrder(bs: seq<Block>, n: nat)
    requires DistinctIds(bs) && n <= |bs|
    ensures Walk(bs, n) == if n < |bs| then Some(bs[n].id) else None
  {
    if n > 0 {
      WalkInOrder(bs, n - 1);
      PositionSpec(bs, bs[n - 1].id, 0);
      assert Position(bs, bs[n - 1].id) == n - 1;
    }
  }

  /** An iteration that comes back to a value never reaches a different one for good. */
  lemma IterateNeverEnds<T>(f: T -> T, x: T, i: nat, j: nat, n: nat)
    requires i < j <= n && Iterate(f, x, i) == Iterate(f, x, j)
    ensures Iterate(f, x, n) == Iterate(f, x, n - (j - i))
  {
    IterateRepeats(f, x, i, j, n - j);
  }

  lemma VisitedOnce(bs: seq<Block>, i: nat, j: nat)
    requires VisitsAll(bs) && i < j < |bs|
    ensures bs[i].id != bs[j].id
  {
    var x := NextBlockId(bs, None);
    assert Walk(bs, i) == Some(bs[i].id) && Walk(bs, j) == Some(bs[j].id);
    assert Walk(bs, |bs|) != Walk(bs, |bs| - (j - i));
    if Iterate(StepFrom(bs), x, i) == Iterate(StepFrom(bs), x, j) {
      IterateNeverEnds(StepFrom(bs), x, i, j, |bs|);
    }
  }

  /** Stepping forward reaches every block exactly when no two blocks share an id: a shared
      id sends the walk back to its first holder. */
  lemma WalkVisitsAllIffDistinct(bs: seq<Block>)
    ensures VisitsAll(bs) <==> DistinctIds(bs)
  {
    if DistinctIds(bs) {
      forall i | 0 <= i < |bs|
        ensures Walk(bs, i) == Some(bs[i].id)
      {
        WalkInOrder(bs, i);
      }
      WalkInOrder(bs, |bs|);
    }
    if VisitsAll(bs) {
      forall i, j | 0 <= i < j < |bs|
        ensures bs[i].id != bs[j].id
      {
        VisitedOnce(bs, i, j);
      }
    }
  }

  /** Two blocks that share an id trap the walk: it stays on the first for ever. */
  lemma {:induction false} TwinsTrapWalk(bs: seq<Block>, n: nat)
    requires |bs| == 2 && bs[0].id == bs[1].id
    ensures Walk(bs, n) == Some(bs[0].id)
  {
    if n > 0 {
      TwinsTrapWalk(bs, n - 1);
    }
  }

  lemma TwinPrompts(a: Mark, d: Mark)
    requires a.kind == PromptStart && d.kind == CommandEnd
    ensures Extract(1, [a, d, a]) ==
            [Open(1, a.row).(endRow := Some(d.row), exitCode := d.exitCode), Open(1, a.row)]
  {
    FoldSnoc(1, [], a);
    FoldSnoc(1, [a], d);
    FoldSnoc(1, [a, d], a);
    assert [] + [a] == [a] && [a] + [d] == [a, d] && [a, d] + [a] == [a, d, a];
  }

  /** Two prompts on one row, the first command finished: stepping forward stays on the first
      block for ever and never stops. */
  lemma SharedIdTrapsWalk(n: nat)
    ensures var marks := [Mark(0, PromptStart, None), Mark(0, CommandEnd, None), Mark(0, PromptStart, None)];
            var bs := Extract(1, marks);
            |bs| == 2 && bs[0].endRow.Some? && bs[1].endRow.None? && Walk(bs, n) == Some(bs[0].id)
  {
    var a, d := Mark(0, PromptStart, None), Mark(0, CommandEnd, None);
    TwinPrompts(a, d);
    TwinsTrapWalk(Extract(1, [a, d, a]), n);
  }

  /** With distinct ids, stepping back undoes stepping forward. */
  lemma PrevUndoesNext(bs: seq<Block>, c: nat)
    requires DistinctIds(bs) && NextBlockId(bs, Some(c)).Some?
    ensures PrevBlockId(bs, NextBlockId(bs, Some(c))) == Some(c)
  {
    var i := Position(bs, c);
    PositionSpec(bs, c, 0);
    PositionSpec(bs, bs[i + 1].id, 0);
    assert Position(bs, bs[i + 1].id) == i + 1;
  }
}
