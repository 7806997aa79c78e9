/**
 Measuring chrome text: a memo of character widths, the width of a run under a memo, and the
 greedy truncation. Widths are exact reals; the shaping library is a function that may answer
 a width that is not finite.
 */
module ChromeModel {

  datatype Shape = NotFinite | Width(w: real)
  datatype Key = Key(ch: char, size: nat, bold: bool)
  type Memo = map<Key, real>

  /** A font at one physical size: what every width of a run depends on. */
  datatype Face = Face(shape: (char, real, bool) -> Shape, size: real, bold: bool)

  const MAX_KEY: nat := 65535
  const ELLIPSIS: char := '\U{2026}'

  function MaxReal(a: real, b: real): (r: real) {
    if a < b then b else a
  }

  /** Rounding half away from zero, then the clamp to 16 bits. */
  function RoundKey(size: real): (k: nat) {
    if size < 0.0 then 0
    else
      var r := (size + 0.5).Floor;
      if r > MAX_KEY then MAX_KEY else r
  }

  function KeyOf(f: Face, ch: char): (k: Key) {
    Key(ch, RoundKey(f.size), f.bold)
  }

  /** What shaping the character now would give; a width that is not finite counts as zero. */
  function Fresh(f: Face, ch: char): (w: real) {
    match f.shape(ch, MaxReal(f.size, 1.0), f.bold)
    case NotFinite => 0.0
    case Width(w) => MaxReal(w, 0.0)
  }

  function Advance(m: Memo, f: Face, ch: char): (w: real) {
    if KeyOf(f, ch) in m then m[KeyOf(f, ch)] else Fresh(f, ch)
  }

  /** The memo after the character was measured. */
  function Learn(m: Memo, f: Face, ch: char): (n: Memo) {
    if KeyOf(f, ch) in m then m else m[KeyOf(f, ch) := Fresh(f, ch)]
  }

  function LearnAll(m: Memo, f: Face, text: string): (n: Memo) {
    if text == "" then m else Learn(LearnAll(m, f, text[..|text| - 1]), f, text[|text| - 1])
  }

  function RunWidth(m: Memo, f: Face, text: string): (w: real) {
    if text == "" then 0.0 else RunWidth(m, f, text[..|text| - 1]) + Advance(m, f, text[|text| - 1])
  }

  ghost predicate NonNegative(m: Memo) {
    forall k :: k in m ==> m[k] >= 0.0
  }

  ghost predicate Extends(m: Memo, n: Memo) {
    forall k :: k in m ==> k in n && n[k] == m[k]
  }

  ghost predicate Known(m: Memo, f: Face, text: string) {
    forall i :: 0 <= i < |text| ==> KeyOf(f, text[i]) in m
  }

  // ----- The memo over a run of calls -----

  datatype Call = Call(size: real, bold: bool, ch: char)

  function FaceOf(shape: (char, real, bool) -> Shape, c: Call): (f: Face) {
    Face(shape, c.size, c.bold)
  }

  function CallKey(c: Call): (k: Key) {
    Key(c.ch, RoundKey(c.size), c.bold)
  }

  function MemoAfter(shape: (char, real, bool) -> Shape, calls: seq<Call>): (m: Memo) {
    if calls == [] then map[]
    else
      var c := calls[|calls| - 1];
      Learn(MemoAfter(shape, calls[..|calls| - 1]), FaceOf(shape, c), c.ch)
  }

  /** The first call with the key, or the number of calls. */
  function FirstCall(calls: seq<Call>, key: Key): (i: nat)
    ensures i <= |calls|
    ensures i < |calls| ==> CallKey(calls[i]) == key
  {
    if calls == [] then 0
    else
      var i := FirstCall(calls[..|calls| - 1], key);
      if i < |calls| - 1 || CallKey(calls[|calls| - 1]) == key then i else |calls|
  }

  lemma {:induction false} FirstCallIsFirst(calls: seq<Call>, key: Key, j: nat)
    requires j < FirstCall(calls, key) && j < |calls|
    ensures CallKey(calls[j]) != key
  {
    if j < |calls| - 1 {
      FirstCallIsFirst(calls[..|calls| - 1], key, j);
    }
  }

  /** Whatever else was measured, the memo keeps the width of the first call with the key. */
  lemma {:induction false} FirstMeasureStands(shape: (char, real, bool) -> Shape, calls: seq<Call>, key: Key)
    ensures var i, m := FirstCall(calls, key), MemoAfter(shape, calls);
            && (key in m <==> i < |calls|)
            && (key in m ==> m[key] == Fresh(FaceOf(shape, calls[i]), calls[i].ch))
  {
    if calls != [] {
      FirstMeasureStands(shape, calls[..|calls| - 1], key);
    }
  }

  /** The size the shaping library is asked for. */
  function ShapedSize(c: Call): (s: real) {
    MaxReal(c.size, 1.0)
  }

  /** A font whose every character is as wide as the size asked for. */
  function Square(): (shape: (char, real, bool) -> Shape) {
    (ch, size, bold) => Width(size)
  }

  /** The memo answers what measuring afresh would, for every font, if and only if the first call
      that rounds to the same key asked for the same size. Sizes that differ by a fraction of a
      pixel share a key, so a later size is given the width of the earlier one. */
  lemma MemoIsExactIff(calls: seq<Call>, c: Call)
    ensures (forall shape: (char, real, bool) -> Shape ::
               Advance(MemoAfter(shape, calls), FaceOf(shape, c), c.ch) == Fresh(FaceOf(shape, c), c.ch))
       <==> var i := FirstCall(calls, CallKey(c));
            i < |calls| ==> ShapedSize(calls[i]) == ShapedSize(c)
  {
    var i := FirstCall(calls, CallKey(c));
    forall shape: (char, real, bool) -> Shape
      ensures Advance(MemoAfter(shape, calls), FaceOf(shape, c), c.ch)
           == if i < |calls| then Fresh(FaceOf(shape, calls[i]), calls[i].ch) else Fresh(FaceOf(shape, c), c.ch)
    {
      FirstMeasureStands(shape, calls, CallKey(c));
    }
    if i < |calls| && ShapedSize(calls[i]) != ShapedSize(c) {
      var shape := Square();
      assert Fresh(FaceOf(shape, calls[i]), calls[i].ch) == ShapedSize(calls[i]);
      assert Fresh(FaceOf(shape, c), c.ch) == ShapedSize(c);
      assert Advance(MemoAfter(shape, calls), FaceOf(shape, c), c.ch) != Fresh(FaceOf(shape, c), c.ch);
    }
  }

  lemma WholeSizeIsKey(c: Call)
    requires WholeSize(c)
    ensures c.size == CallKey(c).size as real
  {
    var n := c.size.Floor;
    assert (c.size + 0.5).Floor == n;
  }

  /** In particular the memo is exact while every size is a whole number of pixels. */
  lemma WholeSizesAreExact(shape: (char, real, bool) -> Shape, calls: seq<Call>, c: Call)
    requires forall j :: 0 <= j < |calls| ==> WholeSize(calls[j])
    requires WholeSize(c)
    ensures Advance(MemoAfter(shape, calls), FaceOf(shape, c), c.ch) == Fresh(FaceOf(shape, c), c.ch)
  {
    var i := FirstCall(calls, CallKey(c));
    FirstMeasureStands(shape, calls, CallKey(c));
    WholeSizeIsKey(c);
    if i < |calls| {
      WholeSizeIsKey(calls[i]);
    }
  }

  predicate WholeSize(c: Call) {
    0.0 <= c.size <= MAX_KEY as real && c.size == c.size.Floor as real
  }

  /** The call measures a character of the type ramp at a display scale: caption, body, subtitle or
      title, floored at one pixel. */
  predicate OnRamp(c: Call, scale: real) {
    || c.size == MaxReal(12.0 * scale, 1.0) || c.size == MaxReal(14.0 * scale, 1.0)
    || c.size == MaxReal(20.0 * scale, 1.0) || c.size == MaxReal(28.0 * scale, 1.0)
  }

  /** At one scale the steps of the ramp are at least a pixel apart, so they have different keys. */
  lemma RampKeysDiffer(a: Call, b: Call, scale: real)
    requires 0.5 <= scale <= 2340.0 && OnRamp(a, scale) && OnRamp(b, scale)
    ensures RoundKey(a.size) == RoundKey(b.size) ==> a.size == b.size
  {
    HalfWay(a.size, b.size);
  }

  /** Two sizes a pixel apart or more cannot round to one key. */
  lemma HalfWay(a: real, b: real)
    requires 0.0 <= a <= 65535.0 && 0.0 <= b <= 65535.0
    ensures a + 1.0 <= b || b + 1.0 <= a ==> RoundKey(a) != RoundKey(b)
  {
  }

  /** Over any run at one display scale the memo is exact for the type ramp, fractional sizes
      included. */
  lemma RampIsExact(shape: (char, real, bool) -> Shape, scale: real, calls: seq<Call>, c: Call)
    requires 0.5 <= scale <= 2340.0 && OnRamp(c, scale)
    requires forall j :: 0 <= j < |calls| ==> OnRamp(calls[j], scale)
    ensures Advance(MemoAfter(shape, calls), FaceOf(shape, c), c.ch) == Fresh(FaceOf(shape, c), c.ch)
  {
    var i := FirstCall(calls, CallKey(c));
    FirstMeasureStands(shape, calls, CallKey(c));
    if i < |calls| {
      RampKeysDiffer(calls[i], c, scale);
    }
  }

  /** A limit of the memo alone: 17.5 and 18 pixels, which are steps of the ramp at two different
      scales, share a key, and a memo that served both would give the second the width of the
      first. A change of scale therefore needs a new memo. */
  lemma FractionalSizesCollide()
    ensures var early, late := Call(14.0 * 1.25, false, 'm'), Call(12.0 * 1.5, false, 'm');
            && Fresh(FaceOf(Square(), late), 'm') == 18.0
            && Advance(MemoAfter(Square(), [early]), FaceOf(Square(), late), 'm') == 17.5
  {
    var early, late := Call(14.0 * 1.25, false, 'm'), Call(12.0 * 1.5, false, 'm');
    assert RoundKey(17.5) == 18 && RoundKey(18.0) == 18;
    assert [early][..0] == [];
    assert MemoAfter(Square(), [early]) == Learn(map[], FaceOf(Square(), early), 'm');
  }

  // ----- Widths -----

  lemma LearnKeepsAdvance(m: Memo, f: Face, ch: char, other: char)
    ensures Advance(Learn(m, f, ch), f, other) == Advance(m, f, other)
    ensures Extends(m, Learn(m, f, ch)) && (NonNegative(m) ==> NonNegative(Learn(m, f, ch)))
  {
  }

  /** Measuring never changes a width of the same face. */
  lemma {:induction false} LearnKeepsWidth(m: Memo, f: Face, ch: char, text: string)
    ensures RunWidth(Learn(m, f, ch), f, text) == RunWidth(m, f, text)
  {
    if text != "" {
      LearnKeepsWidth(m, f, ch, text[..|text| - 1]);
      LearnKeepsAdvance(m, f, ch, text[|text| - 1]);
    }
  }

  lemma {:induction false} LearnAllSpec(m: Memo, f: Face, text: string)
    ensures var n := LearnAll(m, f, text);
            Extends(m, n) && Known(n, f, text) && (NonNegative(m) ==> NonNegative(n))
  {
    if text != "" {
      LearnAllSpec(m, f, text[..|text| - 1]);
    }
  }

  lemma {:induction false} LearnAllKeepsWidth(m: Memo, f: Face, text: string, other: string)
    ensures RunWidth(LearnAll(m, f, text), f, other) == RunWidth(m, f, other)
  {
    if text != "" {
      LearnAllKeepsWidth(m, f, text[..|text| - 1], other);
      LearnKeepsWidth(LearnAll(m, f, text[..|text| - 1]), f, text[|text| - 1], other);
    }
  }

  /** Once its characters are known, a run keeps its width for good: whatever is measured later,
      and for any face whose size rounds the same. */
  lemma {:induction false} KnownWidthIsFixed(m: Memo, n: Memo, f: Face, g: Face, text: string)
    requires Extends(m, n) && Known(m, f, text)
    requires RoundKey(f.size) == RoundKey(g.size) && f.bold == g.bold
    ensures RunWidth(n, g, text) == RunWidth(m, f, text)
  {
    if text != "" {
      var last := text[|text| - 1];
      assert KeyOf(f, last) in m && KeyOf(g, last) == KeyOf(f, last);
      KnownWidthIsFixed(m, n, f, g, text[..|text| - 1]);
    }
  }

  lemma AdvanceNonNegative(m: Memo, f: Face, ch: char)
    requires NonNegative(m)
    ensures Advance(m, f, ch) >= 0.0
  {
  }

  lemma {:induction false} PrefixIsNarrower(m: Memo, f: Face, text: string, k: nat)
    requires NonNegative(m) && k <= |text|
    ensures 0.0 <= RunWidth(m, f, text[..k]) <= RunWidth(m, f, text)
    decreases |text|
  {
    if k == |text| {
      assert text[..k] == text;
      if text != "" {
        PrefixIsNarrower(m, f, text[..k - 1], k - 1);
        AdvanceNonNegative(m, f, text[k - 1]);
      }
    } else {
      PrefixIsNarrower(m, f, text[..|text| - 1], k);
      AdvanceNonNegative(m, f, text[|text| - 1]);
      assert text[..|text| - 1][..k] == text[..k];
    }
  }

  lemma WidthAppends(m: Memo, f: Face, text: string, ch: char)
    ensures RunWidth(m, f, text + [ch]) == RunWidth(m, f, text) + Advance(m, f, ch)
  {
    assert (text + [ch])[..|text|] == text;
  }

  lemma PrefixStep(m: Memo, f: Face, text: string, i: nat)
    requires i < |text|
    ensures RunWidth(m, f, text[..i + 1]) == RunWidth(m, f, text[..i]) + Advance(m, f, text[i])
  {
    WidthAppends(m, f, text[..i], text[i]);
    assert text[..i] + [text[i]] == text[..i + 1];
  }

  // ----- Truncation -----

  /** How many characters the loop keeps, from the `i`-th on. */
  function KeptFrom(m: Memo, f: Face, text: string, i: nat, used: real, budget: real): (n: nat)
    requires i <= |text|
    ensures i <= n <= |text|
    decreases |text| - i
  {
    if i == |text| || used + Advance(m, f, text[i]) > budget then i
    else KeptFrom(m, f, text, i + 1, used + Advance(m, f, text[i]), budget)
  }

  function Kept(m: Memo, f: Face, text: string, maxWidth: real): (n: nat)
    ensures n <= |text|
  {
    KeptFrom(m, f, text, 0, 0.0, maxWidth - Advance(m, f, ELLIPSIS))
  }

  function Truncated(m: Memo, f: Face, text: string, maxWidth: real): (out: string) {
    if maxWidth <= 0.0 then ""
    else if RunWidth(m, f, text) <= maxWidth then text
    else if Advance(m, f, ELLIPSIS) > maxWidth then ""
    else text[..Kept(m, f, text, maxWidth)] + [ELLIPSIS]
  }

  lemma {:induction false} KeptIsLongest(m: Memo, f: Face, text: string, i: nat, budget: real)
    requires NonNegative(m) && i <= |text| && RunWidth(m, f, text[..i]) <= budget
    ensures var n := KeptFrom(m, f, text, i, RunWidth(m, f, text[..i]), budget);
            && RunWidth(m, f, text[..n]) <= budget
            && (n < |text| ==> RunWidth(m, f, text[..n + 1]) > budget)
    decreases |text| - i
  {
    if i < |text| {
      PrefixStep(m, f, text, i);
      if RunWidth(m, f, text[..i + 1]) <= budget {
        KeptIsLongest(m, f, text, i + 1, budget);
      }
    }
  }

  /** The prefixes that fit beside the ellipsis are exactly those no longer than the one kept. */
  lemma PrefixFitsIff(m: Memo, f: Face, text: string, maxWidth: real, k: nat)
    requires NonNegative(m) && Advance(m, f, ELLIPSIS) <= maxWidth && k <= |text|
    ensures RunWidth(m, f, text[..k] + [ELLIPSIS]) <= maxWidth <==> k <= Kept(m, f, text, maxWidth)
  {
    var n, budget := Kept(m, f, text, maxWidth), maxWidth - Advance(m, f, ELLIPSIS);
    assert text[..0] == "";
    KeptIsLongest(m, f, text, 0, budget);
    WidthAppends(m, f, text[..k], ELLIPSIS);
    if k <= n {
      PrefixIsNarrower(m, f, text[..n], k);
      assert text[..n][..k] == text[..k];
    } else {
      PrefixIsNarrower(m, f, text[..k], n + 1);
      assert text[..k][..n + 1] == text[..n + 1];
    }
  }

  /** What is returned always fits, and never takes room that is not there. */
  lemma TruncatedFits(m: Memo, f: Face, text: string, maxWidth: real)
    requires NonNegative(m)
    ensures 0.0 <= RunWidth(m, f, Truncated(m, f, text, maxWidth)) <= MaxReal(maxWidth, 0.0)
  {
    var out := Truncated(m, f, text, maxWidth);
    PrefixIsNarrower(m, f, out, |out|);
    assert out[..|out|] == out;
    if maxWidth > 0.0 && RunWidth(m, f, text) > maxWidth && Advance(m, f, ELLIPSIS) <= maxWidth {
      PrefixFitsIff(m, f, text, maxWidth, Kept(m, f, text, maxWidth));
    }
  }

  /** Text comes back unchanged exactly when it is empty or fits; text that does not fit comes back
      empty exactly when not even the ellipsis fits, and otherwise as its longest prefix that
      fits with the ellipsis. */
  lemma TruncatedSpec(m: Memo, f: Face, text: string, maxWidth: real)
    requires NonNegative(m)
    ensures var out := Truncated(m, f, text, maxWidth);
            && (out == text <==> text == "" || (maxWidth > 0.0 && RunWidth(m, f, text) <= maxWidth))
            && (out != text ==> (out == "" <==> maxWidth <= 0.0 || Advance(m, f, ELLIPSIS) > maxWidth))
            && (out != text && out != "" ==>
                  exists n: nat :: LongestFit(m, f, text, maxWidth, n) && out == text[..n] + [ELLIPSIS])
  {
    var out, n := Truncated(m, f, text, maxWidth), Kept(m, f, text, maxWidth);
    if maxWidth > 0.0 && RunWidth(m, f, text) > maxWidth && Advance(m, f, ELLIPSIS) <= maxWidth {
      forall k | 0 <= k <= |text|
        ensures FitsWithEllipsis(m, f, text, maxWidth, k) <==> k <= n
      {
        PrefixFitsIff(m, f, text, maxWidth, k);
      }
      assert LongestFit(m, f, text, maxWidth, n);
      TruncatedFits(m, f, text, maxWidth);
    }
  }

  predicate FitsWithEllipsis(m: Memo, f: Face, text: string, maxWidth: real, k: nat)
    requires k <= |text|
  {
    RunWidth(m, f, text[..k] + [ELLIPSIS]) <= maxWidth
  }

  ghost predicate LongestFit(m: Memo, f: Face, text: string, maxWidth: real, n: nat) {
    && n <= |text|
    && forall k | 0 <= k <= |text| :: FitsWithEllipsis(m, f, text, maxWidth, k) <==> k <= n
  }

  /** Truncating again changes nothing. */
  lemma TruncatedSettles(m: Memo, f: Face, text: string, maxWidth: real)
    requires NonNegative(m)
    ensures var out := Truncated(m, f, text, maxWidth); Truncated(m, f, out, maxWidth) == out
  {
    TruncatedFits(m, f, text, maxWidth);
  }

  /** The part of the text that a truncation shows. */
  function Visible(m: Memo, f: Face, text: string, maxWidth: real): (shown: string) {
    var out := Truncated(m, f, text, maxWidth);
    if out == text || out == "" then out else out[..|out| - 1]
  }

  /** It is the whole text, nothing, or what the loop keeps. */
  lemma VisibleIs(m: Memo, f: Face, text: string, maxWidth: real)
    requires NonNegative(m)
    ensures Visible(m, f, text, maxWidth) ==
            if maxWidth <= 0.0 then ""
            else if RunWidth(m, f, text) <= maxWidth then text
            else if Advance(m, f, ELLIPSIS) > maxWidth then ""
            else text[..Kept(m, f, text, maxWidth)]
  {
    var out := Truncated(m, f, text, maxWidth);
    TruncatedSpec(m, f, text, maxWidth);
    if out != text && out != "" {
      assert out[..|out| - 1] == text[..Kept(m, f, text, maxWidth)];
    }
  }

  /** A wider slot never shows less of the text. */
  lemma WiderShowsMore(m: Memo, f: Face, text: string, narrow: real, wide: real)
    requires NonNegative(m) && narrow <= wide
    ensures Visible(m, f, text, narrow) <= Visible(m, f, text, wide)
  {
    VisibleIs(m, f, text, narrow);
    VisibleIs(m, f, text, wide);
    if Advance(m, f, ELLIPSIS) <= narrow {
      PrefixFitsIff(m, f, text, narrow, Kept(m, f, text, narrow));
      PrefixFitsIff(m, f, text, wide, Kept(m, f, text, narrow));
    }
  }

  /** The memo after a truncation. */
  function TruncationMemo(m: Memo, f: Face, text: string, maxWidth: real): (n: Memo) {
    if maxWidth <= 0.0 then m
    else if RunWidth(m, f, text) <= maxWidth then LearnAll(m, f, text)
    else Learn(LearnAll(m, f, text), f, ELLIPSIS)
  }

  lemma TruncationKnows(m: Memo, f: Face, text: string, maxWidth: real)
    ensures var n := TruncationMemo(m, f, text, maxWidth);
            Extends(m, n) && Known(n, f, Truncated(m, f, text, maxWidth)) && (NonNegative(m) ==> NonNegative(n))
  {
    LearnAllSpec(m, f, text);
  }

  lemma TruncationKeepsWidth(m: Memo, f: Face, text: string, maxWidth: real, other: string)
    ensures RunWidth(TruncationMemo(m, f, text, maxWidth), f, other) == RunWidth(m, f, other)
  {
    LearnAllKeepsWidth(m, f, text, other);
    LearnKeepsWidth(LearnAll(m, f, text), f, ELLIPSIS, other);
  }

  // ----- Measuring and drawing agree -----

  /** A run measured, truncated or drawn by anyone. */
  datatype Use = Use(face: Face, text: string)

  function MemoRun(m: Memo, uses: seq<Use>): (n: Memo) {
    if uses == [] then m
    else
      var u := uses[|uses| - 1];
      LearnAll(MemoRun(m, uses[..|uses| - 1]), u.face, u.text)
  }

  lemma {:induction false} MemoRunExtends(m: Memo, uses: seq<Use>)
    ensures Extends(m, MemoRun(m, uses))
  {
    if uses != [] {
      var u := uses[|uses| - 1];
      MemoRunExtends(m, uses[..|uses| - 1]);
      LearnAllSpec(MemoRun(m, uses[..|uses| - 1]), u.face, u.text);
    }
  }

  /** The width drawn is the width measured, whatever runs were measured or drawn in between. */
  lemma DrawnIsMeasured(m: Memo, f: Face, text: string, between: seq<Use>, g: Face)
    requires RoundKey(f.size) == RoundKey(g.size) && f.bold == g.bold
    ensures RunWidth(MemoRun(LearnAll(m, f, text), between), g, text) == RunWidth(m, f, text)
  {
    var n := LearnAll(m, f, text);
    LearnAllSpec(m, f, text);
    MemoRunExtends(n, between);
    KnownWidthIsFixed(n, MemoRun(n, between), f, g, text);
    LearnAllKeepsWidth(m, f, text, text);
  }

  /** A run truncated to a slot still fits the slot when it is drawn. */
  lemma DrawnTruncationFits(m: Memo, f: Face, text: string, maxWidth: real, between: seq<Use>, g: Face)
    requires NonNegative(m) && RoundKey(f.size) == RoundKey(g.size) && f.bold == g.bold
    ensures RunWidth(MemoRun(TruncationMemo(m, f, text, maxWidth), between), g, Truncated(m, f, text, maxWidth))
         <= MaxReal(maxWidth, 0.0)
  {
    var n, out := TruncationMemo(m, f, text, maxWidth), Truncated(m, f, text, maxWidth);
    TruncationKnows(m, f, text, maxWidth);
    MemoRunExtends(n, between);
    KnownWidthIsFixed(n, MemoRun(n, between), f, g, out);
    TruncationKeepsWidth(m, f, text, maxWidth, out);
    TruncatedFits(m, f, text, maxWidth);
  }

  // ----- Where the glyphs go -----

  datatype Bitmap = Bitmap(w: nat, h: nat, pixels: seq<bv8>)
  type Rasterizer = (char, real, real, bool) -> Bitmap
  /** A glyph placed by the drawing pass: its left edge and its size. */
  datatype Quad = Quad(ch: char, left: real, w: nat, h: nat)

  /** What one character draws at a pen position: nothing for a space or an empty bitmap. */
  function QuadFor(b: Bitmap, ch: char, left: real): (q: seq<Quad>) {
    if ch == ' ' || b.w == 0 || b.h == 0 || b.pixels == [] then [] else [Quad(ch, left, b.w, b.h)]
  }

  /** How a run is drawn: the widths it advances by and the bitmaps it shows. */
  datatype Pen = Pen(m: Memo, f: Face, raster: Rasterizer, lineHeight: real)

  function QuadAt(p: Pen, ch: char, left: real): (q: seq<Quad>) {
    QuadFor(p.raster(ch, p.f.size, p.lineHeight, p.f.bold), ch, left)
  }

  function QuadsOf(p: Pen, text: string, px: real): (q: seq<Quad>) {
    if text == "" then []
    else
      var front, ch := text[..|text| - 1], text[|text| - 1];
      QuadsOf(p, front, px) + QuadAt(p, ch, px + RunWidth(p.m, p.f, front))
  }

  ghost predicate InReadingOrder(q: seq<Quad>, from: real, to: real) {
    && (forall k :: 0 <= k < |q| ==> from <= q[k].left <= to)
    && (forall j, k :: 0 <= j < k < |q| ==> q[j].left <= q[k].left)
  }

  lemma OrderAppends(q: seq<Quad>, last: seq<Quad>, from: real, mid: real, to: real)
    requires InReadingOrder(q, from, mid) && from <= mid <= to && |last| <= 1
    requires |last| == 1 ==> last[0].left == mid
    ensures InReadingOrder(q + last, from, to)
  {
    var all := q + last;
    forall k | 0 <= k < |all|
      ensures from <= all[k].left <= to && (k == |q| ==> all[k].left == mid) && (k < |q| ==> all[k] == q[k])
    {
    }
  }

  /** The glyphs of a run stand in reading order, each left edge at or after the one before, and
      all of them inside the measured width. */
  lemma {:induction false} QuadsStayInRun(p: Pen, text: string, px: real)
    requires NonNegative(p.m)
    ensures InReadingOrder(QuadsOf(p, text, px), px, px + RunWidth(p.m, p.f, text))
  {
    if text != "" {
      var n := |text| - 1;
      var pen := px + RunWidth(p.m, p.f, text[..n]);
      QuadsStayInRun(p, text[..n], px);
      PrefixIsNarrower(p.m, p.f, text, n);
      OrderAppends(QuadsOf(p, text[..n], px), QuadAt(p, text[n], pen), px, pen, px + RunWidth(p.m, p.f, text));
    }
  }

  /** Something is drawn for the character. */
  predicate HasInk(p: Pen, ch: char) {
    var b := p.raster(ch, p.f.size, p.lineHeight, p.f.bold);
    ch != ' ' && b.w > 0 && b.h > 0 && |b.pixels| > 0
  }

  /** Positions of the visible characters, ascending. */
  function InkAt(p: Pen, text: string): (at: seq<nat>) {
    if text == "" then []
    else InkAt(p, text[..|text| - 1]) + (if HasInk(p, text[|text| - 1]) then [|text| - 1] else [])
  }

  lemma {:induction false} InkAtSpec(p: Pen, text: string)
    ensures var at := InkAt(p, text);
            && (forall k :: 0 <= k < |at| ==> at[k] < |text| && HasInk(p, text[at[k]]))
            && (forall j, k :: 0 <= j < k < |at| ==> at[j] < at[k])
            && forall i :: 0 <= i < |text| && HasInk(p, text[i]) ==> i in at
  {
    if text != "" {
      var front, at := text[..|text| - 1], InkAt(p, text);
      InkAtSpec(p, front);
      forall i | 0 <= i < |text| && HasInk(p, text[i])
        ensures i in at
      {
        if i < |front| {
          assert front[i] == text[i];
        } else {
          assert at[|at| - 1] == i;
        }
      }
    }
  }

  /** One quad for each visible character, in order: the size of its bitmap, its left edge where the
      text before it ends. */
  lemma {:induction false} EveryInkedIsDrawn(p: Pen, text: string, px: real)
    ensures var q, at := QuadsOf(p, text, px), InkAt(p, text);
            && |q| == |at|
            && forall k :: 0 <= k < |at| ==> at[k] < |text| && DrawnAs(p, text, px, at[k], q[k])
  {
    if text != "" {
      EveryInkedIsDrawn(p, text[..|text| - 1], px);
      InkAtSpec(p, text[..|text| - 1]);
      forall i | 0 <= i < |text| - 1
        ensures text[..|text| - 1][..i] == text[..i]
      {
      }
    }
  }

  predicate DrawnAs(p: Pen, text: string, px: real, i: nat, q: Quad)
    requires i < |text|
  {
    var b := p.raster(text[i], p.f.size, p.lineHeight, p.f.bold);
    q == Quad(text[i], px + RunWidth(p.m, p.f, text[..i]), b.w, b.h)
  }

  lemma {:induction false} WidthSplits(m: Memo, f: Face, a: string, b: string)
    ensures RunWidth(m, f, a + b) == RunWidth(m, f, a) + RunWidth(m, f, b)
    decreases |b|
  {
    if b == "" {
      assert a + b == a;
    } else {
      var front := b[..|b| - 1];
      WidthSplits(m, f, a, front);
      assert (a + b)[..|a + b| - 1] == a + front;
    }
  }

  lemma QuadAppends(p: Pen, text: string, ch: char, px: real, left: real)
    requires left == px + RunWidth(p.m, p.f, text)
    ensures QuadsOf(p, text + [ch], px) == QuadsOf(p, text, px) + QuadAt(p, ch, left)
  {
    assert (text + [ch])[..|text|] == text;
  }

  /** Drawing a text and then more text beside it places every glyph as drawing them in one run. */
  lemma {:induction false} DrawingSplits(p: Pen, a: string, b: string, px: real, mid: real)
    requires mid == px + RunWidth(p.m, p.f, a)
    ensures QuadsOf(p, a + b, px) == QuadsOf(p, a, px) + QuadsOf(p, b, mid)
    decreases |b|
  {
    if b == "" {
      assert a + b == a;
    } else {
      var front, ch := b[..|b| - 1], b[|b| - 1];
      var left := mid + RunWidth(p.m, p.f, front);
      DrawingSplits(p, a, front, px, mid);
      WidthSplits(p.m, p.f, a, front);
      QuadAppends(p, a + front, ch, px, left);
      QuadAppends(p, front, ch, mid, left);
      assert a + b == (a + front) + [ch] && b == front + [ch];
    }
  }
}
