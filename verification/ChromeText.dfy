/**
 The memo of chrome widths as the font manager holds it, and the measuring, truncating and
 drawing of a run through it. Each method is proved against `ChromeModel`.
 */
module ChromeText {
  import opened ChromeModel

  datatype TypeStyle = TypeStyle(size: real, lineHeight: real, weight: nat)
  /** The quads a renderer is collecting. */
  class TextBatch {
    var quads: seq<Quad>

    constructor ()
      ensures quads == []
    {
      quads := [];
    }
  }

  /** Font size and line height of the terminal text, in physical pixels. */
  datatype Metrics = Metrics(fontSize: real, lineHeight: real)

  /** Points at 96 dots per inch, times the display scale; lines are a fifth higher. */
  function MetricsAt(sizePt: real, scale: real): (m: Metrics) {
    var px := sizePt * (96.0 / 72.0) * scale;
    Metrics(px, px * 1.2)
  }

  /** At scale one, 72 points are 96 pixels on lines of 115.2; both grow with size and scale. */
  lemma MetricsScale(sizePt: real, scale: real)
    ensures MetricsAt(72.0, 1.0) == Metrics(96.0, 115.2)
    ensures MetricsAt(sizePt, scale).fontSize == sizePt * scale * MetricsAt(1.0, 1.0).fontSize
    ensures MetricsAt(sizePt, scale).lineHeight == sizePt * scale * MetricsAt(1.0, 1.0).lineHeight
  {
  }

  class FontManager {
    const shape: (char, real, bool) -> Shape
    const rasterize: Rasterizer
    const measureCell: Metrics -> real
    var scaleFactor: real
    var metrics: Metrics
    var cellWidth: real
    var advances: Memo

    ghost predicate Valid()
      reads this
    {
      NonNegative(advances)
    }

    /** The metrics and the cell are those of this size and scale. */
    ghost predicate ScaledTo(sizePt: real, scale: real)
      reads this
    {
      scaleFactor == scale && metrics == MetricsAt(sizePt, scale) && cellWidth == measureCell(metrics)
    }

    constructor (shape: (char, real, bool) -> Shape, rasterize: Rasterizer, measureCell: Metrics -> real,
                 sizePt: real, scale: real)
      ensures Valid() && advances == map[] && ScaledTo(sizePt, scale)
      ensures this.shape == shape && this.rasterize == rasterize && this.measureCell == measureCell
    {
      this.shape, this.rasterize, this.measureCell := shape, rasterize, measureCell;
      scaleFactor := scale;
      metrics := MetricsAt(sizePt, scale);
      cellWidth := measureCell(MetricsAt(sizePt, scale));
      advances := map[];
    }

    /** A new display scale gives the metrics and the cell a new manager would have, and keeps
        the memo. */
    method SetScaleFactor(sizePt: real, scale: real)
      modifies this`scaleFactor, this`metrics, this`cellWidth
      ensures ScaledTo(sizePt, scale)
    {
      scaleFactor := scale;
      metrics := MetricsAt(sizePt, scale);
      cellWidth := measureCell(metrics);
    }

    /** The font at the style's size on this display, at least one pixel high. */
    function FaceFor(style: TypeStyle): (f: Face)
      reads this`scaleFactor
      ensures f.shape == shape && (f.bold <==> 600 <= style.weight)
      ensures 1.0 <= f.size && style.size * scaleFactor <= f.size
      ensures f.size == 1.0 || f.size == style.size * scaleFactor
    {
      Face(shape, MaxReal(style.size * scaleFactor, 1.0), style.weight >= 600)
    }

    function LineHeight(style: TypeStyle): (h: real)
      reads this`scaleFactor
      ensures 1.0 <= h && style.lineHeight * scaleFactor <= h
      ensures h == 1.0 || h == style.lineHeight * scaleFactor
    {
      MaxReal(style.lineHeight * scaleFactor, 1.0)
    }

    method ChromeAdvance(ch: char, size: real, bold: bool) returns (w: real)
      requires Valid()
      modifies this`advances
      ensures Valid() && w >= 0.0
      ensures w == Advance(old(advances), Face(shape, size, bold), ch)
      ensures advances == Learn(old(advances), Face(shape, size, bold), ch)
      ensures advances.Keys == old(advances.Keys) + {Key(ch, RoundKey(size), bold)}
      ensures w == advances[Key(ch, RoundKey(size), bold)]
    {
      var key := Key(ch, RoundKey(size), bold);
      if key in advances {
        return advances[key];
      }
      var raw := shape(ch, MaxReal(size, 1.0), bold);
      w := if raw.Width? then MaxReal(raw.w, 0.0) else 0.0;
      advances := advances[key := w];
    }

    /** The width of a run: the sum of the memoised widths, all of them known afterwards. */
    method MeasureRun(text: string, style: TypeStyle) returns (w: real)
      requires Valid()
      modifies this`advances
      ensures Valid() && w == RunWidth(old(advances), FaceFor(style), text)
      ensures advances == LearnAll(old(advances), FaceFor(style), text)
    {
      var f := FaceFor(style);
      w := 0.0;
      for i := 0 to |text|
        invariant Valid() && advances == LearnAll(old(advances), f, text[..i])
        invariant w == RunWidth(old(advances), f, text[..i])
      {
        var a := ChromeAdvance(text[i], f.size, f.bold);
        LearntAdvance(old(advances), f, text[..i], text[i]);
        PrefixStep(old(advances), f, text, i);
        LearnStep(old(advances), f, text, i);
        w := w + a;
      }
      assert text[..|text|] == text;
    }

    method TruncateRunToWidth(text: string, style: TypeStyle, maxWidth: real) returns (out: string)
      requires Valid()
      modifies this`advances
      ensures Valid() && out == Truncated(old(advances), FaceFor(style), text, maxWidth)
      ensures advances == TruncationMemo(old(advances), FaceFor(style), text, maxWidth)
    {
      if maxWidth <= 0.0 {
        return "";
      }
      ghost var was := advances;
      var f := FaceFor(style);
      var whole := MeasureRun(text, style);
      if whole <= maxWidth {
        return text;
      }
      LearntAdvance(was, f, text, ELLIPSIS);
      var ellipsis := ChromeAdvance(ELLIPSIS, f.size, f.bold);
      if ellipsis > maxWidth {
        return "";
      }
      ghost var learnt := advances;
      TruncationKnowsText(was, f, text, maxWidth);
      var n := KeepWithin(text, style, maxWidth - ellipsis, was);
      out := text[..n] + [ELLIPSIS];
    }

    /** The loop of the truncation, over characters that are all known. */
    method KeepWithin(text: string, style: TypeStyle, budget: real, ghost was: Memo) returns (n: nat)
      requires Valid() && Known(advances, FaceFor(style), text)
      requires forall i :: 0 <= i < |text| ==>
                 Advance(advances, FaceFor(style), text[i]) == Advance(was, FaceFor(style), text[i])
      modifies this`advances
      ensures Valid() && advances == old(advances)
      ensures n == KeptFrom(was, FaceFor(style), text, 0, 0.0, budget)
    {
      var f := FaceFor(style);
      var used := 0.0;
      n := 0;
      while n < |text|
        invariant n <= |text| && Valid() && advances == old(advances)
        invariant KeptFrom(was, f, text, 0, 0.0, budget) == KeptFrom(was, f, text, n, used, budget)
      {
        var w := ChromeAdvance(text[n], f.size, f.bold);
        if used + w > budget {
          break;
        }
        used := used + w;
        n := n + 1;
      }
    }

    /** Place one glyph, unless there is nothing to draw. */
    method PlaceGlyph(ch: char, size: real, lineHeight: real, bold: bool, left: real, batch: TextBatch)
      modifies batch
      ensures batch.quads == old(batch.quads) + QuadFor(rasterize(ch, size, lineHeight, bold), ch, left)
    {
      if ch == ' ' {
        return;
      }
      var b := rasterize(ch, size, lineHeight, bold);
      if b.w == 0 || b.h == 0 || b.pixels == [] {
        return;
      }
      batch.quads := batch.quads + [Quad(ch, left, b.w, b.h)];
    }

    /** Draw a run: each glyph at the running sum of the widths before it. */
    method AddRunVerts(text: string, style: TypeStyle, px: real, batch: TextBatch) returns (x: real)
      requires Valid()
      modifies this`advances, batch
      ensures Valid() && x == RunWidth(old(advances), FaceFor(style), text)
      ensures advances == LearnAll(old(advances), FaceFor(style), text)
      ensures batch.quads == old(batch.quads)
                + QuadsOf(Pen(old(advances), FaceFor(style), rasterize, LineHeight(style)), text, px)
    {
      var f, lineHeight := FaceFor(style), LineHeight(style);
      ghost var p := Pen(advances, f, rasterize, lineHeight);
      x := 0.0;
      for i := 0 to |text|
        invariant Valid() && advances == LearnAll(old(advances), f, text[..i])
        invariant x == RunWidth(old(advances), f, text[..i])
        invariant batch.quads == old(batch.quads) + QuadsOf(p, text[..i], px)
      {
        var a := ChromeAdvance(text[i], f.size, f.bold);
        RunStep(p, text, i, px, px + x);
        PlaceGlyph(text[i], f.size, lineHeight, f.bold, px + x, batch);
        x := x + a;
      }
      assert text[..|text|] == text;
    }
  }

  lemma LearntAdvance(m: Memo, f: Face, text: string, ch: char)
    ensures Advance(LearnAll(m, f, text), f, ch) == Advance(m, f, ch)
  {
    LearnAllKeepsWidth(m, f, text, [ch]);
    assert [ch][..0] == "";
    assert RunWidth(m, f, [ch]) == Advance(m, f, ch);
    assert RunWidth(LearnAll(m, f, text), f, [ch]) == Advance(LearnAll(m, f, text), f, ch);
  }

  /** One turn of the drawing loop. */
  lemma RunStep(p: Pen, text: string, i: nat, px: real, left: real)
    requires i < |text| && left == px + RunWidth(p.m, p.f, text[..i])
    ensures var was := LearnAll(p.m, p.f, text[..i]);
            && Advance(was, p.f, text[i]) == Advance(p.m, p.f, text[i])
            && LearnAll(p.m, p.f, text[..i + 1]) == Learn(was, p.f, text[i])
    ensures RunWidth(p.m, p.f, text[..i + 1]) == RunWidth(p.m, p.f, text[..i]) + Advance(p.m, p.f, text[i])
    ensures QuadsOf(p, text[..i + 1], px) == QuadsOf(p, text[..i], px) + QuadAt(p, text[i], left)
  {
    LearntAdvance(p.m, p.f, text[..i], text[i]);
    PrefixStep(p.m, p.f, text, i);
    LearnStep(p.m, p.f, text, i);
    QuadAppends(p, text[..i], text[i], px, left);
    assert text[..i + 1] == text[..i] + [text[i]];
  }

  lemma TruncationKnowsText(m: Memo, f: Face, text: string, maxWidth: real)
    ensures var n := Learn(LearnAll(m, f, text), f, ELLIPSIS);
            && Known(n, f, text)
            && forall i :: 0 <= i < |text| ==> Advance(n, f, text[i]) == Advance(m, f, text[i])
  {
    LearnAllSpec(m, f, text);
    forall i | 0 <= i < |text|
      ensures Advance(Learn(LearnAll(m, f, text), f, ELLIPSIS), f, text[i]) == Advance(m, f, text[i])
    {
      LearntAdvance(m, f, text, text[i]);
    }
  }

  lemma LearnStep(m: Memo, f: Face, text: string, i: nat)
    requires i < |text|
    ensures LearnAll(m, f, text[..i + 1]) == Learn(LearnAll(m, f, text[..i]), f, text[i])
  {
    assert text[..i + 1][..i] == text[..i];
  }
}
