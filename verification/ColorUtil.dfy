/**
 HSV conversion and the brightness transforms built on it, over exact reals. The conversion
 tolerates a channel within 1e-6 of the maximum, and that tolerance is exactly where the
 round trip breaks.
 */
module ColorUtil {

  datatype Rgb = Rgb(r: real, g: real, b: real)
  datatype Hsv = Hsv(h: real, s: real, v: real)
  datatype Rgba = Rgba(rgb: Rgb, a: real)

  const EPSILON: real := 0.000001

  function Clamp01(x: real): (y: real) {
    if x < 0.0 then 0.0 else if x > 1.0 then 1.0 else x
  }

  function Abs(x: real): (y: real) {
    if x < 0.0 then -x else x
  }

  function Max3(c: Rgb): (m: real) {
    var rg := if c.r < c.g then c.g else c.r;
    if rg < c.b then c.b else rg
  }

  function Min3(c: Rgb): (m: real) {
    var rg := if c.r < c.g then c.r else c.g;
    if rg < c.b then rg else c.b
  }

  function Spread(c: Rgb): (d: real) { Max3(c) - Min3(c) }

  /** Euclidean remainders by the three constants in use. */
  function Rem2(x: real): (r: real) { x - 2.0 * ((x / 2.0).Floor as real) }
  function Rem6(x: real): (r: real) { x - 6.0 * ((x / 6.0).Floor as real) }
  function Rem360(x: real): (r: real) { x - 360.0 * ((x / 360.0).Floor as real) }

  function Hue(c: Rgb): (h: real) {
    var max, delta := Max3(c), Spread(c);
    var h := if delta <= 0.0 then 0.0
             else if Abs(max - c.r) < EPSILON then 60.0 * Rem6((c.g - c.b) / delta)
             else if Abs(max - c.g) < EPSILON then 60.0 * ((c.b - c.r) / delta + 2.0)
             else 60.0 * ((c.r - c.g) / delta + 4.0);
    if h < 0.0 then h + 360.0 else h
  }

  function Saturation(c: Rgb): (s: real) {
    if Max3(c) <= 0.0 then 0.0 else Spread(c) / Max3(c)
  }

  function RgbToHsv(c: Rgb): (hsv: Hsv) {
    Hsv(Hue(c), Saturation(c), Max3(c))
  }

  /** The six hue sectors, before the lightness is added. */
  function Sector(q: real, c: real, x: real): (p: Rgb) {
    if q < 1.0 then Rgb(c, x, 0.0)
    else if q < 2.0 then Rgb(x, c, 0.0)
    else if q < 3.0 then Rgb(0.0, c, x)
    else if q < 4.0 then Rgb(0.0, x, c)
    else if q < 5.0 then Rgb(x, 0.0, c)
    else Rgb(c, 0.0, x)
  }

  function Lighten(p: Rgb, m: real): (c: Rgb) {
    Rgb(p.r + m, p.g + m, p.b + m)
  }

  /** The middle channel of a sector, as a multiple of the chroma. */
  function Middle(q: real): (k: real) {
    1.0 - Abs(Rem2(q) - 1.0)
  }

  /** How far the middle channel lies above the lowest. */
  function Extent(q: real, c: real): (x: real) {
    c * Middle(q)
  }

  /** The colour at a sixth of the circle, of a given chroma and value. */
  function Tint(q: real, c: real, v: real): (rgb: Rgb) {
    Lighten(Sector(q, c, Extent(q, c)), v - c)
  }

  function TintAt(h: real, s: real, v: real): (rgb: Rgb) {
    Tint(h / 60.0, v * s, v)
  }

  function HsvToRgb(hsv: Hsv): (c: Rgb) {
    TintAt(Rem360(hsv.h), Clamp01(hsv.s), Clamp01(hsv.v))
  }

  function Wrapped(h: real, s: real, v: real): (n: Hsv) {
    Hsv(Rem360(h), Clamp01(s), Clamp01(v))
  }

  function Multiply(h: real, s: real, v: real, hueMul: real, satMul: real, brightnessMul: real): (n: Hsv) {
    Wrapped(h * hueMul, s * satMul, v * brightnessMul)
  }

  function ApplyHsbMultiplier(c: Rgba, hueMul: real, satMul: real, brightnessMul: real): (n: Rgba) {
    var hsv := RgbToHsv(c.rgb);
    Rgba(HsvToRgb(Multiply(hsv.h, hsv.s, hsv.v, hueMul, satMul, brightnessMul)), c.a)
  }

  /** A multiplier eased towards the identity. */
  function Eased(mul: real, k: real): (m: real) {
    1.0 + (mul - 1.0) * k
  }

  function ApplyHsbAnimated(c: Rgba, hueMul: real, satMul: real, brightnessMul: real, t: real): (n: Rgba) {
    var k := Clamp01(t);
    ApplyHsbMultiplier(c, Eased(hueMul, k), Eased(satMul, k), Eased(brightnessMul, k))
  }

  const PRESS_DIM: real := 0.85
  const PRESS_ALPHA_BOOST: real := 2.3

  function PressFill(c: Rgba, press: real): (n: Rgba) {
    var p := Clamp01(press);
    var dimmed := ApplyHsbAnimated(c, 1.0, 1.0, PRESS_DIM, p);
    var alpha := c.a * (1.0 + p * (PRESS_ALPHA_BOOST - 1.0));
    Rgba(dimmed.rgb, if alpha < 1.0 then alpha else 1.0)
  }

  // ----- Arithmetic -----

  lemma MulDiv(x: real, d: real)
    requires d != 0.0
    ensures d * (x / d) == x
  {
  }

  lemma DivBounds(x: real, d: real)
    requires d > 0.0 && -d <= x <= d
    ensures -1.0 <= x / d <= 1.0
    ensures x >= 0.0 ==> x / d >= 0.0
    ensures x < 0.0 ==> x / d < 0.0
  {
    var q := x / d;
    MulDiv(x, d);
    assert d * q == x;
  }

  lemma Assoc(a: real, b: real, c: real)
    ensures (a * b) * c == a * (b * c)
  {
  }

  lemma MiddleOf(q: real)
    requires 0.0 <= q < 6.0
    ensures Middle(q) == if q < 1.0 then q else if q < 2.0 then 2.0 - q else if q < 3.0 then q - 2.0
                         else if q < 4.0 then 4.0 - q else if q < 5.0 then q - 4.0 else 6.0 - q
  {
    assert Rem2(q) == if q < 2.0 then q else if q < 4.0 then q - 2.0 else q - 4.0;
  }

  lemma Rem360Of(h: real)
    requires 0.0 <= h < 360.0
    ensures Rem360(h) == h
  {
  }

  lemma Clamp01Of(x: real)
    requires 0.0 <= x <= 1.0
    ensures Clamp01(x) == x
  {
  }

  lemma HsvIsTintAt(h: real, s: real, v: real)
    requires 0.0 <= h < 360.0 && 0.0 <= s <= 1.0 && 0.0 <= v <= 1.0
    ensures HsvToRgb(Hsv(h, s, v)) == TintAt(h, s, v)
  {
    Rem360Of(h);
    Clamp01Of(s);
    Clamp01Of(v);
  }

  lemma TintAtIsTint(h: real, s: real, v: real, q: real, c: real)
    requires c == v * s && q == h / 60.0
    ensures TintAt(h, s, v) == Tint(q, c, v)
  {
  }

  lemma TintIs(q: real, c: real, v: real, x: real, m: real)
    requires x == Extent(q, c) && m == v - c
    ensures Tint(q, c, v) == Lighten(Sector(q, c, x), m)
  {
  }

  // ----- The round trip -----

  predicate InCube(c: Rgb) {
    0.0 <= c.r <= 1.0 && 0.0 <= c.g <= 1.0 && 0.0 <= c.b <= 1.0
  }

  /** The channel the conversion takes for the largest really is the largest. */
  predicate Faithful(c: Rgb) {
    if Max3(c) - c.r < EPSILON then c.r == Max3(c)
    else if Max3(c) - c.g < EPSILON then c.g == Max3(c)
    else true
  }

  /** The hue in sixths of the circle. */
  function Sixth(c: Rgb): (q: real) {
    if Spread(c) <= 0.0 then 0.0
    else if Max3(c) - c.r < EPSILON then
      (if c.g >= c.b then (c.g - c.b) / Spread(c) else (c.g - c.b) / Spread(c) + 6.0)
    else if Max3(c) - c.g < EPSILON then (c.b - c.r) / Spread(c) + 2.0
    else (c.r - c.g) / Spread(c) + 4.0
  }

  /** How far the middle channel of the converted colour lies above its lowest. */
  function Reach(c: Rgb): (x: real) {
    Extent(Sixth(c), Spread(c))
  }

  lemma SpreadBounds(c: Rgb)
    requires InCube(c)
    ensures 0.0 <= Spread(c) <= Max3(c) <= 1.0
    ensures -Spread(c) <= c.g - c.b <= Spread(c) && -Spread(c) <= c.b - c.r <= Spread(c)
    ensures -Spread(c) <= c.r - c.g <= Spread(c)
  {
  }

  lemma SixthIsHue(c: Rgb)
    requires InCube(c)
    ensures 0.0 <= Sixth(c) < 6.0 && Hue(c) == 60.0 * Sixth(c)
  {
    if Spread(c) > 0.0 {
      SpreadBounds(c);
      DivBounds(c.g - c.b, Spread(c));
      DivBounds(c.b - c.r, Spread(c));
      DivBounds(c.r - c.g, Spread(c));
    }
  }

  lemma QuotientOf(d: real, max: real, s: real)
    requires 0.0 <= d <= max && s == (if max <= 0.0 then 0.0 else d / max)
    ensures 0.0 <= s <= 1.0 && max * s == d
  {
    if max > 0.0 {
      DivBounds(d, max);
      MulDiv(d, max);
    }
  }

  lemma SaturationOf(c: Rgb)
    requires InCube(c)
    ensures 0.0 <= Saturation(c) <= 1.0 && Max3(c) * Saturation(c) == Spread(c)
  {
    SpreadBounds(c);
    QuotientOf(Spread(c), Max3(c), Saturation(c));
  }

  /** Hue, saturation and value stand for the colour at sixth `q`, of chroma `c`, middle channel
      `x` and lowest channel `m`. */
  predicate Stands(h: real, s: real, v: real, q: real, c: real, x: real, m: real) {
    && 0.0 <= h < 360.0 && 0.0 <= s <= 1.0 && 0.0 <= v <= 1.0
    && v * s == c && h == 60.0 * q && x == Extent(q, c) && m == v - c
  }

  lemma ColourOf(h: real, s: real, v: real, q: real, c: real, x: real, m: real)
    requires Stands(h, s, v, q, c, x, m)
    ensures HsvToRgb(Hsv(h, s, v)) == Lighten(Sector(q, c, x), m)
  {
    HsvIsTintAt(h, s, v);
    TintAtIsTint(h, s, v, q, c);
    TintIs(q, c, v, x, m);
  }

  lemma ReachOf(c: Rgb, delta: real, k: real)
    requires delta == Spread(c) && k == Middle(Sixth(c))
    ensures Reach(c) == delta * k
  {
  }

  lemma ConvertedChroma(c: Rgb, s: real, v: real, d: real, low: real)
    requires InCube(c) && s == Saturation(c) && v == Max3(c) && d == Spread(c) && low == Min3(c)
    ensures 0.0 <= s <= 1.0 && 0.0 <= v <= 1.0 && v * s == d && low == v - d
  {
    SpreadBounds(c);
    SaturationOf(c);
  }

  lemma ConvertedParts(c: Rgb)
    requires InCube(c)
    ensures 0.0 <= Hue(c) < 360.0 && 0.0 <= Saturation(c) <= 1.0 && 0.0 <= Max3(c) <= 1.0
    ensures Hue(c) == 60.0 * Sixth(c) && Min3(c) == Max3(c) - Spread(c)
  {
    SpreadBounds(c);
    SixthIsHue(c);
    SaturationOf(c);
  }

  lemma ConvertedStands(c: Rgb)
    requires InCube(c)
    ensures Stands(Hue(c), Saturation(c), Max3(c), Sixth(c), Spread(c), Reach(c), Min3(c))
  {
    ConvertedParts(c);
    SaturationOf(c);
  }

  // ----- Where the middle channel lands, leading channel by leading channel -----

  lemma RatioOf(d: real, delta: real, t: real)
    requires delta > 0.0 && -delta <= d <= delta && t == d / delta
    ensures -1.0 <= t <= 1.0 && (d >= 0.0 <==> t >= 0.0) && delta * Abs(t) == Abs(d)
  {
    DivBounds(d, delta);
    MulDiv(d, delta);
    assert delta * (-t) == -(delta * t);
  }

  lemma RedMiddle(q: real, t: real)
    requires -1.0 <= t <= 1.0 && q == if t >= 0.0 then t else t + 6.0
    ensures Middle(q) == Abs(t)
  {
    MiddleOf(q);
  }

  lemma GreenMiddle(q: real, t: real)
    requires -1.0 <= t <= 1.0 && q == t + 2.0
    ensures Middle(q) == Abs(t)
  {
    MiddleOf(q);
  }

  lemma BlueMiddle(q: real, t: real)
    requires -1.0 <= t <= 1.0 && q == t + 4.0
    ensures Middle(q) == Abs(t)
  {
    MiddleOf(q);
  }

  lemma RedSixth(c: Rgb, t: real)
    requires Spread(c) > 0.0 && Max3(c) - c.r < EPSILON
    requires t == (c.g - c.b) / Spread(c)
    ensures Sixth(c) == if c.g >= c.b then t else t + 6.0
  {
  }

  lemma RedReachAt(c: Rgb, q: real, t: real, a: real, delta: real, x: real)
    requires q == Sixth(c) && delta == Spread(c) && a == Abs(t) && delta * a == x
    requires -1.0 <= t <= 1.0 && q == if t >= 0.0 then t else t + 6.0
    ensures Reach(c) == x
  {
    RedMiddle(q, t);
    ReachBy(c, q, a, delta, x);
  }

  lemma ReachBy(c: Rgb, q: real, a: real, delta: real, x: real)
    requires q == Sixth(c) && delta == Spread(c) && a == Middle(q) && delta * a == x
    ensures Reach(c) == x
  {
    ReachOf(c, delta, a);
  }

  lemma RedReach(c: Rgb)
    requires InCube(c) && Spread(c) > 0.0 && Max3(c) - c.r < EPSILON
    ensures Reach(c) == Abs(c.g - c.b)
    ensures if c.g >= c.b then 0.0 <= Sixth(c) <= 1.0 else 5.0 <= Sixth(c) < 6.0
  {
    var t := (c.g - c.b) / Spread(c);
    SpreadBounds(c);
    RatioOf(c.g - c.b, Spread(c), t);
    RedSixth(c, t);
    RedReachAt(c, Sixth(c), t, Abs(t), Spread(c), Abs(c.g - c.b));
  }

  lemma GreenReach(c: Rgb)
    requires InCube(c) && Spread(c) > 0.0 && Max3(c) - c.r >= EPSILON && Max3(c) - c.g < EPSILON
    ensures Reach(c) == Abs(c.b - c.r)
    ensures if c.b < c.r then 1.0 <= Sixth(c) < 2.0 else 2.0 <= Sixth(c) <= 3.0
  {
    var t := (c.b - c.r) / Spread(c);
    SpreadBounds(c);
    RatioOf(c.b - c.r, Spread(c), t);
    GreenMiddle(Sixth(c), t);
    ReachBy(c, Sixth(c), Abs(t), Spread(c), Abs(c.b - c.r));
  }

  lemma BlueReach(c: Rgb)
    requires InCube(c) && Spread(c) > 0.0 && Max3(c) - c.r >= EPSILON && Max3(c) - c.g >= EPSILON
    ensures Reach(c) == Abs(c.r - c.g)
    ensures if c.r < c.g then 3.0 <= Sixth(c) < 4.0 else 4.0 <= Sixth(c) <= 5.0
  {
    var t := (c.r - c.g) / Spread(c);
    SpreadBounds(c);
    RatioOf(c.r - c.g, Spread(c), t);
    BlueMiddle(Sixth(c), t);
    ReachBy(c, Sixth(c), Abs(t), Spread(c), Abs(c.r - c.g));
  }

  // ----- The three leading channels, over any sixth and middle channel -----

  lemma RedShade(c: Rgb, q: real, x: real)
    requires x == Abs(c.g - c.b) && (q == 1.0 ==> x == Spread(c))
    requires if c.g >= c.b then 0.0 <= q <= 1.0 else 5.0 <= q < 6.0
    ensures var n := Lighten(Sector(q, Spread(c), x), Min3(c));
            n.r == Max3(c) && (c.r == Max3(c) ==> n == c)
  {
  }

  lemma GreenShade(c: Rgb, q: real, x: real)
    requires x == Abs(c.b - c.r) && (q == 3.0 ==> x == Spread(c))
    requires if c.b < c.r then 1.0 <= q < 2.0 else 2.0 <= q <= 3.0
    ensures var n := Lighten(Sector(q, Spread(c), x), Min3(c));
            n.g == Max3(c) && (c.g == Max3(c) ==> n == c)
  {
  }

  lemma BlueShade(c: Rgb, q: real, x: real)
    requires c.b == Max3(c) && x == Abs(c.r - c.g) && (q == 5.0 ==> x == Spread(c))
    requires if c.r < c.g then 3.0 <= q < 4.0 else 4.0 <= q <= 5.0
    ensures Lighten(Sector(q, Spread(c), x), Min3(c)) == c
  {
  }

  /** At the edge of a sector the middle channel is as high as the leading one. */
  lemma EdgeReach(c: Rgb, q: real)
    requires q == Sixth(c) && (q == 1.0 || q == 3.0 || q == 5.0)
    ensures Reach(c) == Spread(c)
  {
    MiddleOf(q);
    ReachOf(c, Spread(c), Middle(q));
  }

  lemma ColourReturnsIff(c: Rgb)
    requires InCube(c) && Spread(c) > 0.0
    ensures Lighten(Sector(Sixth(c), Spread(c), Reach(c)), Min3(c)) == c <==> Faithful(c)
  {
    var q := Sixth(c);
    if q == 1.0 || q == 3.0 || q == 5.0 {
      EdgeReach(c, q);
    }
    if Max3(c) - c.r < EPSILON {
      RedReach(c);
      RedShade(c, Sixth(c), Reach(c));
    } else if Max3(c) - c.g < EPSILON {
      GreenReach(c);
      GreenShade(c, Sixth(c), Reach(c));
    } else {
      BlueReach(c);
      BlueShade(c, Sixth(c), Reach(c));
    }
  }

  /** Converting to HSV and back gives the same colour if and only if the channel taken for
      the largest is the largest. */
  lemma RoundTripIffFaithful(c: Rgb)
    requires InCube(c)
    ensures HsvToRgb(RgbToHsv(c)) == c <==> Faithful(c)
  {
    ConvertedStands(c);
    ColourOf(Hue(c), Saturation(c), Max3(c), Sixth(c), Spread(c), Reach(c), Min3(c));
    if Spread(c) > 0.0 {
      ColourReturnsIff(c);
    }
  }

  /** A colour just short of yellow, within the tolerance: the red channel is taken for the largest,
      and comes back as large as the green one. */
  lemma NearTieReturnsDifferent(c: Rgb)
    requires 0.999999 < c.r < 1.0 && c.g == 1.0 && c.b == 0.0
    ensures InCube(c) && !Faithful(c)
    ensures HsvToRgb(RgbToHsv(c)) == Rgb(c.g, c.g, c.b)
  {
    NearTieParts(c);
    ConvertedStands(c);
    ColourOf(Hue(c), Saturation(c), Max3(c), Sixth(c), Spread(c), Reach(c), Min3(c));
    EdgeReach(c, 1.0);
  }

  lemma NearTieParts(c: Rgb)
    requires 0.999999 < c.r < 1.0 && c.g == 1.0 && c.b == 0.0
    ensures Sixth(c) == 1.0 && Spread(c) == c.g && Min3(c) == c.b && !Faithful(c)
  {
  }

  /** In particular when every channel equals the maximum or lies at least 1e-6 below it. */
  lemma SeparatedIsFaithful(c: Rgb)
    requires c.r == Max3(c) || Max3(c) - c.r >= EPSILON
    requires c.g == Max3(c) || Max3(c) - c.g >= EPSILON
    ensures Faithful(c)
  {
  }

  // ----- The other way round: the colour of a hue, saturation and value -----

  lemma Rem360Range(x: real)
    ensures 0.0 <= Rem360(x) < 360.0
  {
  }

  lemma MiddleRange(q: real)
    requires 0.0 <= q < 6.0
    ensures 0.0 <= Middle(q) <= 1.0
  {
    MiddleOf(q);
  }

  lemma ShadeExtremes(q: real, c: real, x: real, m: real)
    requires 0.0 <= x <= c
    ensures var n := Lighten(Sector(q, c, x), m); Max3(n) == c + m && Min3(n) == m && Spread(n) == c
  {
  }

  lemma ScaledInUnit(c: real, k: real)
    requires c >= 0.0 && 0.0 <= k <= 1.0
    ensures 0.0 <= c * k <= c
  {
    MulNonNegative(c, k);
    MulNonNegative(c, 1.0 - k);
    assert c * (1.0 - k) == c - c * k;
  }

  lemma ScaledBy(c: real, k: real, x: real)
    requires c >= 0.0 && 0.0 <= k <= 1.0 && x == c * k
    ensures 0.0 <= x <= c
  {
    ScaledInUnit(c, k);
  }

  lemma StandsBounds(h: real, s: real, v: real, q: real, c: real, x: real, m: real)
    requires Stands(h, s, v, q, c, x, m)
    ensures 0.0 <= q < 6.0 && 0.0 <= x <= c <= v && 0.0 <= m
  {
    MiddleRange(q);
    ScaledBy(v, s, c);
    ScaledBy(c, Middle(q), x);
  }

  /** The largest channel is the value, and saturation of it is the spread. */
  lemma ColourExtremes(h: real, s: real, v: real, q: real, c: real, x: real, m: real)
    requires Stands(h, s, v, q, c, x, m)
    ensures var n := HsvToRgb(Hsv(h, s, v)); Max3(n) == v && Min3(n) == m && Spread(n) == c
  {
    StandsBounds(h, s, v, q, c, x, m);
    ColourOf(h, s, v, q, c, x, m);
    ShadeExtremes(q, c, x, m);
  }

  lemma RatioIs(d: real, c: real, k: real)
    requires c > 0.0 && d == c * k
    ensures d / c == k
  {
    assert (c * k) / c == k;
  }

  /** The hue read off a red-led colour is the one it was made of. */
  lemma RedSixthReturns(n: Rgb, q: real, c: real, x: real, m: real, k: real)
    requires n == Lighten(Sector(q, c, x), m) && 0.0 <= x <= c
    requires c > 0.0 && x / c == k && (-x) / c == -k && c / c == 1.0
    requires (0.0 <= q < 1.0 && k == q) || (q == 1.0 && x == c) || (5.0 <= q < 6.0 && k == 6.0 - q && x > 0.0)
    ensures Sixth(n) == q
  {
    ShadeExtremes(q, c, x, m);
    assert n.g - n.b == if q < 1.0 then x else if q == 1.0 then c else -x;
  }

  lemma GreenSixthReturns(n: Rgb, q: real, c: real, x: real, m: real, k: real)
    requires n == Lighten(Sector(q, c, x), m) && 0.0 <= x <= c
    requires c > 0.0 && x / c == k && (-x) / c == -k && c / c == 1.0
    requires (1.0 < q < 2.0 && k == 2.0 - q) || (2.0 <= q < 3.0 && k == q - 2.0) || (q == 3.0 && x == c)
    requires Max3(n) - n.r >= EPSILON
    ensures Sixth(n) == q
  {
    ShadeExtremes(q, c, x, m);
    assert n.b - n.r == if q < 2.0 then -x else if q < 3.0 then x else c;
  }

  lemma BlueSixthReturns(n: Rgb, q: real, c: real, x: real, m: real, k: real)
    requires n == Lighten(Sector(q, c, x), m) && 0.0 <= x <= c && c > 0.0 && x / c == k && (-x) / c == -k
    requires (3.0 < q < 4.0 && k == 4.0 - q) || (4.0 <= q < 5.0 && k == q - 4.0)
    requires Max3(n) - n.r >= EPSILON && Max3(n) - n.g >= EPSILON
    ensures Sixth(n) == q
  {
    ShadeExtremes(q, c, x, m);
    assert n.r - n.g == if q < 4.0 then -x else x;
  }

  /** In a faithful colour only a channel as high as the maximum is taken for the largest. */
  lemma FaithfulLeads(n: Rgb, q: real, c: real, x: real, m: real)
    requires n == Lighten(Sector(q, c, x), m) && 0.0 <= x <= c && c > 0.0 && Faithful(n)
    requires 0.0 <= q < 6.0
    requires (q == 1.0 || q == 3.0 || q == 5.0) <==> x == c
    ensures 1.0 < q < 5.0 ==> Max3(n) - n.r >= EPSILON
    ensures 3.0 < q < 5.0 ==> Max3(n) - n.g >= EPSILON
    ensures q == 3.0 ==> Max3(n) - n.r >= EPSILON
  {
    ShadeExtremes(q, c, x, m);
  }

  lemma RatiosOf(c: real, k: real, x: real)
    requires c > 0.0 && x == c * k && 0.0 <= k <= 1.0
    ensures 0.0 <= x <= c && x / c == k && (-x) / c == -k && c / c == 1.0
    ensures (x == c <==> k == 1.0) && (x > 0.0 <==> k > 0.0)
  {
    ScaledBy(c, k, x);
    RatioIs(x, c, k);
    assert -x == c * (-k);
    RatioIs(-x, c, -k);
    RatioIs(c, c, 1.0);
  }

  lemma SixthReturnsAt(n: Rgb, q: real, c: real, x: real, m: real, k: real)
    requires n == Lighten(Sector(q, c, x), m) && 0.0 <= q < 6.0 && c > 0.0 && Faithful(n)
    requires k == if q < 1.0 then q else if q < 2.0 then 2.0 - q else if q < 3.0 then q - 2.0
                  else if q < 4.0 then 4.0 - q else if q < 5.0 then q - 4.0 else 6.0 - q
    requires 0.0 <= x <= c && x / c == k && (-x) / c == -k && c / c == 1.0
    requires (x == c <==> k == 1.0) && (x > 0.0 <==> k > 0.0)
    ensures Sixth(n) == q
  {
    FaithfulLeads(n, q, c, x, m);
    if q <= 1.0 || 5.0 <= q {
      RedSixthReturns(n, q, c, x, m, k);
    } else if q <= 3.0 {
      GreenSixthReturns(n, q, c, x, m, k);
    } else {
      BlueSixthReturns(n, q, c, x, m, k);
    }
  }

  lemma ExtentRatios(q: real, c: real, x: real, k: real)
    requires 0.0 <= q < 6.0 && c > 0.0 && x == Extent(q, c) && k == Middle(q)
    ensures 0.0 <= x <= c && x / c == k && (-x) / c == -k && c / c == 1.0
    ensures (x == c <==> k == 1.0) && (x > 0.0 <==> k > 0.0)
  {
    MiddleRange(q);
    RatiosOf(c, k, x);
  }

  lemma SixthReturns(n: Rgb, q: real, c: real, x: real, m: real)
    requires n == Lighten(Sector(q, c, x), m) && 0.0 <= q < 6.0 && c > 0.0 && x == Extent(q, c) && Faithful(n)
    ensures Sixth(n) == q
  {
    MiddleOf(q);
    ExtentRatios(q, c, x, Middle(q));
    SixthReturnsAt(n, q, c, x, m, Middle(q));
  }

  lemma CubeByExtremes(n: Rgb)
    requires 0.0 <= Min3(n) && Max3(n) <= 1.0
    ensures InCube(n)
  {
  }

  lemma HsvReturns(h: real, s: real, v: real, q: real, c: real, x: real, m: real)
    requires Stands(h, s, v, q, c, x, m) && c > 0.0 && Faithful(HsvToRgb(Hsv(h, s, v)))
    ensures RgbToHsv(HsvToRgb(Hsv(h, s, v))) == Hsv(h, s, v)
  {
    var n := HsvToRgb(Hsv(h, s, v));
    StandsBounds(h, s, v, q, c, x, m);
    ColourOf(h, s, v, q, c, x, m);
    ColourExtremes(h, s, v, q, c, x, m);
    CubeByExtremes(n);
    SixthReturns(n, q, c, x, m);
    SixthIsHue(n);
    RatioIs(c, v, s);
  }

  lemma HsvReturnsIffAt(h: real, s: real, v: real, q: real, c: real, x: real, m: real, n: Rgb)
    requires Stands(h, s, v, q, c, x, m) && c > 0.0 && n == HsvToRgb(Hsv(h, s, v))
    ensures RgbToHsv(n) == Hsv(h, s, v) <==> Faithful(n)
  {
    StandsBounds(h, s, v, q, c, x, m);
    ColourExtremes(h, s, v, q, c, x, m);
    CubeByExtremes(n);
    RoundTripIffFaithful(n);
    if Faithful(n) {
      HsvReturns(h, s, v, q, c, x, m);
    }
  }

  /** Converting to a colour and back gives the same hue, saturation and value if and only if
      the colour in between is faithful, for every colour that is not grey. */
  lemma HsvReturnsIff(h: real, s: real, v: real)
    requires 0.0 <= h < 360.0 && 0.0 < s <= 1.0 && 0.0 < v <= 1.0
    ensures RgbToHsv(HsvToRgb(Hsv(h, s, v))) == Hsv(h, s, v) <==> Faithful(HsvToRgb(Hsv(h, s, v)))
  {
    var q, c := h / 60.0, v * s;
    PositiveProduct(v, s);
    HsvReturnsIffAt(h, s, v, q, c, Extent(q, c), v - c, HsvToRgb(Hsv(h, s, v)));
  }

  lemma PositiveProduct(a: real, b: real)
    requires a > 0.0 && b > 0.0
    ensures a * b > 0.0
  {
  }

  // ----- Multipliers -----

  function Scale(c: Rgb, k: real): (n: Rgb) {
    Rgb(k * c.r, k * c.g, k * c.b)
  }

  lemma MulNonNegative(a: real, b: real)
    requires a >= 0.0 && b >= 0.0
    ensures a * b >= 0.0
  {
  }

  lemma ProductInUnit(a: real, b: real)
    requires 0.0 <= a <= 1.0 && 0.0 <= b <= 1.0
    ensures 0.0 <= a * b <= 1.0
  {
    MulNonNegative(a, b);
    MulNonNegative(1.0 - a, b);
    Distribute(b, 1.0, a);
    assert (1.0 - a) * b == b - a * b;
  }

  lemma Distribute(k: real, a: real, b: real)
    ensures k * (a + b) == k * a + k * b && k * (a - b) == k * a - k * b
  {
  }

  lemma LightenScales(p: Rgb, m: real, k: real)
    ensures Scale(Lighten(p, m), k) == Lighten(Scale(p, k), k * m)
  {
    Distribute(k, p.r, m);
    Distribute(k, p.g, m);
    Distribute(k, p.b, m);
  }

  lemma SectorScales(q: real, c: real, x: real, k: real)
    ensures Scale(Sector(q, c, x), k) == Sector(q, k * c, k * x)
  {
    assert k * 0.0 == 0.0;
  }

  lemma ShadeScales(q: real, c: real, x: real, m: real, k: real)
    ensures Scale(Lighten(Sector(q, c, x), m), k) == Lighten(Sector(q, k * c, k * x), k * m)
  {
    SectorScales(q, c, x, k);
    LightenScales(Sector(q, c, x), m, k);
  }

  lemma ProductsScale(k: real, v: real, s: real, c: real, t: real, x: real)
    requires c == v * s && x == c * t
    ensures (v * k) * s == k * c && (k * c) * t == k * x && k * (v - c) == v * k - k * c
  {
    assert v * k == k * v;
    Assoc(k, v, s);
    Assoc(k, c, t);
    Distribute(k, v, c);
  }

  lemma DimmedStands(h: real, s: real, v: real, k: real, q: real, c: real, x: real, m: real)
    requires Stands(h, s, v, q, c, x, m) && 0.0 <= k <= 1.0
    ensures Stands(h, s, v * k, q, k * c, k * x, k * m)
  {
    ProductInUnit(v, k);
    ProductsScale(k, v, s, c, Middle(q), x);
  }

  /** Scaling the value scales the colour. */
  lemma ValueScales(h: real, s: real, v: real, k: real, q: real, c: real, x: real, m: real)
    requires Stands(h, s, v, q, c, x, m) && 0.0 <= k <= 1.0
    ensures HsvToRgb(Hsv(h, s, v * k)) == Scale(HsvToRgb(Hsv(h, s, v)), k)
  {
    DimmedStands(h, s, v, k, q, c, x, m);
    ColourOf(h, s, v, q, c, x, m);
    ColourOf(h, s, v * k, q, k * c, k * x, k * m);
    ShadeScales(q, c, x, m, k);
  }

  lemma WrappedOf(h: real, s: real, v: real)
    requires 0.0 <= h < 360.0 && 0.0 <= s <= 1.0 && 0.0 <= v <= 1.0
    ensures Wrapped(h, s, v) == Hsv(h, s, v)
  {
    Rem360Of(h);
  }

  lemma TimesOne(x: real, one: real)
    requires one == 1.0
    ensures x * one == x
  {
  }

  lemma MultiplyIs(h: real, s: real, v: real, one: real, k: real, h': real, s': real, v': real)
    requires h' == h * one && s' == s * one && v' == v * k
    ensures Multiply(h, s, v, one, one, k) == Wrapped(h', s', v')
  {
  }

  lemma MultiplyValue(h: real, s: real, v: real, one: real, k: real, d: real)
    requires 0.0 <= h < 360.0 && 0.0 <= s <= 1.0 && 0.0 <= d <= 1.0 && d == v * k && one == 1.0
    ensures Multiply(h, s, v, one, one, k) == Hsv(h, s, d)
  {
    WrappedOf(h, s, d);
    TimesOne(h, one);
    TimesOne(s, one);
    MultiplyIs(h, s, v, one, k, h, s, d);
  }

  /** The multiplier applied to hue, saturation and value standing for some colour. */
  lemma DimmedBy(h: real, s: real, v: real, one: real, k: real, q: real, c: real, x: real, m: real)
    requires Stands(h, s, v, q, c, x, m) && 0.0 <= k <= 1.0 && one == 1.0
    ensures HsvToRgb(Multiply(h, s, v, one, one, k)) == Scale(HsvToRgb(Hsv(h, s, v)), k)
  {
    ProductInUnit(v, k);
    MultiplyValue(h, s, v, one, k, v * k);
    ValueScales(h, s, v, k, q, c, x, m);
  }

  /** A pure brightness multiplier k in [0, 1] scales every channel by k and keeps alpha. */
  lemma BrightnessScales(c: Rgba, k: real)
    requires InCube(c.rgb) && Faithful(c.rgb) && 0.0 <= k <= 1.0
    ensures ApplyHsbMultiplier(c, 1.0, 1.0, k) == Rgba(Scale(c.rgb, k), c.a)
  {
    var p := c.rgb;
    ConvertedStands(p);
    DimmedBy(Hue(p), Saturation(p), Max3(p), 1.0, k, Sixth(p), Spread(p), Reach(p), Min3(p));
    RoundTripIffFaithful(c.rgb);
  }

  /** The unit multipliers are the identity exactly on the colours that convert faithfully. */
  lemma UnitMultipliersIff(c: Rgba)
    requires InCube(c.rgb)
    ensures ApplyHsbMultiplier(c, 1.0, 1.0, 1.0) == c <==> Faithful(c.rgb)
  {
    var p := c.rgb;
    ConvertedStands(p);
    DimmedBy(Hue(p), Saturation(p), Max3(p), 1.0, 1.0, Sixth(p), Spread(p), Reach(p), Min3(p));
    RoundTripIffFaithful(c.rgb);
    var n := HsvToRgb(RgbToHsv(c.rgb));
    assert Scale(n, 1.0) == n;
  }

  function FadeTo(top: real, k: real, x: real): (y: real) {
    top - k * (top - x)
  }

  /** A colour faded towards its own brightest grey. */
  function Fade(c: Rgb, top: real, k: real): (n: Rgb) {
    Rgb(FadeTo(top, k, c.r), FadeTo(top, k, c.g), FadeTo(top, k, c.b))
  }

  lemma ChannelFades(p: real, kp: real, kc: real, c: real, x: real, v: real, k: real)
    requires x == p + (v - c) && kp == k * p && kc == k * c
    ensures FadeTo(v, k, x) == kp + (v - kc)
  {
    Distribute(k, c, p);
    assert v - x == c - p;
  }

  lemma LightenFades(p: Rgb, kp: Rgb, c: real, kc: real, v: real, k: real)
    requires kp == Scale(p, k) && kc == k * c
    ensures Lighten(kp, v - kc) == Fade(Lighten(p, v - c), v, k)
  {
    ChannelFades(p.r, kp.r, kc, c, p.r + (v - c), v, k);
    ChannelFades(p.g, kp.g, kc, c, p.g + (v - c), v, k);
    ChannelFades(p.b, kp.b, kc, c, p.b + (v - c), v, k);
  }

  lemma ShadeFades(q: real, c: real, x: real, m: real, v: real, k: real)
    requires m == v - c
    ensures Lighten(Sector(q, k * c, k * x), v - k * c) == Fade(Lighten(Sector(q, c, x), m), v, k)
  {
    SectorScales(q, c, x, k);
    LightenFades(Sector(q, c, x), Sector(q, k * c, k * x), c, k * c, v, k);
  }

  lemma FadedStands(h: real, s: real, v: real, k: real, q: real, c: real, x: real, m: real)
    requires Stands(h, s, v, q, c, x, m) && 0.0 <= k <= 1.0
    ensures Stands(h, s * k, v, q, k * c, k * x, v - k * c)
  {
    ProductInUnit(s, k);
    FadedProducts(v, s, k, c, Middle(q), x);
  }

  lemma FadedProducts(v: real, s: real, k: real, c: real, t: real, x: real)
    requires c == v * s && x == c * t
    ensures v * (s * k) == k * c && (k * c) * t == k * x
  {
    Assoc(v, s, k);
    Assoc(k, c, t);
  }

  lemma MultiplySaturation(h: real, s: real, v: real, one: real, k: real, d: real)
    requires 0.0 <= h < 360.0 && 0.0 <= d <= 1.0 && 0.0 <= v <= 1.0 && d == s * k && one == 1.0
    ensures Multiply(h, s, v, one, k, one) == Hsv(h, d, v)
  {
    WrappedOf(h, d, v);
    TimesOne(h, one);
    TimesOne(v, one);
    SaturationIs(h, s, v, one, k, h, d, v);
  }

  lemma SaturationIs(h: real, s: real, v: real, one: real, k: real, h': real, s': real, v': real)
    requires h' == h * one && s' == s * k && v' == v * one
    ensures Multiply(h, s, v, one, k, one) == Wrapped(h', s', v')
  {
  }

  lemma FadedBy(h: real, s: real, v: real, one: real, k: real, q: real, c: real, x: real, m: real)
    requires Stands(h, s, v, q, c, x, m) && 0.0 <= k <= 1.0 && one == 1.0
    ensures HsvToRgb(Multiply(h, s, v, one, k, one)) == Fade(HsvToRgb(Hsv(h, s, v)), v, k)
  {
    ProductInUnit(s, k);
    MultiplySaturation(h, s, v, one, k, s * k);
    FadedStands(h, s, v, k, q, c, x, m);
    ColourOf(h, s, v, q, c, x, m);
    ColourOf(h, s * k, v, q, k * c, k * x, v - k * c);
    ShadeFades(q, c, x, m, v, k);
  }

  /** A pure saturation multiplier k in [0, 1] moves every channel towards the brightest one, to
      k of its distance, and keeps alpha. */
  lemma SaturationFades(c: Rgba, k: real)
    requires InCube(c.rgb) && Faithful(c.rgb) && 0.0 <= k <= 1.0
    ensures ApplyHsbMultiplier(c, 1.0, k, 1.0) == Rgba(Fade(c.rgb, Max3(c.rgb), k), c.a)
  {
    var p := c.rgb;
    ConvertedStands(p);
    FadedBy(Hue(p), Saturation(p), Max3(p), 1.0, k, Sixth(p), Spread(p), Reach(p), Min3(p));
    RoundTripIffFaithful(p);
  }

  /** A hue turned round the circle by a factor. */
  function Turned(h: real, hueMul: real): (t: real) {
    Rem360(h * hueMul)
  }

  lemma HueIs(h: real, s: real, v: real, hueMul: real, one: real, h': real, s': real, v': real)
    requires h' == h * hueMul && s' == s * one && v' == v * one
    ensures Multiply(h, s, v, hueMul, one, one) == Wrapped(h', s', v')
  {
  }

  lemma MultiplyHue(h: real, s: real, v: real, hueMul: real, one: real, t: real)
    requires 0.0 <= s <= 1.0 && 0.0 <= v <= 1.0 && one == 1.0 && t == Turned(h, hueMul)
    ensures Multiply(h, s, v, hueMul, one, one) == Hsv(t, s, v)
  {
    TimesOne(s, one);
    TimesOne(v, one);
    HueIs(h, s, v, hueMul, one, h * hueMul, s, v);
    Clamp01Of(s);
    Clamp01Of(v);
  }

  lemma TurnedStands(s: real, v: real, c: real, t: real)
    requires 0.0 <= s <= 1.0 && 0.0 <= v <= 1.0 && v * s == c && 0.0 <= t < 360.0
    ensures Stands(t, s, v, t / 60.0, c, Extent(t / 60.0, c), v - c)
  {
  }

  lemma TurnedColour(h: real, s: real, v: real, hueMul: real, one: real, c: real, t: real)
    requires 0.0 <= s <= 1.0 && 0.0 <= v <= 1.0 && v * s == c && one == 1.0 && t == Turned(h, hueMul)
    ensures var n := HsvToRgb(Multiply(h, s, v, hueMul, one, one));
            && Max3(n) == v && Min3(n) == v - c
            && (c > 0.0 && Faithful(n) ==> RgbToHsv(n) == Hsv(t, s, v))
  {
    Rem360Range(h * hueMul);
    MultiplyHue(h, s, v, hueMul, one, t);
    TurnedStands(s, v, c, t);
    ColourExtremes(t, s, v, t / 60.0, c, Extent(t / 60.0, c), v - c);
    if c > 0.0 && Faithful(HsvToRgb(Hsv(t, s, v))) {
      HsvReturns(t, s, v, t / 60.0, c, Extent(t / 60.0, c), v - c);
    }
  }

  lemma MultiplierIs(c: Rgba, hueMul: real, satMul: real, brightnessMul: real)
    ensures ApplyHsbMultiplier(c, hueMul, satMul, brightnessMul)
         == Rgba(HsvToRgb(Multiply(Hue(c.rgb), Saturation(c.rgb), Max3(c.rgb), hueMul, satMul, brightnessMul)), c.a)
  {
  }

  lemma HueTurnsBy(c: Rgb, h: real, s: real, v: real, d: real, low: real, hueMul: real, one: real, t: real)
    requires InCube(c) && s == Saturation(c) && v == Max3(c) && d == Spread(c) && low == Min3(c)
    requires one == 1.0 && t == Turned(h, hueMul)
    ensures var n := HsvToRgb(Multiply(h, s, v, hueMul, one, one));
            Max3(n) == v && Min3(n) == low && (d > 0.0 && Faithful(n) ==> RgbToHsv(n) == Hsv(t, s, v))
  {
    ConvertedChroma(c, s, v, d, low);
    TurnedColour(h, s, v, hueMul, one, d, t);
  }

  /** A hue multiplier keeps the brightest channel, the darkest channel and alpha. It turns the hue
      by that factor round the circle, and leaves saturation and value, whenever the new colour is
      faithful and not grey. */
  lemma HueTurns(c: Rgba, hueMul: real)
    requires InCube(c.rgb)
    ensures var n, h := ApplyHsbMultiplier(c, hueMul, 1.0, 1.0), Turned(Hue(c.rgb), hueMul);
            && Max3(n.rgb) == Max3(c.rgb) && Min3(n.rgb) == Min3(c.rgb) && n.a == c.a
            && (Spread(c.rgb) > 0.0 && Faithful(n.rgb) ==> RgbToHsv(n.rgb) == Hsv(h, Saturation(c.rgb), Max3(c.rgb)))
  {
    var p := c.rgb;
    MultiplierIs(c, hueMul, 1.0, 1.0);
    HueTurnsBy(p, Hue(p), Saturation(p), Max3(p), Spread(p), Min3(p), hueMul, 1.0, Turned(Hue(p), hueMul));
  }

  lemma EasedOf(mul: real, k: real)
    ensures k == 0.0 ==> Eased(mul, k) == 1.0
    ensures k == 1.0 ==> Eased(mul, k) == mul
    ensures mul == 1.0 ==> Eased(mul, k) == 1.0
    ensures mul == PRESS_DIM ==> Eased(mul, k) == 1.0 - 0.15 * k
  {
  }

  /** No animation progress leaves a colour unchanged. */
  lemma AnimationStartsAtIdentity(c: Rgba, hueMul: real, satMul: real, brightnessMul: real)
    requires InCube(c.rgb) && Faithful(c.rgb)
    ensures ApplyHsbAnimated(c, hueMul, satMul, brightnessMul, 0.0) == c
  {
    UnitMultipliersIff(c);
    EasedOf(hueMul, 0.0);
    EasedOf(satMul, 0.0);
    EasedOf(brightnessMul, 0.0);
  }

  lemma AnimatedIs(c: Rgba, hueMul: real, satMul: real, brightnessMul: real, t: real, h: real, s: real, b: real)
    requires Clamp01(t) == t && Eased(hueMul, t) == h && Eased(satMul, t) == s && Eased(brightnessMul, t) == b
    ensures ApplyHsbAnimated(c, hueMul, satMul, brightnessMul, t) == ApplyHsbMultiplier(c, h, s, b)
  {
  }

  /** Full animation progress, or more, applies the multipliers as they are. */
  lemma AnimationEndsAtMultiplier(c: Rgba, hueMul: real, satMul: real, brightnessMul: real, t: real)
    requires t >= 1.0
    ensures ApplyHsbAnimated(c, hueMul, satMul, brightnessMul, t)
         == ApplyHsbMultiplier(c, hueMul, satMul, brightnessMul)
  {
    EasedOf(hueMul, 1.0);
    EasedOf(satMul, 1.0);
    EasedOf(brightnessMul, 1.0);
  }

  lemma PressFillIsAnimated(c: Rgba, press: real)
    requires 0.0 <= press <= 1.0
    ensures PressFill(c, press).rgb == ApplyHsbAnimated(c, 1.0, 1.0, PRESS_DIM, press).rgb
  {
  }

  /** The factor full press feedback approaches as `press` goes to one. */
  function Dimming(press: real): (k: real) {
    1.0 - 0.15 * press
  }

  lemma AnimatedDims(c: Rgba, one: real, dim: real, press: real, k: real)
    requires InCube(c.rgb) && Faithful(c.rgb) && 0.0 <= press <= 1.0
    requires one == 1.0 && dim == PRESS_DIM && k == Dimming(press)
    ensures ApplyHsbAnimated(c, one, one, dim, press) == Rgba(Scale(c.rgb, k), c.a)
  {
    EasedOf(one, press);
    EasedOf(dim, press);
    AnimatedIs(c, one, one, dim, press, 1.0, 1.0, k);
    BrightnessScales(c, k);
  }

  /** Press feedback dims every channel by the same factor, 1 - 0.15 * press. */
  lemma PressFillDims(c: Rgba, press: real)
    requires InCube(c.rgb) && Faithful(c.rgb) && 0.0 <= press <= 1.0
    ensures PressFill(c, press).rgb == Scale(c.rgb, Dimming(press))
  {
    AnimatedDims(c, 1.0, PRESS_DIM, press, Dimming(press));
    PressFillIsAnimated(c, press);
  }

  /** An unpressed fill is left as it was, and pressing never lowers alpha or exceeds one. */
  lemma PressFillAlpha(c: Rgba, press: real)
    requires InCube(c.rgb) && Faithful(c.rgb) && 0.0 <= c.a <= 1.0 && 0.0 <= press <= 1.0
    ensures PressFill(c, 0.0) == c
    ensures c.a <= PressFill(c, press).a <= 1.0
  {
    AnimationStartsAtIdentity(c, 1.0, 1.0, PRESS_DIM);
    var boost := 1.0 + press * (PRESS_ALPHA_BOOST - 1.0);
    MulNonNegative(press, PRESS_ALPHA_BOOST - 1.0);
    MulNonNegative(c.a, boost - 1.0);
    assert c.a * boost == c.a + c.a * (boost - 1.0);
  }
}
