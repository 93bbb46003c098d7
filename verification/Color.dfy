/**
 * The conversions between HSL and RGB of crates/gpui/src/color.rs, over the reals
 * (sections 7.1 and 7.2 of CSS Color Module Level 4).
 */
module Color {
  import opened Arithmetic

  datatype Rgba = Rgba(r: real, g: real, b: real, a: real)
  {
    predicate InGamut() { 0.0 <= r <= 1.0 && 0.0 <= g <= 1.0 && 0.0 <= b <= 1.0 }
  }

  datatype Hsla = Hsla(h: real, s: real, l: real, a: real)
  {
    predicate InRange() { 0.0 <= h <= 1.0 && 0.0 <= s <= 1.0 && 0.0 <= l <= 1.0 }
  }

  function Abs(x: real): real { if x < 0.0 then -x else x }

  function Clamp(x: real): real { if x < 0.0 then 0.0 else if x > 1.0 then 1.0 else x }

  /** The `%` of Rust: the remainder has the sign of `x`. */
  function Rem(x: real, y: real): real
    requires y > 0.0
  {
    if x < 0.0 then -(-x - y * (-x / y).Floor as real) else x - y * (x / y).Floor as real
  }

  /** `rem_euclid`: the remainder is not negative. */
  function RemEuclid(x: real, y: real): (r: real)
    requires y > 0.0
  {
    x - y * (x / y).Floor as real
  }

  // Products and quotients of two unknowns have names, so that proofs can go by the few
  // facts they need about them.

  function Times(a: real, b: real): real { a * b }

  function Quot(a: real, b: real): real
    requires b != 0.0
  {
    a / b
  }

  function Span(l: real): real { 1.0 - Abs(2.0 * l - 1.0) }

  /** The triangle wave that gives the middle component. */
  function Wave(hue: real): real { 1.0 - Abs(Rem(hue, 2.0) - 1.0) }

  /** The amount of colour: the factor `c` of the conversion to RGB. */
  function Chroma(s: real, l: real): real {
    Times(Span(l), s)
  }

  /** The three components for a hue in sixths of the circle. */
  function Sextant(hue: real, c: real, m: real): (real, real, real) {
    var x := Times(c, Wave(hue));
    var cm := c + m;
    var xm := x + m;
    match hue.Floor
    case 0 => (cm, xm, m)
    case 6 => (cm, xm, m)
    case 1 => (xm, cm, m)
    case 2 => (m, cm, xm)
    case 3 => (m, xm, cm)
    case 4 => (xm, m, cm)
    case _ => (cm, m, xm)
  }

  function ToRgba(color: Hsla): Rgba {
    var c := Chroma(color.s, color.l);
    var m := color.l - c / 2.0;
    var (r, g, b) := Sextant(color.h * 6.0, c, m);
    Rgba(Clamp(r), Clamp(g), Clamp(b), color.a)
  }

  function Lightness(max: real, min: real): real { (max + min) / 2.0 }

  function Saturation(l: real, delta: real): real {
    if l == 0.0 || l == 1.0 then 0.0
    else if l < 0.5 then Quot(delta, 2.0 * l)
    else Quot(delta, 2.0 - 2.0 * l)
  }

  function Hue(r: real, g: real, b: real, max: real, delta: real): real {
    if delta == 0.0 then 0.0
    else if max == r then RemEuclid(Quot(g - b, delta), 6.0) / 6.0
    else if max == g then (Quot(b - r, delta) + 2.0) / 6.0
    else (Quot(r - g, delta) + 4.0) / 6.0
  }

  function ToHsla(color: Rgba): Hsla {
    var max := Max(color.r, Max(color.g, color.b));
    var min := Min(color.r, Min(color.g, color.b));
    var delta := max - min;
    var l := Lightness(max, min);
    Hsla(Hue(color.r, color.g, color.b, max, delta), Saturation(l, delta), l, color.a)
  }

  // ----- Arithmetic -----------------------------------------------------------------

  lemma FloorIs(x: real, n: int)
    requires n as real <= x < n as real + 1.0
    ensures x.Floor == n
  {}

  lemma TimesSign(a: real, b: real)
    ensures a >= 0.0 && b >= 0.0 ==> Times(a, b) >= 0.0
    ensures a > 0.0 && b > 0.0 ==> Times(a, b) > 0.0
    ensures Times(a, b) == Times(b, a) && Times(a, 0.0) == 0.0 && Times(a, 1.0) == a
    ensures Times(a, -b) == -Times(a, b) && Times(a, 1.0 - b) == a - Times(a, b)
  {}

  /** A product with a factor between 0 and 1. */
  lemma TimesFraction(c: real, t: real)
    requires c > 0.0 && 0.0 <= t <= 1.0
    ensures 0.0 <= Times(c, t) <= c
    ensures Times(c, t) == c <==> t == 1.0
    ensures Times(c, t) == 0.0 <==> t == 0.0
  {}

  /** Quotients undo products. */
  lemma QuotTimes(x: real, d: real, q: real)
    requires d > 0.0
    ensures Times(d, Quot(x, d)) == x
    ensures Times(d, q) == x ==> Quot(x, d) == q
    ensures Quot(-x, d) == -Quot(x, d)
  {}

  /** A quotient of a difference by a span that bounds it. */
  lemma Ratio(x: real, d: real)
    requires d > 0.0 && -d <= x <= d
    ensures -1.0 <= Quot(x, d) <= 1.0
    ensures x >= 0.0 <==> Quot(x, d) >= 0.0
    ensures x == d <==> Quot(x, d) == 1.0
    ensures x == -d <==> Quot(x, d) == -1.0
    ensures Times(d, Quot(x, d)) == x && Times(d, -Quot(x, d)) == -x
  {
    hide Quot;
    hide Times;
    var q := Quot(x, d);
    QuotTimes(x, d, q);
    TimesSign(d, q);
    TimesSign(d, -q);
    TimesSign(d, 1.0 - q);
    TimesSign(d, q - 1.0);
    TimesSign(d, 1.0 + q);
    TimesSign(d, -1.0 - q);
    assert 1.0 - (-q) == 1.0 + q && 1.0 - (2.0 + q) == -1.0 - q;
    TimesSum(d, q);
  }

  lemma TimesSum(d: real, q: real)
    ensures Times(d, 1.0 + q) == d + Times(d, q)
    ensures Times(d, q - 1.0) == Times(d, q) - d
    ensures Times(d, -1.0 - q) == -d - Times(d, q)
  {}

  /** The hue modulo two, sixth by sixth. */
  lemma RemTwo(hue: real)
    ensures 0.0 <= hue < 2.0 ==> Rem(hue, 2.0) == hue
    ensures 2.0 <= hue < 4.0 ==> Rem(hue, 2.0) == hue - 2.0
    ensures 4.0 <= hue < 6.0 ==> Rem(hue, 2.0) == hue - 4.0
    ensures hue == 6.0 ==> Rem(hue, 2.0) == 0.0
  {}

  lemma RemEuclidSix(q: real)
    requires -6.0 <= q < 6.0
    ensures RemEuclid(q, 6.0) == if q < 0.0 then q + 6.0 else q
  {}

  // ----- RGB to HSL and back --------------------------------------------------------

  /** The chroma of the HSL form is the spread of the components. */
  lemma ChromaIsSpread(max: real, min: real)
    requires 0.0 <= min <= max <= 1.0
    ensures var l, delta := Lightness(max, min), max - min;
            && Chroma(Saturation(l, delta), l) == delta
            && 0.0 <= l <= 1.0 && 0.0 <= Saturation(l, delta) <= 1.0
  {
    hide Times;
    hide Quot;
    var l, delta := Lightness(max, min), max - min;
    if l == 0.0 || l == 1.0 {
      assert delta == 0.0;
      TimesSign(Span(l), 0.0);
    } else {
      assert 0.0 < Span(l) && delta <= Span(l);
      Ratio(delta, Span(l));
    }
  }

  /** What a sixth of the circle gives, by the offset `q` of the hue from the primary `base`. */
  lemma SextantNear(base: real, q: real, c: real, m: real)
    requires -1.0 <= q <= 1.0
    ensures base == 0.0 && 0.0 <= q ==> Sextant(q, c, m) == (c + m, Times(c, q) + m, m)
    ensures base == 0.0 && q < 0.0 ==> Sextant(q + 6.0, c, m) == (c + m, m, Times(c, -q) + m)
    ensures base == 2.0 && q >= 0.0 ==> Sextant(q + 2.0, c, m) == (m, c + m, Times(c, q) + m)
    ensures base == 2.0 && -1.0 < q < 0.0 ==> Sextant(q + 2.0, c, m) == (Times(c, -q) + m, c + m, m)
    ensures base == 4.0 && 0.0 <= q < 1.0 ==> Sextant(q + 4.0, c, m) == (Times(c, q) + m, m, c + m)
    ensures base == 4.0 && -1.0 < q < 0.0 ==> Sextant(q + 4.0, c, m) == (m, Times(c, -q) + m, c + m)
  {}

  /** Converting to HSL and back gives the same colour, and the HSL form is in range. */
  lemma RgbRoundTrip(color: Rgba)
    requires color.InGamut()
    ensures ToHsla(color).InRange() && ToHsla(color).h < 1.0
    ensures ToRgba(ToHsla(color)) == color
  {
    hide Times;
    hide Quot;
    hide Saturation;
    hide Chroma;
    var r, g, b := color.r, color.g, color.b;
    var max, min := Max(r, Max(g, b)), Min(r, Min(g, b));
    var delta := max - min;
    ChromaIsSpread(max, min);
    if delta == 0.0 {
      RemTwo(0.0);
      TimesSign(0.0, Wave(0.0));
      TimesSign(Wave(0.0), 0.0);
    } else {
      HueInvertsSextant(r, g, b, max, min);
      hide Sextant;
      hide Hue;
    }
  }

  lemma HueInvertsSextant(r: real, g: real, b: real, max: real, min: real)
    requires max == Max(r, Max(g, b)) && min == Min(r, Min(g, b)) && max > min
    ensures var h := Hue(r, g, b, max, max - min);
            0.0 <= h < 1.0 && Sextant(h * 6.0, max - min, min) == (r, g, b)
  {
    hide Times;
    hide Quot;
    hide Sextant;
    hide RemEuclid;
    var delta := max - min;
    var d := if max == r then g - b else if max == g then b - r else r - g;
    var base := if max == r then 0.0 else if max == g then 2.0 else 4.0;
    Ratio(d, delta);
    var q := Quot(d, delta);
    if max == r { RemEuclidSix(q); }
    SextantNear(base, q, delta, min);
    var h := Hue(r, g, b, max, delta);
    assert h * 6.0 == if base == 0.0 && q < 0.0 then q + 6.0 else q + base;
  }

  // ----- HSL to RGB and back --------------------------------------------------------

  /** No hue and no saturation is given where they make no difference. */
  predicate Canonical(color: Hsla) {
    color.h < 1.0 && (color.s == 0.0 || color.l == 0.0 || color.l == 1.0 ==> color.h == 0.0 && color.s == 0.0)
  }

  lemma ChromaBounds(s: real, l: real)
    requires 0.0 <= s <= 1.0 && 0.0 <= l <= 1.0
    ensures 0.0 <= Chroma(s, l) && 0.0 <= l - Chroma(s, l) / 2.0 && l + Chroma(s, l) / 2.0 <= 1.0
    ensures Chroma(s, l) == 0.0 <==> s == 0.0 || l == 0.0 || l == 1.0
  {
    hide Times;
    var d := Span(l);
    assert 0.0 <= d && d <= 2.0 * l && d <= 2.0 - 2.0 * l;
    if d > 0.0 { TimesFraction(d, s); } else { TimesSign(s, d); }
  }

  lemma WaveIs(hue: real)
    requires 0.0 <= hue < 6.0
    ensures Wave(hue) == if hue < 1.0 then hue else if hue < 2.0 then 2.0 - hue else if hue < 3.0 then hue - 2.0
                         else if hue < 4.0 then 4.0 - hue else if hue < 5.0 then hue - 4.0 else 6.0 - hue
  {}

  /** The components of a sextant, and the hue they give back. */
  lemma SextantInvertsHue(hue: real, c: real, m: real)
    requires 0.0 <= hue < 6.0 && c > 0.0
    ensures var (r, g, b) := Sextant(hue, c, m);
            && Max(r, Max(g, b)) == c + m && Min(r, Min(g, b)) == m
            && Hue(r, g, b, c + m, c) * 6.0 == hue
  {
    hide Times;
    hide Quot;
    hide RemEuclid;
    hide Wave;
    var t := Wave(hue);
    WaveIs(hue);
    var u := Times(c, t);
    TimesFraction(c, t);
    QuotTimes(u, c, t);
    QuotTimes(c, c, 1.0);
    TimesSign(c, 1.0);
    RemEuclidSix(t);
    RemEuclidSix(-t);
    FloorIs(hue, if hue < 1.0 then 0 else if hue < 2.0 then 1 else if hue < 3.0 then 2 else if hue < 4.0 then 3 else if hue < 5.0 then 4 else 5);
    assert (u + m) - m == u && m - (u + m) == -u;
  }

  lemma SaturationInvertsChroma(s: real, l: real)
    requires 0.0 <= s <= 1.0 && 0.0 < l < 1.0
    ensures Saturation(l, Chroma(s, l)) == s
  {
    hide Times;
    hide Quot;
    assert Span(l) == if l < 0.5 then 2.0 * l else 2.0 - 2.0 * l;
    QuotTimes(Chroma(s, l), Span(l), s);
  }

  /** The other direction: converting to RGB and back is the identity exactly on canonical colours. */
  lemma HslRoundTripIffCanonical(color: Hsla)
    requires color.InRange()
    ensures ToRgba(color).InGamut()
    ensures ToHsla(ToRgba(color)) == color <==> Canonical(color)
  {
    hide Times;
    hide Quot;
    hide ToRgba;
    hide ToHsla;
    hide Chroma;
    var c := Chroma(color.s, color.l);
    ChromaBounds(color.s, color.l);
    if c == 0.0 {
      GreyRoundTrip(color);
    } else if color.h < 1.0 {
      ColourRoundTrip(color);
    } else {
      HueOneIsHueZero(color);
      ColourRoundTrip(color.(h := 0.0));
    }
  }

  lemma ColourRoundTrip(color: Hsla)
    requires color.InRange() && color.h < 1.0 && Chroma(color.s, color.l) > 0.0
    ensures ToRgba(color).InGamut() && ToHsla(ToRgba(color)) == color
  {
    hide Times;
    hide Quot;
    hide Saturation;
    hide Chroma;
    hide Sextant;
    hide Hue;
    var c := Chroma(color.s, color.l);
    var m := color.l - c / 2.0;
    ChromaBounds(color.s, color.l);
    SextantInvertsHue(color.h * 6.0, c, m);
    SaturationInvertsChroma(color.s, color.l);
    var (r, g, b) := Sextant(color.h * 6.0, c, m);
    assert ToRgba(color) == Rgba(r, g, b, color.a);
    assert (c + m) - m == c && Lightness(c + m, m) == color.l;
  }

  lemma GreyRoundTrip(color: Hsla)
    requires color.InRange() && Chroma(color.s, color.l) == 0.0
    ensures ToRgba(color) == Rgba(color.l, color.l, color.l, color.a)
    ensures ToHsla(ToRgba(color)) == Hsla(0.0, 0.0, color.l, color.a)
  {
    hide Times;
    hide Quot;
    hide Chroma;
    hide Wave;
    TimesSign(Wave(color.h * 6.0), 0.0);
    var l := color.l;
    QuotTimes(0.0, if l < 0.5 then if l == 0.0 then 1.0 else 2.0 * l else if l == 1.0 then 1.0 else 2.0 - 2.0 * l, 0.0);
    TimesSign(if l < 0.5 then if l == 0.0 then 1.0 else 2.0 * l else if l == 1.0 then 1.0 else 2.0 - 2.0 * l, 0.0);
  }

  /** The hue 1 is the hue 0, and comes back as 0. */
  lemma HueOneIsHueZero(color: Hsla)
    requires color.h == 1.0 && 0.0 <= color.s <= 1.0 && 0.0 <= color.l <= 1.0
    ensures ToRgba(color) == ToRgba(color.(h := 0.0))
    ensures Chroma(color.s, color.l) > 0.0 ==> ToHsla(ToRgba(color)) == color.(h := 0.0)
  {
    hide Times;
    hide Quot;
    hide Chroma;
    RemTwo(6.0);
    RemTwo(0.0);
    hide Rem;
    if Chroma(color.s, color.l) > 0.0 { ColourRoundTrip(color.(h := 0.0)); }
  }

  /** The remainder of Rust: below the divisor, with the sign of the dividend, a whole number of times away. */
  lemma RemTruncates(x: real) returns (k: int)
    ensures x >= 0.0 ==> 0.0 <= Rem(x, 2.0) < 2.0
    ensures x <= 0.0 ==> -2.0 < Rem(x, 2.0) <= 0.0
    ensures x == Rem(x, 2.0) + 2.0 * k as real
  {
    k := if x < 0.0 then -(-x / 2.0).Floor else (x / 2.0).Floor;
  }

  /**
   * Whatever the components of the HSL value, the RGB value is in gamut. A hue that is off
   * the circle, and so beyond the arms for its six parts, is taken for the last part.
   */
  lemma AnyHslGivesGamut(color: Hsla)
    ensures ToRgba(color).InGamut() && ToRgba(color).a == color.a
    ensures color.h < 0.0 || color.h * 6.0 >= 7.0 ==>
              var c := Chroma(color.s, color.l);
              var m := color.l - c / 2.0;
              ToRgba(color) == Rgba(Clamp(c + m), Clamp(m), Clamp(Times(c, 1.0 - Abs(Rem(color.h * 6.0, 2.0) - 1.0)) + m), color.a)
    ensures forall x :: 0.0 <= x <= 1.0 ==> Clamp(x) == x
    ensures forall x :: (x < 0.0 ==> Clamp(x) == 0.0) && (x > 1.0 ==> Clamp(x) == 1.0)
  {
    hide Times;
    hide Chroma;
    hide Rem;
  }
}
