/**
 * The tint colour conversion of the sprite viewer: `hsvToHsl` in script.js,
 * which turns the hue/saturation/value sliders into the `hsl(...)` fill
 * colour painted over the sprite.
 *
 * Arithmetic is exact (`real`), not IEEE-754. The only non-finite values a
 * division of two finite numbers can produce in JavaScript are NaN (0/0) and
 * the infinities (x/0 with x != 0); `JsNumber` keeps exactly those.
 */
module Color {

  /** A JavaScript number that results from dividing two finite numbers. */
  datatype JsNumber = Finite(value: real) | NaN | Infinity(negative: bool)

  /** JavaScript's `/` on two finite operands. */
  function Divide(a: real, b: real): (q: JsNumber)
    ensures q.Finite? <==> b != 0.0
    ensures q.NaN? <==> a == 0.0 && b == 0.0
    ensures q.Finite? ==> q.value * b == a
    ensures q.Infinity? ==> (q.negative <==> a < 0.0)
  {
    if b != 0.0 then Finite(a / b)
    else if a == 0.0 then NaN
    else Infinity(a < 0.0)
  }

  /** JavaScript's `x * k` for a finite positive factor `k`. */
  function Times(x: JsNumber, k: real): (y: JsNumber)
    requires k > 0.0
    ensures y.Finite? == x.Finite? && y.NaN? == x.NaN?
    ensures x.Finite? ==> y.value == x.value * k
  {
    match x
    case Finite(r) => Finite(r * k)
    case NaN => NaN
    case Infinity(neg) => Infinity(neg)
  }

  /** The object `hsvToHsl` returns: hue, saturation in percent, lightness in percent. */
  datatype ScriptHsl = ScriptHsl(h: real, s: JsNumber, l: real)

  /** Saturation and value are documented as fractions in [0,1]. */
  predicate InUnit(x: real) {
    0.0 <= x <= 1.0
  }

  /** The lightness fraction the script computes first. */
  function Lightness(s: real, v: real): real {
    (2.0 - s) * v / 2.0
  }

  /** The divisor the script chooses for the saturation: the lightness itself
      when it is at most 1, otherwise its distance from 2. */
  function SaturationDivisor(s: real, v: real): real {
    var l := Lightness(s, v);
    if l <= 1.0 then l else 2.0 - l
  }

  /** `hsvToHsl(h, s, v)` as the script computes it; a NaN saturation is replaced by 0. */
  function HsvToHsl(h: real, s: real, v: real): (c: ScriptHsl)
    ensures c.h == h
    ensures !c.s.NaN?
    ensures c.s.Finite? <==> SaturationDivisor(s, v) != 0.0 || s * v == 0.0
  {
    var l := Lightness(s, v);
    var quotient := Divide(s * v, SaturationDivisor(s, v));
    var newS := if quotient.NaN? then Finite(0.0) else quotient;
    ScriptHsl(h, Times(newS, 100.0), l * 100.0)
  }

  /** For s and v in [0,1] the lightness is at most 1, so the `2 - l` divisor
      is never chosen. */
  lemma LightnessBranchOnly(s: real, v: real)
    requires InUnit(s) && InUnit(v)
    ensures 0.0 <= Lightness(s, v) <= 1.0
    ensures SaturationDivisor(s, v) == Lightness(s, v)
  {
    MulBounds(2.0 - s, v);
  }

  /** 0 <= x * y <= x when x >= 0 and y is a fraction. */
  lemma MulBounds(x: real, y: real)
    requires 0.0 <= x && InUnit(y)
    ensures 0.0 <= x * y <= x
  {
    assert x * y <= x * 1.0 by {
      assert x * (1.0 - y) >= 0.0;
    }
  }

  /** For s and v in [0,1] the divisor is zero exactly when the value is 0;
      then the numerator is zero too, the division is 0/0 and the saturation
      is forced to 0. */
  lemma ZeroDivisorOnlyForBlack(h: real, s: real, v: real)
    requires InUnit(s) && InUnit(v)
    ensures SaturationDivisor(s, v) == 0.0 <==> v == 0.0
    ensures v == 0.0 ==> Divide(s * v, SaturationDivisor(s, v)).NaN?
    ensures v == 0.0 ==> HsvToHsl(h, s, v) == ScriptHsl(h, Finite(0.0), 0.0)
  {
    LightnessBranchOnly(s, v);
    if v == 0.0 {
      BlackHasNoSaturation(h, s);
    } else {
      MulPos(2.0 - s, v);
      assert Lightness(s, v) > 0.0;
      assert SaturationDivisor(s, v) != 0.0;
    }
  }

  /** At value 0 the saturation quotient is 0/0 and the colour is black. */
  lemma BlackHasNoSaturation(h: real, s: real)
    ensures SaturationDivisor(s, 0.0) == 0.0
    ensures Divide(s * 0.0, SaturationDivisor(s, 0.0)).NaN?
    ensures HsvToHsl(h, s, 0.0) == ScriptHsl(h, Finite(0.0), 0.0)
  {
    assert Lightness(s, 0.0) == 0.0;
  }

  /** The product of two positive numbers is positive. */
  lemma MulPos(x: real, y: real)
    requires x > 0.0 && y > 0.0
    ensures x * y > 0.0
  {
  }

  /** For s and v in [0,1] the saturation is always finite: `200s / (2 - s)`
      percent whenever the value is positive, 0 at value 0, and so it lies
      in [0,200]. */
  lemma ScriptSaturation(h: real, s: real, v: real)
    requires InUnit(s) && InUnit(v)
    ensures HsvToHsl(h, s, v).s.Finite?
    ensures v > 0.0 ==> HsvToHsl(h, s, v).s.value == 200.0 * s / (2.0 - s)
    ensures 0.0 <= HsvToHsl(h, s, v).s.value <= 200.0
  {
    if v > 0.0 {
      ScriptSaturationPositive(h, s, v);
    } else {
      assert v == 0.0;
      BlackHasNoSaturation(h, s);
    }
  }

  /** For s and v in [0,1] the lightness is `(2 - s) * v / 2` in percent, in [0,100]. */
  lemma ScriptLightness(h: real, s: real, v: real)
    requires InUnit(s) && InUnit(v)
    ensures HsvToHsl(h, s, v).l == (2.0 - s) * v / 2.0 * 100.0
    ensures 0.0 <= HsvToHsl(h, s, v).l <= 100.0
  {
    LightnessBranchOnly(s, v);
    assert HsvToHsl(h, s, v).l == Lightness(s, v) * 100.0;
  }

  /** For a positive value the saturation is the finite `200s / (2 - s)` percent. */
  lemma ScriptSaturationPositive(h: real, s: real, v: real)
    requires InUnit(s) && InUnit(v) && v > 0.0
    ensures HsvToHsl(h, s, v).s == Finite(200.0 * s / (2.0 - s))
    ensures 0.0 <= 200.0 * s / (2.0 - s) <= 200.0
  {
    ZeroDivisorOnlyForBlack(h, s, v);
    LightnessBranchOnly(s, v);
    ScriptSaturationClosedForm(s, v);
    var q := Divide(s * v, SaturationDivisor(s, v));
    assert q == Finite(s * v / Lightness(s, v));
  }

  /** For a positive value the script's saturation quotient `s * v / l` is
      `2s / (2 - s)`, which lies in [0,2]. */
  lemma ScriptSaturationClosedForm(s: real, v: real)
    requires InUnit(s) && InUnit(v) && v > 0.0
    ensures s * v / Lightness(s, v) == 2.0 * s / (2.0 - s)
    ensures s * v / Lightness(s, v) * 100.0 == 200.0 * s / (2.0 - s)
    ensures 0.0 <= 2.0 * s / (2.0 - s) <= 2.0
    ensures 0.0 <= 200.0 * s / (2.0 - s) <= 200.0
  {
    var l := Lightness(s, v);
    MulPos(2.0 - s, v);
    assert l > 0.0;
    var x := 2.0 * s / (2.0 - s);
    assert x * (2.0 - s) == 2.0 * s;
    assert s * v == x * l by {
      assert x * l == x * (2.0 - s) * v / 2.0;
    }
    QuotientOfProduct(s * v, x, l);
    QuotientBounds(2.0 * s, 2.0 * (2.0 - s));
    assert x == (2.0 * s) / (2.0 * (2.0 - s)) * 2.0;
    QuotientOfProduct(200.0 * s, x * 100.0, 2.0 - s);
  }

  /** The worked example: HSV (120, 0.5, 0.8) becomes hsl(120, 66.67%, 60%). */
  lemma WorkedExample()
    ensures HsvToHsl(120.0, 0.5, 0.8) == ScriptHsl(120.0, Finite(200.0 / 3.0), 60.0)
  {
    ScriptLightness(120.0, 0.5, 0.8);
    ScriptSaturation(120.0, 0.5, 0.8);
  }

  // ---------------------------------------------------------------------
  // The textbook conversion. The script divides by the lightness AFTER
  // halving it, so its `l <= 1` test always passes and the saturation comes
  // out doubled whenever `(2 - s) * v <= 1`; the textbook form compares and
  // divides before halving.

  datatype Hsv = Hsv(h: real, s: real, v: real)
  /** An HSL colour with saturation and lightness in percent. */
  datatype Hsl = Hsl(h: real, s: real, l: real)

  /** The textbook saturation fraction: `s * v` over `(2 - s) * v` when that
      is at most 1, otherwise over its distance from 2; 0 when the divisor is 0. */
  function StandardSaturation(s: real, v: real): real {
    var l2 := (2.0 - s) * v;
    var d := if l2 <= 1.0 then l2 else 2.0 - l2;
    if d == 0.0 then 0.0 else s * v / d
  }

  /** HSV (fractions) to HSL (percent), comparing `(2 - s) * v` with 1 before halving it. */
  function StandardHsvToHsl(c: Hsv): (r: Hsl)
    requires InUnit(c.s) && InUnit(c.v)
    ensures r.h == c.h
    ensures 0.0 <= r.s <= 100.0 && 0.0 <= r.l <= 100.0
  {
    LightnessBranchOnly(c.s, c.v);
    SaturationFraction(c.s, c.v);
    Hsl(c.h, StandardSaturation(c.s, c.v) * 100.0, Lightness(c.s, c.v) * 100.0)
  }

  /** The textbook saturation fraction lies in [0,1]. */
  lemma SaturationFraction(s: real, v: real)
    requires InUnit(s) && InUnit(v)
    ensures 0.0 <= StandardSaturation(s, v) <= 1.0
  {
    var l2 := (2.0 - s) * v;
    var d := if l2 <= 1.0 then l2 else 2.0 - l2;
    MulBounds(2.0 - s, v);
    MulBounds(s, v);
    if d != 0.0 {
      var sat := s * v / d;
      assert d > 0.0;
      assert sat * d == s * v;
      // s * v <= d: in the first case because s <= 2 - s, in the second because v <= 1
      assert s * v <= d by {
        if l2 <= 1.0 {
          MulBounds(2.0 - 2.0 * s, v);
          assert (2.0 - s) * v - s * v == (2.0 - 2.0 * s) * v;
        } else {
          assert 2.0 - l2 == 2.0 - 2.0 * v + s * v;
        }
      }
      QuotientBounds(s * v, d);
    }
  }

  /** 0 <= a / d <= 1 when 0 <= a <= d and d is positive. */
  lemma QuotientBounds(a: real, d: real)
    requires 0.0 <= a <= d && d > 0.0
    ensures 0.0 <= a / d <= 1.0
  {
  }

  /** The inverse conversion, HSL (percent) back to HSV (fractions). */
  function HslToHsv(c: Hsl): Hsv {
    var l := c.l / 100.0;
    var sl := c.s / 100.0;
    var v := l + sl * (if l <= 1.0 - l then l else 1.0 - l);
    var s := if v == 0.0 then 0.0 else 2.0 * (1.0 - l / v);
    Hsv(c.h, s, v)
  }

  /** The saturation times the smaller distance of the lightness from 0 and
      from 1 is half of `s * v`. */
  lemma SaturationSpan(s: real, v: real)
    requires InUnit(s) && InUnit(v)
    ensures var l := Lightness(s, v);
            StandardSaturation(s, v) * (if l <= 1.0 - l then l else 1.0 - l) == s * v / 2.0
  {
    var l2 := (2.0 - s) * v;
    var d := if l2 <= 1.0 then l2 else 2.0 - l2;
    var l := Lightness(s, v);
    var m := if l <= 1.0 - l then l else 1.0 - l;
    assert m * 2.0 == d;
    if d == 0.0 {
      MulBounds(2.0 - s, v);
      MulBounds(s, v);
      assert s * v == 0.0;
    } else {
      var sat := s * v / d;
      assert sat * d == s * v;
      assert StandardSaturation(s, v) == sat;
    }
  }

  /** Converting to HSL and back recovers every colour whose value is positive. */
  lemma StandardRoundTrip(c: Hsv)
    requires InUnit(c.s) && InUnit(c.v) && c.v > 0.0
    ensures HslToHsv(StandardHsvToHsl(c)) == c
  {
    var s, v := c.s, c.v;
    var l, sat := Lightness(s, v), StandardSaturation(s, v);
    assert StandardHsvToHsl(c) == Hsl(c.h, sat * 100.0, l * 100.0);
    assert l * 100.0 / 100.0 == l && sat * 100.0 / 100.0 == sat;
    SaturationSpan(s, v);
    var m := if l <= 1.0 - l then l else 1.0 - l;
    assert sat * m == s * v / 2.0;
    assert l + sat * m == v;
    assert 2.0 * (1.0 - l / v) == s by {
      assert l == (1.0 - s / 2.0) * v;
      QuotientOfProduct(l, 1.0 - s / 2.0, v);
    }
  }

  /** If a == x * y with y nonzero, then a / y == x. */
  lemma QuotientOfProduct(a: real, x: real, y: real)
    requires y != 0.0 && a == x * y
    ensures a / y == x
  {
    var q := a / y;
    assert q * y == a;
    assert (q - x) * y == 0.0;
  }

  /** Both conversions agree on the lightness; whenever `(2 - s) * v <= 1`
      the script's saturation is twice the textbook one. */
  lemma ScriptAgainstStandard(h: real, s: real, v: real)
    requires InUnit(s) && InUnit(v)
    ensures HsvToHsl(h, s, v).l == StandardHsvToHsl(Hsv(h, s, v)).l
    ensures (2.0 - s) * v <= 1.0 ==>
              HsvToHsl(h, s, v).s == Finite(2.0 * StandardHsvToHsl(Hsv(h, s, v)).s)
  {
    ScriptLightness(h, s, v);
    ScriptSaturation(h, s, v);
    var l2 := (2.0 - s) * v;
    if l2 <= 1.0 && v > 0.0 {
      StandardSaturationLowBranch(s, v);
    } else if v == 0.0 {
      BlackHasNoSaturation(h, s);
    }
  }

  /** While `(2 - s) * v <= 1` and the value is positive, the textbook
      saturation fraction is `s / (2 - s)`: half the script's quotient. */
  lemma StandardSaturationLowBranch(s: real, v: real)
    requires InUnit(s) && InUnit(v) && v > 0.0 && (2.0 - s) * v <= 1.0
    ensures StandardSaturation(s, v) == s / (2.0 - s)
    ensures 2.0 * s / (2.0 - s) == 2.0 * (s / (2.0 - s))
  {
    var l2 := (2.0 - s) * v;
    MulPos(2.0 - s, v);
    var y := s / (2.0 - s);
    assert y * (2.0 - s) == s;
    assert s * v == y * l2;
    QuotientOfProduct(s * v, y, l2);
    QuotientOfProduct(2.0 * s, 2.0 * y, 2.0 - s);
  }

  /** Full saturation at full value: the script yields 200% where the
      textbook conversion gives 100%, the top of the range of a CSS
      `hsl()` saturation. */
  lemma ScriptSaturationOutOfRange()
    ensures HsvToHsl(0.0, 1.0, 1.0).s == Finite(200.0)
    ensures StandardHsvToHsl(Hsv(0.0, 1.0, 1.0)).s == 100.0
  {
    ScriptSaturation(0.0, 1.0, 1.0);
  }
}
