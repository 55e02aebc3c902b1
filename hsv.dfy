/** rgbToHSV (generate_colours.go) over exact reals.  The Go code works in
    float64; here every channel is the rational x/255 and every division is
    exact, so H, S and V are the values the formula denotes. */
module Hsv {
  import opened HexColour

  datatype HsvTriple = HsvTriple(h: real, s: real, v: real)

  /** math.Max and math.Min on values that are never NaN. */
  function Max(a: real, b: real): (m: real)
    ensures m >= a && m >= b && (m == a || m == b)
  {
    if a >= b then a else b
  }

  function Min(a: real, b: real): (m: real)
    ensures m <= a && m <= b && (m == a || m == b)
  {
    if a <= b then a else b
  }

  /** float64(x) / 255.0 */
  function Unit(x: int): (u: real)
    ensures 0 <= x <= 255 ==> 0.0 <= u <= 1.0
  {
    x as real / 255.0
  }

  /** Dividing by 255 and scaling back is the identity. */
  lemma UnitScale(x: int)
    ensures Unit(x) * 255.0 == x as real
  {
  }

  /** The largest channel. */
  function MaxChannel(c: Rgb): (m: int)
  {
    if c.r >= c.g && c.r >= c.b then c.r else if c.g >= c.b then c.g else c.b
  }

  /** The smallest channel. */
  function MinChannel(c: Rgb): (m: int)
  {
    if c.r <= c.g && c.r <= c.b then c.r else if c.g <= c.b then c.g else c.b
  }

  /** rgbToHSV.  When max equals several channels the Go switch takes r
      first, then g, then b. */
  function RgbToHsv(c: Rgb): (x: HsvTriple)
    requires c.Valid()
    ensures x.v == Unit(MaxChannel(c)) && 0.0 <= x.v <= 1.0
  {
    var rf, gf, bf := Unit(c.r), Unit(c.g), Unit(c.b);
    var mx := Max(rf, Max(gf, bf));
    var mn := Min(rf, Min(gf, bf));
    var delta := mx - mn;
    if delta == 0.0 then
      HsvTriple(0.0, 0.0, mx)
    else
      HsvTriple(HueSixth(rf, gf, bf, mx, delta) * 60.0, delta / mx, mx)
  }

  /** The hue in sixths of a turn, before the final multiplication by 60:
      the switch on which channel holds the maximum. */
  function HueSixth(rf: real, gf: real, bf: real, mx: real, delta: real): (h: real)
    requires delta != 0.0
    ensures mx == Max(rf, Max(gf, bf)) && delta == mx - Min(rf, Min(gf, bf)) ==> 0.0 <= h < 6.0
  {
    if mx == rf then RatioWithin(gf - bf, delta); (gf - bf) / delta + (if gf < bf then 6.0 else 0.0)
    else if mx == gf then RatioWithin(bf - rf, delta); (bf - rf) / delta + 2.0
    else RatioWithin(rf - gf, delta); (rf - gf) / delta + 4.0
  }

  /** The largest and smallest normalised channels. */
  lemma Extremes(c: Rgb)
    requires c.Valid()
    ensures Max(Unit(c.r), Max(Unit(c.g), Unit(c.b))) == Unit(MaxChannel(c))
    ensures Min(Unit(c.r), Min(Unit(c.g), Unit(c.b))) == Unit(MinChannel(c))
    ensures 0.0 <= Unit(MinChannel(c)) <= Unit(MaxChannel(c)) <= 1.0
  {
  }

  /** The sign of x*d is the sign of x when d is positive. */
  lemma SignOfProduct(x: real, d: real)
    requires d > 0.0
    ensures x * d > 0.0 <==> x > 0.0
    ensures x * d == 0.0 <==> x == 0.0
  {
  }

  /** Multiplying a ratio back by its positive denominator. */
  lemma TimesRatio(v: real, s: real, m: real, a: real)
    requires m > 0.0 && v == m && s == a / m
    ensures v * s == a
  {
  }

  /** Bounds of a ratio a/d whose numerator is at most d in size. */
  lemma RatioBounds(a: real, d: real)
    requires d > 0.0 && -d <= a <= d
    ensures -1.0 <= a / d <= 1.0
    ensures a / d * d == a
    ensures a / d == 1.0 <==> a == d
    ensures a / d == -1.0 <==> a == -d
    ensures a / d >= 0.0 <==> a >= 0.0
  {
    var q := a / d;
    assert q * d == a;
    assert (1.0 - q) * d == d - a;
    SignOfProduct(1.0 - q, d);
    assert (q + 1.0) * d == a + d;
    SignOfProduct(q + 1.0, d);
    SignOfProduct(q, d);
  }

  /** RatioBounds where its premise holds. */
  lemma RatioWithin(a: real, d: real)
    ensures d > 0.0 && -d <= a <= d ==> -1.0 <= a / d <= 1.0 && (a / d >= 0.0 <==> a >= 0.0)
  {
    if d > 0.0 && -d <= a <= d {
      RatioBounds(a, d);
    }
  }

  /** A grey has S = 0, H = 0 and V its common channel. */
  lemma HsvGrey(c: Rgb)
    requires c.Valid() && MaxChannel(c) == MinChannel(c)
    ensures RgbToHsv(c) == HsvTriple(0.0, 0.0, Unit(MaxChannel(c)))
  {
    Extremes(c);
  }

  /** V is the largest channel; away from grey S is the spread between the
      largest and the smallest channel over V, and a grey has S = 0, H = 0. */
  lemma HsvValue(c: Rgb)
    requires c.Valid()
    ensures RgbToHsv(c).v == Unit(MaxChannel(c))
    ensures MaxChannel(c) != MinChannel(c) ==>
      RgbToHsv(c).s == (Unit(MaxChannel(c)) - Unit(MinChannel(c))) / Unit(MaxChannel(c))
    ensures MaxChannel(c) == MinChannel(c) ==> RgbToHsv(c).s == 0.0 && RgbToHsv(c).h == 0.0
  {
    if MaxChannel(c) == MinChannel(c) {
      HsvGrey(c);
    } else {
      Extremes(c);
    }
  }

  /** S lies in [0, 1] and is 0 exactly for a grey. */
  lemma HsvSaturation(c: Rgb)
    requires c.Valid()
    ensures 0.0 <= RgbToHsv(c).s <= 1.0
    ensures RgbToHsv(c).s == 0.0 <==> c.r == c.g == c.b
  {
    Extremes(c);
    var mx, mn := Unit(MaxChannel(c)), Unit(MinChannel(c));
    var delta := mx - mn;
    if delta != 0.0 {
      RatioBounds(delta, mx);
      assert RgbToHsv(c).s == delta / mx;
    }
  }

  /** H lies in [0, 360). */
  lemma HsvHue(c: Rgb)
    requires c.Valid()
    ensures 0.0 <= RgbToHsv(c).h < 360.0
  {
    Extremes(c);
    var rf, gf, bf := Unit(c.r), Unit(c.g), Unit(c.b);
    var mx, mn := Unit(MaxChannel(c)), Unit(MinChannel(c));
    var delta := mx - mn;
    if delta != 0.0 {
      if mx == rf {
        RatioBounds(gf - bf, delta);
      } else if mx == gf {
        RatioBounds(bf - rf, delta);
      } else {
        RatioBounds(rf - gf, delta);
      }
    }
  }

  /** V is the largest channel, S the spread over V, both in [0, 1]; H is in
      [0, 360); a grey has S = 0 and H = 0. */
  lemma HsvRange(c: Rgb)
    requires c.Valid()
    ensures var x := RgbToHsv(c);
      && x.v == Unit(MaxChannel(c)) && 0.0 <= x.v <= 1.0
      && (!(c.r == c.g == c.b) ==> x.s == (Unit(MaxChannel(c)) - Unit(MinChannel(c))) / x.v)
      && 0.0 <= x.s <= 1.0
      && 0.0 <= x.h < 360.0
      && (x.s == 0.0 <==> c.r == c.g == c.b)
      && (x.s == 0.0 ==> x.h == 0.0)
  {
    Extremes(c);
    HsvValue(c);
    HsvSaturation(c);
    HsvHue(c);
  }

  /** The reference inverse: the textbook HSV-to-RGB conversion on exact
      reals (chroma C = V*S, smallest channel V - C, six 60-degree sectors). */
  function HsvToRgb(x: HsvTriple): (rgb: (real, real, real))
    requires 0.0 <= x.h < 360.0
  {
    var c := x.v * x.s;
    var m := x.v - c;
    var hp := x.h / 60.0;
    if hp < 1.0 then (x.v, m + c * hp, m)
    else if hp < 2.0 then (m + c * (2.0 - hp), x.v, m)
    else if hp < 3.0 then (m, x.v, m + c * (hp - 2.0))
    else if hp < 4.0 then (m, m + c * (4.0 - hp), x.v)
    else if hp < 5.0 then (m + c * (hp - 4.0), m, x.v)
    else (x.v, m, m + c * (6.0 - hp))
  }

  /** Moving the hue sixth by a whole sector moves its product with d by
      the same multiple of d. */
  lemma Shift(hp: real, q: real, k: real, d: real)
    requires hp == q + k
    ensures (hp - k) * d == q * d
    ensures (k - hp) * d == -(q * d)
  {
  }

  // HsvToRgb sector by sector.  In sector i, with V and S recovering the
  // largest channel and the spread, and the hue sixth placing the middle
  // channel between the other two, the inverse gives back (r, g, b).

  lemma Sector0(x: HsvTriple, r: real, g: real, b: real)
    requires 0.0 <= x.h < 360.0 && x.h / 60.0 < 1.0
    requires x.v == r && r > 0.0 && x.s == (r - b) / r
    requires (x.h / 60.0) * (r - b) == g - b
    ensures HsvToRgb(x).0 == r && HsvToRgb(x).1 == g && HsvToRgb(x).2 == b
  {
    TimesRatio(x.v, x.s, r, r - b);
    assert x.v * x.s * (x.h / 60.0) == (x.h / 60.0) * (r - b);
  }

  lemma Sector1(x: HsvTriple, r: real, g: real, b: real)
    requires 0.0 <= x.h < 360.0 && 1.0 <= x.h / 60.0 < 2.0
    requires x.v == g && g > 0.0 && x.s == (g - b) / g
    requires (2.0 - x.h / 60.0) * (g - b) == r - b
    ensures HsvToRgb(x).0 == r && HsvToRgb(x).1 == g && HsvToRgb(x).2 == b
  {
    TimesRatio(x.v, x.s, g, g - b);
    assert x.v * x.s * (2.0 - x.h / 60.0) == (2.0 - x.h / 60.0) * (g - b);
  }

  lemma Sector2(x: HsvTriple, r: real, g: real, b: real)
    requires 0.0 <= x.h < 360.0 && 2.0 <= x.h / 60.0 < 3.0
    requires x.v == g && g > 0.0 && x.s == (g - r) / g
    requires (x.h / 60.0 - 2.0) * (g - r) == b - r
    ensures HsvToRgb(x).0 == r && HsvToRgb(x).1 == g && HsvToRgb(x).2 == b
  {
    TimesRatio(x.v, x.s, g, g - r);
    assert x.v * x.s * (x.h / 60.0 - 2.0) == (x.h / 60.0 - 2.0) * (g - r);
  }

  lemma Sector3(x: HsvTriple, r: real, g: real, b: real)
    requires 0.0 <= x.h < 360.0 && 3.0 <= x.h / 60.0 < 4.0
    requires x.v == b && b > 0.0 && x.s == (b - r) / b
    requires (4.0 - x.h / 60.0) * (b - r) == g - r
    ensures HsvToRgb(x).0 == r && HsvToRgb(x).1 == g && HsvToRgb(x).2 == b
  {
    TimesRatio(x.v, x.s, b, b - r);
    assert x.v * x.s * (4.0 - x.h / 60.0) == (4.0 - x.h / 60.0) * (b - r);
  }

  lemma Sector4(x: HsvTriple, r: real, g: real, b: real)
    requires 0.0 <= x.h < 360.0 && 4.0 <= x.h / 60.0 < 5.0
    requires x.v == b && b > 0.0 && x.s == (b - g) / b
    requires (x.h / 60.0 - 4.0) * (b - g) == r - g
    ensures HsvToRgb(x).0 == r && HsvToRgb(x).1 == g && HsvToRgb(x).2 == b
  {
    TimesRatio(x.v, x.s, b, b - g);
    assert x.v * x.s * (x.h / 60.0 - 4.0) == (x.h / 60.0 - 4.0) * (b - g);
  }

  lemma Sector5(x: HsvTriple, r: real, g: real, b: real)
    requires 0.0 <= x.h < 360.0 && 5.0 <= x.h / 60.0
    requires x.v == r && r > 0.0 && x.s == (r - g) / r
    requires (6.0 - x.h / 60.0) * (r - g) == b - g
    ensures HsvToRgb(x).0 == r && HsvToRgb(x).1 == g && HsvToRgb(x).2 == b
  {
    TimesRatio(x.v, x.s, r, r - g);
    assert x.v * x.s * (6.0 - x.h / 60.0) == (6.0 - x.h / 60.0) * (r - g);
  }

  /** What RgbToHsv computes for a colour that is not grey, in terms of the
      largest and smallest normalised channels. */
  lemma ChromaticFacts(c: Rgb)
    requires c.Valid() && MaxChannel(c) != MinChannel(c)
    ensures var x, rf, gf, bf := RgbToHsv(c), Unit(c.r), Unit(c.g), Unit(c.b);
      var mx := Unit(MaxChannel(c));
      var d := mx - Unit(MinChannel(c));
      && d > 0.0
      && 0.0 <= x.h < 360.0 && x.v == mx && x.s == d / mx
      && (mx == rf ==> x.h / 60.0 == (gf - bf) / d + (if gf < bf then 6.0 else 0.0))
      && (mx != rf && mx == gf ==> x.h / 60.0 == (bf - rf) / d + 2.0)
      && (mx != rf && mx != gf ==> mx == bf && x.h / 60.0 == (rf - gf) / d + 4.0)
  {
    Extremes(c);
    HsvValue(c);
    HsvHue(c);
  }

  // The seven ways a colour that is not grey can be ordered, on plain reals:
  // given what RgbToHsv computes for the ordering, the inverse gives back
  // (r, g, b).

  /** r holds the maximum and g is at least b: sector 0, or sector 1 at its
      lower edge when g ties with r. */
  lemma RedRising(x: HsvTriple, r: real, g: real, b: real)
    requires 0.0 <= b <= g <= r && b < r && 0.0 <= x.h < 360.0
    requires x.v == r && x.s == (r - b) / r && x.h / 60.0 == (g - b) / (r - b)
    ensures HsvToRgb(x).0 == r && HsvToRgb(x).1 == g && HsvToRgb(x).2 == b
  {
    RatioBounds(g - b, r - b);
    if g < r {
      Sector0(x, r, g, b);
    } else {
      Sector1(x, r, g, b);
    }
  }

  /** r holds the maximum and g is below b: sector 5. */
  lemma RedFalling(x: HsvTriple, r: real, g: real, b: real)
    requires 0.0 <= g < b <= r && 0.0 <= x.h < 360.0
    requires x.v == r && x.s == (r - g) / r && x.h / 60.0 == (g - b) / (r - g) + 6.0
    ensures HsvToRgb(x).0 == r && HsvToRgb(x).1 == g && HsvToRgb(x).2 == b
  {
    RatioBounds(g - b, r - g);
    Shift(x.h / 60.0, (g - b) / (r - g), 6.0, r - g);
    Sector5(x, r, g, b);
  }

  /** g alone holds the maximum and b is below r: sector 1. */
  lemma GreenRising(x: HsvTriple, r: real, g: real, b: real)
    requires 0.0 <= b < r < g && 0.0 <= x.h < 360.0
    requires x.v == g && x.s == (g - b) / g && x.h / 60.0 == (b - r) / (g - b) + 2.0
    ensures HsvToRgb(x).0 == r && HsvToRgb(x).1 == g && HsvToRgb(x).2 == b
  {
    RatioBounds(b - r, g - b);
    Shift(x.h / 60.0, (b - r) / (g - b), 2.0, g - b);
    Sector1(x, r, g, b);
  }

  /** g alone holds the maximum and b is at least r: sector 2. */
  lemma GreenFalling(x: HsvTriple, r: real, g: real, b: real)
    requires 0.0 <= r <= b < g && 0.0 <= x.h < 360.0
    requires x.v == g && x.s == (g - r) / g && x.h / 60.0 == (b - r) / (g - r) + 2.0
    ensures HsvToRgb(x).0 == r && HsvToRgb(x).1 == g && HsvToRgb(x).2 == b
  {
    RatioBounds(b - r, g - r);
    Shift(x.h / 60.0, (b - r) / (g - r), 2.0, g - r);
    Sector2(x, r, g, b);
  }

  /** g and b tie for the maximum over r: g wins the tie, so the hue sixth is
      exactly 3, the lower edge of sector 3. */
  lemma Cyan(x: HsvTriple, r: real, g: real, b: real)
    requires 0.0 <= r < g == b && 0.0 <= x.h < 360.0
    requires x.v == g && x.s == (g - r) / g && x.h / 60.0 == (b - r) / (g - r) + 2.0
    ensures HsvToRgb(x).0 == r && HsvToRgb(x).1 == g && HsvToRgb(x).2 == b
  {
    RatioBounds(b - r, g - r);
    assert x.h / 60.0 == 3.0;
    Sector3(x, r, g, b);
  }

  /** b alone holds the maximum and r is below g: sector 3. */
  lemma BlueRising(x: HsvTriple, r: real, g: real, b: real)
    requires 0.0 <= r < g < b && 0.0 <= x.h < 360.0
    requires x.v == b && x.s == (b - r) / b && x.h / 60.0 == (r - g) / (b - r) + 4.0
    ensures HsvToRgb(x).0 == r && HsvToRgb(x).1 == g && HsvToRgb(x).2 == b
  {
    RatioBounds(r - g, b - r);
    Shift(x.h / 60.0, (r - g) / (b - r), 4.0, b - r);
    Sector3(x, r, g, b);
  }

  /** b alone holds the maximum and r is at least g: sector 4. */
  lemma BlueFalling(x: HsvTriple, r: real, g: real, b: real)
    requires 0.0 <= g <= r < b && 0.0 <= x.h < 360.0
    requires x.v == b && x.s == (b - g) / b && x.h / 60.0 == (r - g) / (b - g) + 4.0
    ensures HsvToRgb(x).0 == r && HsvToRgb(x).1 == g && HsvToRgb(x).2 == b
  {
    RatioBounds(r - g, b - g);
    Shift(x.h / 60.0, (r - g) / (b - g), 4.0, b - g);
    Sector4(x, r, g, b);
  }

  /** The conversion loses nothing: the inverse recovers the normalised
      channels. */
  lemma HsvRoundTrip(c: Rgb)
    requires c.Valid()
    ensures 0.0 <= RgbToHsv(c).h < 360.0
    ensures HsvToRgb(RgbToHsv(c)) == (Unit(c.r), Unit(c.g), Unit(c.b))
  {
    var x, rf, gf, bf := RgbToHsv(c), Unit(c.r), Unit(c.g), Unit(c.b);
    if MaxChannel(c) == MinChannel(c) {
      HsvValue(c);
      assert c.r == c.g == c.b;
    } else {
      ChromaticFacts(c);
      if MaxChannel(c) == c.r {
        if c.g >= c.b {
          assert Unit(MinChannel(c)) == bf;
          RedRising(x, rf, gf, bf);
        } else {
          assert Unit(MinChannel(c)) == gf;
          RedFalling(x, rf, gf, bf);
        }
      } else if MaxChannel(c) == c.g {
        if c.b < c.r {
          assert Unit(MinChannel(c)) == bf;
          GreenRising(x, rf, gf, bf);
        } else if c.b < c.g {
          assert Unit(MinChannel(c)) == rf;
          GreenFalling(x, rf, gf, bf);
        } else {
          assert Unit(MinChannel(c)) == rf;
          Cyan(x, rf, gf, bf);
        }
      } else if c.r < c.g {
        assert Unit(MinChannel(c)) == rf;
        BlueRising(x, rf, gf, bf);
      } else {
        assert Unit(MinChannel(c)) == gf;
        BlueFalling(x, rf, gf, bf);
      }
    }
  }

  /** So distinct colours never share an HSV triple. */
  lemma RgbToHsvInjective(c1: Rgb, c2: Rgb)
    requires c1.Valid() && c2.Valid()
    requires RgbToHsv(c1) == RgbToHsv(c2)
    ensures c1 == c2
  {
    HsvRoundTrip(c1);
    HsvRoundTrip(c2);
  }

  /** Which channel is largest fixes the hue's sector, ties going to r, then g. */
  lemma HueSector(c: Rgb)
    requires c.Valid()
    requires !(c.r == c.g == c.b)
    ensures c.r == MaxChannel(c) ==> RgbToHsv(c).h <= 60.0 || RgbToHsv(c).h >= 300.0
    ensures c.r < MaxChannel(c) == c.g ==> 60.0 < RgbToHsv(c).h <= 180.0
    ensures c.r < c.b && c.g < c.b ==> 180.0 < RgbToHsv(c).h < 300.0
  {
    Extremes(c);
    var rf, gf, bf := Unit(c.r), Unit(c.g), Unit(c.b);
    var delta := Unit(MaxChannel(c)) - Unit(MinChannel(c));
    if c.r == MaxChannel(c) {
      RatioBounds(gf - bf, delta);
    } else if c.g == MaxChannel(c) {
      RatioBounds(bf - rf, delta);
    } else {
      RatioBounds(rf - gf, delta);
    }
  }

  /** Where two channels tie for the maximum, the hue is the sector edge
      between them: 60 for red and green, 180 for green and blue, 300 for
      red and blue.  The switch order picks which formula computes it, and
      both formulas agree there. */
  lemma HueTies(c: Rgb)
    requires c.Valid()
    ensures c.r == c.g && c.b < c.r ==> RgbToHsv(c).h == 60.0
    ensures c.g == c.b && c.r < c.g ==> RgbToHsv(c).h == 180.0
    ensures c.r == c.b && c.g < c.r ==> RgbToHsv(c).h == 300.0
  {
    var rf, gf, bf := Unit(c.r), Unit(c.g), Unit(c.b);
    if c.r == c.g && c.b < c.r {
      HueOf(c);
      assert MaxChannel(c) == c.r && MinChannel(c) == c.b;
      RedGreenTie(rf, gf, bf);
    } else if c.g == c.b && c.r < c.g {
      HueOf(c);
      assert MaxChannel(c) == c.g && MinChannel(c) == c.r;
      GreenBlueTie(rf, gf, bf);
    } else if c.r == c.b && c.g < c.r {
      HueOf(c);
      assert MaxChannel(c) == c.r && MinChannel(c) == c.g;
      RedBlueTie(rf, gf, bf);
    }
  }

  lemma RedGreenTie(rf: real, gf: real, bf: real)
    requires rf == gf && bf < rf
    ensures HueSixth(rf, gf, bf, rf, rf - bf) * 60.0 == 60.0
  {
    assert (gf - bf) / (rf - bf) == 1.0;
  }

  lemma GreenBlueTie(rf: real, gf: real, bf: real)
    requires gf == bf && rf < gf
    ensures HueSixth(rf, gf, bf, gf, gf - rf) * 60.0 == 180.0
  {
    assert (bf - rf) / (gf - rf) == 1.0;
  }

  lemma RedBlueTie(rf: real, gf: real, bf: real)
    requires rf == bf && gf < rf
    ensures HueSixth(rf, gf, bf, rf, rf - gf) * 60.0 == 300.0
  {
    assert (gf - bf) / (rf - gf) == -1.0;
  }

  /** Away from grey, H is 60 times the hue sixth of the extreme channels. */
  lemma HueOf(c: Rgb)
    requires c.Valid() && !(c.r == c.g == c.b)
    ensures var mx := Unit(MaxChannel(c));
      var d := mx - Unit(MinChannel(c));
      d != 0.0 && RgbToHsv(c).h == HueSixth(Unit(c.r), Unit(c.g), Unit(c.b), mx, d) * 60.0
  {
    Extremes(c);
  }
}
