/** The eleven classifiers of generate_colours.go.  Each maps an RGB triple to
    one label through a first-match `switch`/`if` chain, written here as the
    chain the Go code has.  Beside each of the seven threshold classifiers
    (hue, brightness, saturation, temperature, shade, intensity, complexity)
    stands a breakpoint table (module Partition) proved to give the same
    label, which is what makes the chain exhaustive, puts every boundary
    value in the band above it and orders the bands.  Pastel, tone,
    undertone and mood are stated by their own lemmas. */
module Classifiers {
  import opened HexColour
  import opened Hsv
  import opened Partition

  // ---------------------------------------------------------------------
  // Go integer division

  /** Go's `a / d` for a positive divisor: the quotient truncated toward
      zero, so that the remainder takes the sign of a. */
  function GoDiv(a: int, d: int): (q: int)
    requires d > 0
    ensures a >= 0 ==> 0 <= q && q * d <= a < q * d + d
    ensures a < 0 ==> q <= 0 && q * d - d < a <= q * d
  {
    if a >= 0 then
      DivBounds(a, d);
      a / d
    else
      DivBounds(-a, d);
      -((-a) / d)
  }

  /** Dafny's division of a natural by a positive d: the quotient is the
      largest multiple of d not above the numerator. */
  lemma DivBounds(n: int, d: int)
    requires n >= 0 && d > 0
    ensures 0 <= n / d && (n / d) * d <= n < (n / d) * d + d
    ensures (-(n / d)) * d == -((n / d) * d)
  {
  }

  /** Truncation and Dafny's Euclidean division part on a negative odd
      numerator: Go gives -21 / 2 == -10. */
  lemma GoDivTruncates()
    ensures GoDiv(-21, 2) == -10
    ensures -21 / 2 == -11
  {
  }

  /** A multiple of a positive d that is below d is not a positive multiple. */
  lemma MultipleBelow(x: int, d: int)
    requires d > 0 && x * d < d
    ensures x <= 0
  {
  }

  /** Division of naturals is monotone in the numerator. */
  lemma DivMonotone(a: int, b: int, d: int)
    requires 0 <= a <= b && d > 0
    ensures a / d <= b / d
  {
    assert (a / d - b / d) * d == (a - a % d) - (b - b % d);
    MultipleBelow(a / d - b / d, d);
  }

  /** Truncating division is monotone in the numerator. */
  lemma GoDivMonotone(a: int, b: int, d: int)
    requires d > 0 && a <= b
    ensures GoDiv(a, d) <= GoDiv(b, d)
  {
    if 0 <= a {
      DivMonotone(a, b, d);
    } else if b < 0 {
      DivMonotone(-b, -a, d);
    }
  }

  // ---------------------------------------------------------------------
  // Hue (getDetailedHueLabel)

  const HueBounds: seq<real> := [15.0, 45.0, 75.0, 165.0, 195.0, 255.0, 285.0, 345.0]
  const HueNames: seq<string> :=
    ["red", "orange", "yellow", "green", "cyan", "blue", "purple", "magenta", "red"]

  /** getDetailedHueLabel.  The final "neutral" is unreachable: the eight
      cases cover every real hue. */
  function HueLabel(c: Rgb): (l: string)
    requires c.Valid()
    ensures l in HueNames && l != "neutral"
  {
    var h := RgbToHsv(c).h;
    if h < 15.0 || h >= 345.0 then "red"
    else if h >= 15.0 && h < 45.0 then "orange"
    else if h >= 45.0 && h < 75.0 then "yellow"
    else if h >= 75.0 && h < 165.0 then "green"
    else if h >= 165.0 && h < 195.0 then "cyan"
    else if h >= 195.0 && h < 255.0 then "blue"
    else if h >= 255.0 && h < 285.0 then "purple"
    else if h >= 285.0 && h < 345.0 then "magenta"
    else "neutral"
  }

  lemma HueBoundsIncreasing()
    ensures Increasing(HueBounds)
  {
  }

  /** The hue label is the sector of the hue in the breakpoint table. */
  lemma HueTable(c: Rgb)
    requires c.Valid()
    ensures HueLabel(c) == Band(RgbToHsv(c).h, HueBounds, HueNames)
  {
    var h := RgbToHsv(c).h;
    HueBoundsIncreasing();
    var k := if h < 15.0 then 0 else if h < 45.0 then 1 else if h < 75.0 then 2
      else if h < 165.0 then 3 else if h < 195.0 then 4 else if h < 255.0 then 5
      else if h < 285.0 then 6 else if h < 345.0 then 7 else 8;
    RankUnique(h, HueBounds, k);
  }

  /** A hue exactly on a breakpoint takes the sector above it. */
  lemma HueBreakpoint(c: Rgb, i: nat)
    requires c.Valid() && i < |HueBounds| && RgbToHsv(c).h == HueBounds[i]
    ensures HueLabel(c) == HueNames[i + 1]
  {
    HueTable(c);
    HueBoundsIncreasing();
    RankAtBreakpoint(HueBounds, i);
  }

  /** The channel that holds the maximum narrows the hue label: red stays in
      red..yellow or magenta, green in yellow..cyan, blue in cyan..magenta. */
  lemma HueLabelByDominant(c: Rgb)
    requires c.Valid() && !(c.r == c.g == c.b)
    ensures c.r == MaxChannel(c) ==> HueLabel(c) in {"red", "orange", "yellow", "magenta"}
    ensures c.r < MaxChannel(c) == c.g ==> HueLabel(c) in {"yellow", "green", "cyan"}
    ensures c.r < c.b && c.g < c.b ==> HueLabel(c) in {"cyan", "blue", "purple", "magenta"}
  {
    HueSector(c);
  }

  // ---------------------------------------------------------------------
  // Brightness (getDetailedBrightnessLabel)

  /** The integer luma (299r + 587g + 114b) / 1000, truncated as in Go. */
  function Luma(c: Rgb): (y: int)
    ensures c.Valid() ==> 0 <= y <= 255
  {
    GoDiv(c.r * 299 + c.g * 587 + c.b * 114, 1000)
  }

  const BrightnessBounds: seq<real> := [64.0, 128.0, 192.0, 240.0]
  const BrightnessNames: seq<string> := ["very_dark", "dark", "medium", "light", "very_light"]

  /** getDetailedBrightnessLabel. */
  function BrightnessLabel(c: Rgb): (l: string)
    ensures l in BrightnessNames
  {
    var brightness := Luma(c);
    if brightness < 64 then "very_dark"
    else if brightness >= 64 && brightness < 128 then "dark"
    else if brightness >= 128 && brightness < 192 then "medium"
    else if brightness >= 192 && brightness < 240 then "light"
    else "very_light"
  }

  lemma BrightnessBoundsIncreasing()
    ensures Increasing(BrightnessBounds) && Distinct(BrightnessNames)
  {
  }

  /** The brightness label is the band of the luma. */
  lemma BrightnessTable(c: Rgb)
    ensures BrightnessLabel(c) == Band(Luma(c) as real, BrightnessBounds, BrightnessNames)
  {
    var y := Luma(c);
    BrightnessBoundsIncreasing();
    var k := if y < 64 then 0 else if y < 128 then 1 else if y < 192 then 2 else if y < 240 then 3 else 4;
    RankUnique(y as real, BrightnessBounds, k);
  }

  /** A luma exactly on a breakpoint takes the band above it. */
  lemma BrightnessBreakpoint(c: Rgb, i: nat)
    requires i < |BrightnessBounds| && Luma(c) as real == BrightnessBounds[i]
    ensures BrightnessLabel(c) == BrightnessNames[i + 1]
  {
    BrightnessTable(c);
    BrightnessBoundsIncreasing();
    RankAtBreakpoint(BrightnessBounds, i);
  }

  /** very_dark < dark < medium < light < very_light never goes down as the
      luma goes up. */
  lemma BrightnessMonotone(c1: Rgb, c2: Rgb)
    requires Luma(c1) <= Luma(c2)
    ensures Position(BrightnessNames, BrightnessLabel(c1)) <= Position(BrightnessNames, BrightnessLabel(c2))
  {
    BrightnessTable(c1);
    BrightnessTable(c2);
    BrightnessBoundsIncreasing();
    BandMonotone(Luma(c1) as real, Luma(c2) as real, BrightnessBounds, BrightnessNames);
  }

  /** Raising any channel never lowers the luma. */
  lemma LumaMonotone(c1: Rgb, c2: Rgb)
    requires c1.r <= c2.r && c1.g <= c2.g && c1.b <= c2.b
    ensures Luma(c1) <= Luma(c2)
  {
    GoDivMonotone(c1.r * 299 + c1.g * 587 + c1.b * 114, c2.r * 299 + c2.g * 587 + c2.b * 114, 1000);
  }

  // ---------------------------------------------------------------------
  // Saturation (getDetailedSaturationLabel)

  const SaturationBounds: seq<real> := [0.1, 0.3, 0.6, 0.8]
  const SaturationNames: seq<string> := ["grayscale", "muted", "moderate", "vibrant", "vivid"]

  /** getDetailedSaturationLabel. */
  function SaturationLabel(c: Rgb): (l: string)
    requires c.Valid()
    ensures l in SaturationNames
  {
    var s := RgbToHsv(c).s;
    if s < 0.1 then "grayscale"
    else if s >= 0.1 && s < 0.3 then "muted"
    else if s >= 0.3 && s < 0.6 then "moderate"
    else if s >= 0.6 && s < 0.8 then "vibrant"
    else "vivid"
  }

  lemma SaturationBoundsIncreasing()
    ensures Increasing(SaturationBounds) && Distinct(SaturationNames)
  {
  }

  /** The saturation label is the band of S. */
  lemma SaturationTable(c: Rgb)
    requires c.Valid()
    ensures SaturationLabel(c) == Band(RgbToHsv(c).s, SaturationBounds, SaturationNames)
  {
    var s := RgbToHsv(c).s;
    SaturationBoundsIncreasing();
    var k := if s < 0.1 then 0 else if s < 0.3 then 1 else if s < 0.6 then 2 else if s < 0.8 then 3 else 4;
    RankUnique(s, SaturationBounds, k);
  }

  /** A grey is always grayscale. */
  lemma GreyIsGrayscale(c: Rgb)
    requires c.Valid() && c.r == c.g == c.b
    ensures SaturationLabel(c) == "grayscale"
  {
    HsvSaturation(c);
  }

  // ---------------------------------------------------------------------
  // Temperature (getTemperatureLabel)

  /** (r - b) / 2 with Go's truncating division. */
  function Temperature(c: Rgb): (t: int)
    ensures c.r - c.b >= 0 ==> 2 * t <= c.r - c.b <= 2 * t + 1
    ensures c.r - c.b < 0 ==> 2 * t - 1 <= c.r - c.b <= 2 * t
  {
    GoDiv(c.r - c.b, 2)
  }

  const TemperatureBounds: seq<real> := [-30.0, -10.0, 10.0, 30.0]
  const TemperatureNames: seq<string> := ["very_cool", "cool", "neutral", "warm", "very_warm"]

  /** getTemperatureLabel. */
  function TemperatureLabel(c: Rgb): (l: string)
    ensures l in TemperatureNames
  {
    var temperature := Temperature(c);
    if temperature < -30 then "very_cool"
    else if temperature >= -30 && temperature < -10 then "cool"
    else if temperature >= -10 && temperature < 10 then "neutral"
    else if temperature >= 10 && temperature < 30 then "warm"
    else "very_warm"
  }

  lemma TemperatureBoundsIncreasing()
    ensures Increasing(TemperatureBounds) && Distinct(TemperatureNames)
  {
  }

  /** The temperature label is the band of the temperature. */
  lemma TemperatureTable(c: Rgb)
    ensures TemperatureLabel(c) == Band(Temperature(c) as real, TemperatureBounds, TemperatureNames)
  {
    var t := Temperature(c);
    TemperatureBoundsIncreasing();
    var k := if t < -30 then 0 else if t < -10 then 1 else if t < 10 then 2 else if t < 30 then 3 else 4;
    RankUnique(t as real, TemperatureBounds, k);
  }

  /** Truncation decides the cool boundary: r - b == -21 gives -10, which is
      neutral, where floor division would give -11 and cool. */
  lemma TemperatureTruncation()
    ensures Temperature(Rgb(0, 0, 21)) == -10
    ensures TemperatureLabel(Rgb(0, 0, 21)) == "neutral"
  {
  }

  /** A warm temperature implies a warm undertone, a cool one a cool
      undertone. */
  lemma TemperatureUndertone(c: Rgb)
    ensures TemperatureLabel(c) in {"warm", "very_warm"} ==> UndertoneLabel(c) == "warm_undertone"
    ensures TemperatureLabel(c) in {"cool", "very_cool"} ==> UndertoneLabel(c) == "cool_undertone"
  {
  }

  /** The converse fails: a difference of one is a neutral temperature with
      a warm undertone. */
  lemma UndertoneFinerThanTemperature()
    ensures TemperatureLabel(Rgb(1, 0, 0)) == "neutral"
    ensures UndertoneLabel(Rgb(1, 0, 0)) == "warm_undertone"
  {
  }

  // ---------------------------------------------------------------------
  // Pastel (getPastelLabel)

  const PastelNames: seq<string> := ["pastel", "not_pastel"]

  /** getPastelLabel. */
  function PastelLabel(c: Rgb): (l: string)
    requires c.Valid()
    ensures l in PastelNames
  {
    var x := RgbToHsv(c);
    if x.s < 0.5 && x.v > 0.7 then "pastel" else "not_pastel"
  }

  /** The pastel test on the integer channels: the spread is below half the
      largest channel, and the largest channel is above 178.5. */
  lemma PastelByChannels(c: Rgb)
    requires c.Valid()
    ensures PastelLabel(c) == "pastel" <==>
      2 * (MaxChannel(c) - MinChannel(c)) < MaxChannel(c) && 10 * MaxChannel(c) > 1785
  {
    Extremes(c);
    HsvValue(c);
    var hi, lo := MaxChannel(c), MinChannel(c);
    if hi != lo {
      SpreadBelowHalf(hi, lo);
    }
  }

  /** The spread over the largest channel, on exact reals, is below one half
      exactly when twice the integer spread is below the largest channel. */
  lemma SpreadBelowHalf(hi: int, lo: int)
    requires 0 <= lo < hi
    ensures (Unit(hi) - Unit(lo)) / Unit(hi) < 0.5 <==> 2 * (hi - lo) < hi
  {
    var q := (Unit(hi) - Unit(lo)) / Unit(hi);
    assert q * Unit(hi) == Unit(hi) - Unit(lo);
    assert q * (hi as real) == (hi - lo) as real;
    SignOfProduct(0.5 - q, hi as real);
    assert (0.5 - q) * (hi as real) == 0.5 * (hi as real) - (hi - lo) as real;
  }

  // ---------------------------------------------------------------------
  // Shade (getShadeLabel)

  const ShadeBounds: seq<real> := [0.2, 0.4, 0.6, 0.8]
  const ShadeNames: seq<string> := ["shadow", "deep", "mid_tone", "light", "pale"]

  /** getShadeLabel. */
  function ShadeLabel(c: Rgb): (l: string)
    requires c.Valid()
    ensures l in ShadeNames
  {
    var v := RgbToHsv(c).v;
    if v < 0.2 then "shadow"
    else if v >= 0.2 && v < 0.4 then "deep"
    else if v >= 0.4 && v < 0.6 then "mid_tone"
    else if v >= 0.6 && v < 0.8 then "light"
    else "pale"
  }

  lemma ShadeBoundsIncreasing()
    ensures Increasing(ShadeBounds) && Distinct(ShadeNames)
  {
  }

  /** The shade label is the band of V. */
  lemma ShadeTable(c: Rgb)
    requires c.Valid()
    ensures ShadeLabel(c) == Band(RgbToHsv(c).v, ShadeBounds, ShadeNames)
  {
    var v := RgbToHsv(c).v;
    ShadeBoundsIncreasing();
    var k := if v < 0.2 then 0 else if v < 0.4 then 1 else if v < 0.6 then 2 else if v < 0.8 then 3 else 4;
    RankUnique(v, ShadeBounds, k);
  }

  /** The shade depends on the largest channel alone and never goes down as
      it goes up. */
  lemma ShadeMonotone(c1: Rgb, c2: Rgb)
    requires c1.Valid() && c2.Valid() && MaxChannel(c1) <= MaxChannel(c2)
    ensures Position(ShadeNames, ShadeLabel(c1)) <= Position(ShadeNames, ShadeLabel(c2))
  {
    HsvValue(c1);
    HsvValue(c2);
    ShadeTable(c1);
    ShadeTable(c2);
    ShadeBoundsIncreasing();
    BandMonotone(RgbToHsv(c1).v, RgbToHsv(c2).v, ShadeBounds, ShadeNames);
  }

  /** A pastel is light or pale in shade and at most moderate in saturation. */
  lemma PastelShade(c: Rgb)
    requires c.Valid() && PastelLabel(c) == "pastel"
    ensures ShadeLabel(c) in {"light", "pale"}
    ensures SaturationLabel(c) in {"grayscale", "muted", "moderate"}
  {
  }

  // ---------------------------------------------------------------------
  // Tone (getToneLabel)

  const ToneNames: seq<string> := ["charcoal", "silver", "chromatic"]

  /** getToneLabel. */
  function ToneLabel(c: Rgb): (l: string)
    requires c.Valid()
    ensures l in ToneNames
  {
    var x := RgbToHsv(c);
    if x.s < 0.1 then (if x.v < 0.5 then "charcoal" else "silver")
    else "chromatic"
  }

  /** Tone and saturation share the S < 0.1 test: the tone is chromatic
      exactly when the saturation label is not grayscale, and a grayscale
      colour is charcoal exactly when V < 0.5. */
  lemma ToneSaturation(c: Rgb)
    requires c.Valid()
    ensures ToneLabel(c) == "chromatic" <==> SaturationLabel(c) != "grayscale"
    ensures SaturationLabel(c) == "grayscale" ==> (ToneLabel(c) == "charcoal" <==> RgbToHsv(c).v < 0.5)
    ensures SaturationLabel(c) == "grayscale" ==> (ToneLabel(c) == "silver" <==> RgbToHsv(c).v >= 0.5)
  {
  }

  // ---------------------------------------------------------------------
  // Intensity (getIntensityLabel)

  /** (r + g + b) / 3, truncated as in Go. */
  function Intensity(c: Rgb): (i: int)
    ensures c.Valid() ==> 0 <= i <= 255 && 3 * i <= c.r + c.g + c.b < 3 * i + 3
  {
    GoDiv(c.r + c.g + c.b, 3)
  }

  const IntensityBounds: seq<real> := [64.0, 128.0, 192.0]
  const IntensityNames: seq<string> := ["subdued", "moderate", "bright", "intense"]

  /** getIntensityLabel. */
  function IntensityLabel(c: Rgb): (l: string)
    ensures l in IntensityNames
  {
    var intensity := Intensity(c);
    if intensity < 64 then "subdued"
    else if intensity >= 64 && intensity < 128 then "moderate"
    else if intensity >= 128 && intensity < 192 then "bright"
    else "intense"
  }

  lemma IntensityBoundsIncreasing()
    ensures Increasing(IntensityBounds) && Distinct(IntensityNames)
  {
  }

  /** The intensity label is the band of the mean channel. */
  lemma IntensityTable(c: Rgb)
    ensures IntensityLabel(c) == Band(Intensity(c) as real, IntensityBounds, IntensityNames)
  {
    var i := Intensity(c);
    IntensityBoundsIncreasing();
    var k := if i < 64 then 0 else if i < 128 then 1 else if i < 192 then 2 else 3;
    RankUnique(i as real, IntensityBounds, k);
  }

  // ---------------------------------------------------------------------
  // Undertone (getUndertoneLabel)

  const UndertoneNames: seq<string> := ["warm_undertone", "cool_undertone", "neutral_undertone"]

  /** getUndertoneLabel. */
  function UndertoneLabel(c: Rgb): (l: string)
    ensures l in UndertoneNames
  {
    if c.r > c.b then "warm_undertone"
    else if c.b > c.r then "cool_undertone"
    else "neutral_undertone"
  }

  /** Swapping red and blue swaps a warm undertone for a cool one. */
  lemma UndertoneSymmetry(c: Rgb)
    ensures UndertoneLabel(c) == "warm_undertone" <==> UndertoneLabel(Rgb(c.b, c.g, c.r)) == "cool_undertone"
    ensures UndertoneLabel(c) == "neutral_undertone" <==> UndertoneLabel(Rgb(c.b, c.g, c.r)) == "neutral_undertone"
  {
  }

  // ---------------------------------------------------------------------
  // Complexity (getComplexityLabel)

  /** math.Abs on the float64 value of an integer. */
  function Abs(x: int): (a: nat)
    ensures a == x || a == -x
  {
    if x < 0 then -x else x
  }

  /** |r-g| + |g-b| + |b-r|.  The Go code sums float64 values of integers no
      larger than 2^9, so the sum is exact and equal to this one. */
  function Diff(c: Rgb): (d: nat)
    ensures d == 2 * (MaxChannel(c) - MinChannel(c))
  {
    Abs(c.r - c.g) + Abs(c.g - c.b) + Abs(c.b - c.r)
  }

  const ComplexityBounds: seq<real> := [30.0, 90.0]
  const ComplexityNames: seq<string> := ["pure", "simple", "complex"]

  /** getComplexityLabel. */
  function ComplexityLabel(c: Rgb): (l: string)
    ensures l in ComplexityNames
  {
    var diff := Diff(c);
    if diff < 30 then "pure"
    else if diff < 90 then "simple"
    else "complex"
  }

  lemma ComplexityBoundsIncreasing()
    ensures Increasing(ComplexityBounds) && Distinct(ComplexityNames)
  {
  }

  /** The complexity label is the band of the channel spread. */
  lemma ComplexityTable(c: Rgb)
    ensures ComplexityLabel(c) == Band(Diff(c) as real, ComplexityBounds, ComplexityNames)
  {
    var d := Diff(c);
    ComplexityBoundsIncreasing();
    var k := if d < 30 then 0 else if d < 90 then 1 else 2;
    RankUnique(d as real, ComplexityBounds, k);
  }

  /** In terms of the largest and smallest channel: pure below a spread of
      15, simple from 15 below 45, complex from 45. */
  lemma ComplexityBySpread(c: Rgb)
    ensures ComplexityLabel(c) == "pure" <==> MaxChannel(c) - MinChannel(c) < 15
    ensures ComplexityLabel(c) == "simple" <==> 15 <= MaxChannel(c) - MinChannel(c) < 45
    ensures ComplexityLabel(c) == "complex" <==> MaxChannel(c) - MinChannel(c) >= 45
  {
  }

  // ---------------------------------------------------------------------
  // Mood (getMoodLabel)

  const MoodNames: seq<string> := ["somber", "airy", "energetic", "warm", "cool", "balanced"]

  /** getMoodLabel: the first rule that matches wins. */
  function MoodLabel(c: Rgb): (l: string)
    requires c.Valid()
    ensures l in MoodNames
  {
    var x := RgbToHsv(c);
    if x.v < 0.3 then "somber"
    else if x.v > 0.7 && x.s < 0.3 then "airy"
    else if x.s > 0.7 && x.v > 0.7 then "energetic"
    else if x.h >= 0.0 && x.h < 60.0 then "warm"
    else if x.h >= 180.0 && x.h < 300.0 then "cool"
    else "balanced"
  }

  /** A dark colour is somber whatever its hue and saturation; warm and cool
      are given only when none of the somber, airy and energetic rules
      applies; balanced exactly when no rule applies. */
  lemma MoodPriority(c: Rgb)
    requires c.Valid()
    ensures var x := RgbToHsv(c);
      && (x.v < 0.3 ==> MoodLabel(c) == "somber")
      && (MoodLabel(c) in {"warm", "cool"} ==>
            !(x.v < 0.3) && !(x.v > 0.7 && x.s < 0.3) && !(x.s > 0.7 && x.v > 0.7))
      && (MoodLabel(c) == "balanced" <==>
            !(x.v < 0.3) && !(x.v > 0.7 && x.s < 0.3) && !(x.s > 0.7 && x.v > 0.7)
            && !(0.0 <= x.h < 60.0) && !(180.0 <= x.h < 300.0))
  {
  }

  /** A grey is never balanced: its hue is 0, so a mid grey is warm. */
  lemma GreyMood(c: Rgb)
    requires c.Valid() && c.r == c.g == c.b
    ensures MoodLabel(c) in {"somber", "airy", "warm"}
    ensures 77 <= c.r <= 178 ==> MoodLabel(c) == "warm"
  {
    HsvValue(c);
    assert MaxChannel(c) == c.r;
  }
}
