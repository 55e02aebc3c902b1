/** getColorLabels (generate_colours.go): a colour identifier becomes the
    list of its eleven labels, in a fixed order. */
module ColourLabels {
  import opened HexColour
  import opened Hsv
  import opened Classifiers

  /** The labels each position of the list can hold: hue, brightness,
      saturation, temperature, pastel, shade, tone, intensity, undertone,
      complexity, mood. */
  const Vocabularies: seq<seq<string>> :=
    [HueNames, BrightnessNames, SaturationNames, TemperatureNames, PastelNames, ShadeNames,
     ToneNames, IntensityNames, UndertoneNames, ComplexityNames, MoodNames]

  /** The label list of a parsed colour: one classifier per position. */
  function ColorLabels(c: Rgb): (labels: seq<string>)
    requires c.Valid()
    ensures |labels| == |Vocabularies|
  {
    [HueLabel(c), BrightnessLabel(c), SaturationLabel(c), TemperatureLabel(c), PastelLabel(c),
     ShadeLabel(c), ToneLabel(c), IntensityLabel(c), UndertoneLabel(c), ComplexityLabel(c),
     MoodLabel(c)]
  }

  /** Eleven labels, each from the vocabulary of its position. */
  lemma ListInVocabularies(l0: string, l1: string, l2: string, l3: string, l4: string,
                           l5: string, l6: string, l7: string, l8: string, l9: string, l10: string)
    requires l0 in HueNames && l1 in BrightnessNames && l2 in SaturationNames
    requires l3 in TemperatureNames && l4 in PastelNames && l5 in ShadeNames
    requires l6 in ToneNames && l7 in IntensityNames && l8 in UndertoneNames
    requires l9 in ComplexityNames && l10 in MoodNames
    ensures var l := [l0, l1, l2, l3, l4, l5, l6, l7, l8, l9, l10];
      forall i :: 0 <= i < |Vocabularies| ==> l[i] in Vocabularies[i]
  {
  }

  /** Every position of the list holds a label of its own vocabulary. */
  lemma LabelsInVocabulary(c: Rgb)
    requires c.Valid()
    ensures forall i :: 0 <= i < |Vocabularies| ==> ColorLabels(c)[i] in Vocabularies[i]
  {
    ListInVocabularies(HueLabel(c), BrightnessLabel(c), SaturationLabel(c), TemperatureLabel(c),
      PastelLabel(c), ShadeLabel(c), ToneLabel(c), IntensityLabel(c), UndertoneLabel(c),
      ComplexityLabel(c), MoodLabel(c));
  }

  /** getColorLabels.  None stands for the run-time panic of hexToRGB on a
      string with fewer than six characters after the optional '#'.  It is
      also returned for a signed pair that parses to a negative channel: the
      model restricts the HSV conversion to byte channels, while Go labels
      those triples too. */
  function GetColorLabels(color: string): (o: Option<seq<string>>)
    ensures o.Some? <==> HexToRgb(color).Some? && HexToRgb(color).value.Valid()
    ensures o.Some? ==> |o.value| == 11
  {
    match HexToRgb(color)
    case None => None
    case Some(c) => if c.Valid() then Some(ColorLabels(c)) else None
  }

  /** A `#` (optional) and six hex digits always get a full label list. */
  lemma WellFormedLabels(color: string)
    requires WellFormed(color)
    ensures GetColorLabels(color).Some?
    ensures forall i :: 0 <= i < |Vocabularies| ==> GetColorLabels(color).value[i] in Vocabularies[i]
  {
    ParseWellFormed(color);
    LabelsInVocabulary(HexToRgb(color).value);
  }

  /** Labelling an identifier the generator formats gives the labels of the
      colour it was formatted from. */
  lemma GeneratedLabels(c: Rgb)
    requires c.Valid()
    ensures GetColorLabels(FormatColor(Pack(c))) == Some(ColorLabels(c))
  {
    FormatParseRoundTrip(c);
  }

  /** Black. */
  lemma BlackLabels()
    ensures GetColorLabels("#000000") == Some(["red", "very_dark", "grayscale", "neutral",
      "not_pastel", "shadow", "charcoal", "subdued", "neutral_undertone", "pure", "somber"])
  {
    var c := Rgb(0, 0, 0);
    assert TrimHash("#000000") == "000000";
    assert ParsePair("00") == 0;
    assert HexToRgb("#000000") == Some(c);
    assert GetColorLabels("#000000") == Some(ColorLabels(c));
    assert RgbToHsv(c) == HsvTriple(0.0, 0.0, 0.0);
    assert HueLabel(c) == "red";
    assert BrightnessLabel(c) == "very_dark";
    assert SaturationLabel(c) == "grayscale";
    assert TemperatureLabel(c) == "neutral";
    assert PastelLabel(c) == "not_pastel";
    assert ShadeLabel(c) == "shadow";
    assert ToneLabel(c) == "charcoal";
    assert IntensityLabel(c) == "subdued";
    assert UndertoneLabel(c) == "neutral_undertone";
    assert ComplexityLabel(c) == "pure";
    assert MoodLabel(c) == "somber";
  }

  /** Pure red: the luma of 255 red is 76, so red is only dark. */
  lemma RedLabels()
    ensures GetColorLabels("#ff0000") == Some(["red", "dark", "vivid", "very_warm",
      "not_pastel", "pale", "chromatic", "moderate", "warm_undertone", "complex", "energetic"])
  {
    var c := Rgb(255, 0, 0);
    assert HexToRgb("#ff0000") == Some(c);
    assert RgbToHsv(c) == HsvTriple(0.0, 1.0, 1.0);
    assert HueLabel(c) == "red";
    assert BrightnessLabel(c) == "dark";
    assert SaturationLabel(c) == "vivid";
    assert TemperatureLabel(c) == "very_warm";
    assert PastelLabel(c) == "not_pastel";
    assert ShadeLabel(c) == "pale";
    assert ToneLabel(c) == "chromatic";
    assert IntensityLabel(c) == "moderate";
    assert UndertoneLabel(c) == "warm_undertone";
    assert ComplexityLabel(c) == "complex";
    assert MoodLabel(c) == "energetic";
  }

  /** White: a grey, so its hue is 0 and its hue label red. */
  lemma WhiteLabels()
    ensures GetColorLabels("#ffffff") == Some(["red", "very_light", "grayscale", "neutral",
      "pastel", "pale", "silver", "intense", "neutral_undertone", "pure", "airy"])
  {
    var c := Rgb(255, 255, 255);
    assert HexToRgb("#ffffff") == Some(c);
    assert RgbToHsv(c) == HsvTriple(0.0, 0.0, 1.0);
    assert HueLabel(c) == "red";
    assert BrightnessLabel(c) == "very_light";
    assert SaturationLabel(c) == "grayscale";
    assert TemperatureLabel(c) == "neutral";
    assert PastelLabel(c) == "pastel";
    assert ShadeLabel(c) == "pale";
    assert ToneLabel(c) == "silver";
    assert IntensityLabel(c) == "intense";
    assert UndertoneLabel(c) == "neutral_undertone";
    assert ComplexityLabel(c) == "pure";
    assert MoodLabel(c) == "airy";
  }

  /** #404040 has luma exactly 64, the lowest luma that is dark. */
  lemma BrightnessBoundaryExample()
    ensures Luma(Rgb(64, 64, 64)) == 64
    ensures GetColorLabels("#404040").Some? && GetColorLabels("#404040").value[1] == "dark"
    ensures Luma(Rgb(63, 63, 63)) == 63 && BrightnessLabel(Rgb(63, 63, 63)) == "very_dark"
  {
    var c := Rgb(64, 64, 64);
    assert TrimHash("#404040") == "404040";
    assert ParsePair("40") == 64;
    assert HexToRgb("#404040") == Some(c);
    assert GetColorLabels("#404040") == Some(ColorLabels(c));
    assert Luma(c) == 64;
    assert ColorLabels(c)[1] == BrightnessLabel(c) == "dark";
  }

  /** Unparsable pairs read as 0, so "zzzzzz" is labelled as black; too
      short an identifier is refused. */
  lemma MalformedIdentifiers()
    ensures GetColorLabels("zzzzzz") == GetColorLabels("#000000")
    ensures GetColorLabels("#12") == None
    ensures GetColorLabels("") == None
  {
    assert TrimHash("zzzzzz") == "zzzzzz" && ParsePair("zz") == 0;
    assert HexToRgb("zzzzzz") == Some(Rgb(0, 0, 0));
    assert TrimHash("#000000") == "000000" && ParsePair("00") == 0;
    assert HexToRgb("#000000") == Some(Rgb(0, 0, 0));
  }

  /** A signed pair parses to a negative channel, which gets no labels here. */
  lemma SignedPairIdentifier()
    ensures HexToRgb("#-f0000") == Some(Rgb(-15, 0, 0))
    ensures GetColorLabels("#-f0000") == None
  {
  }
}
