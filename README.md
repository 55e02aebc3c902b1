# Colour labelling engine, modelled in Dafny

This project models the colour-labelling engine of `generate_colours.go`. The
generator walks through the 24-bit colour space and turns each value into a
colour identifier `#rrggbb` (the `#%06x` format). The engine then turns an
identifier into eleven labels. It parses the identifier into an RGB triple
(`hexToRGB`) and converts the triple to HSV (`rgbToHSV`). Eleven classifiers
(`get*Label`) each pick one label by a first-match threshold chain.
`getColorLabels` lists the labels in a fixed order: hue, brightness,
saturation, temperature, pastel, shade, tone, intensity, undertone,
complexity and mood.

The modules follow the program:

- `partition.dfy` (`Partition`): a sorted list of breakpoints splits the number line into bands, each closed at its low end. `Rank` and `Band` say which band a value falls into. Lemmas prove that the band is unique, that a breakpoint belongs to the band above it, and that the band never goes down as the value goes up.
- `hex.dfy` (`HexColour`): `hexToRGB` with Go's `strconv.ParseInt(…, 16, 32)` semantics, and the `#%06x` formatting. The two are proved inverse both ways.
- `hsv.dfy` (`Hsv`): `rgbToHSV` over exact reals, with Go's switch order for ties. A textbook HSV-to-RGB inverse serves as the independent partner. The round trip through it proves that the conversion is injective.
- `classifiers.dfy` (`Classifiers`): the eleven classifiers, each written as the chain the Go code has. The seven threshold classifiers (hue, brightness, saturation, temperature, shade, intensity and complexity) are each proved equal to a breakpoint table. Pastel, tone, undertone and mood, and the facts that link classifiers, are stated by their own lemmas.
- `labels.dfy` (`ColourLabels`): `getColorLabels` and worked examples.

Integer classifiers use Go's truncating division (`GoDiv`). Dafny's own `/`
is Euclidean and differs on negative numerators, for example `-21 / 2`. The
HSV values are exact rationals: a channel `x` becomes `x/255`.

Two behaviours a reader of the function names might not expect; the model
follows the code:

- **Parsing never reports an error.** `hexToRGB` drops the errors of `ParseInt` (generate_colours.go:89-91), so an unparsable pair reads as 0 and `zzzzzz` is labelled as black. A leading sign is accepted, so `-f` reads as -15. Only an identifier with fewer than six characters after the `#` fails, and that failure is a run-time panic of the slicing.
- **Greys get the hue label `red`, not a neutral hue.** For a grey `rgbToHSV` leaves h = 0, so white and black are `red`. The final `"neutral"` of `getDetailedHueLabel` is unreachable for every real hue.

The same h = 0 makes every mid grey (V between 0.3 and 0.7) `warm` in mood.

## Model

| member | source | states |
|---|---|---|
| HexColour.ParsePair | generate_colours.go:89-91 | A two-character pair parses to a value in -15..255. Two hex digits (either case) give 16·d0 + d1. A sign followed by one hex digit gives that digit, negated for '-'. Any other pair is a syntax error and gives 0, because the error is discarded. |
| HexColour.IsHexDigit | generate_colours.go:89-91 | `ParseInt` in base 16 accepts every lowercase hex digit, and any other digit it accepts is an upper-case A..F whose lower-case form is a digit. |
| HexColour.DigitValue | generate_colours.go:89-91 | The value `ParseInt` gives a base-16 digit, either letter case, is below 16. |
| HexColour.TrimHash | generate_colours.go:88 | Exactly one leading '#' is dropped when present; otherwise the string is unchanged. |
| HexColour.HexToRgb | generate_colours.go:87-93 | A triple is produced exactly when at least six characters follow the optional '#'; shorter input is the slicing panic. Every channel lies in -15..255. |
| HexColour.ParseWellFormed | generate_colours.go:87-93 | An optional '#' and six hex digits parse to a triple whose channels are all in 0..255 and equal the three digit pairs. |
| HexColour.HexChar | generate_colours.go:52 | Each digit value below 16 is printed as the lowercase hex digit that parses back to it. |
| HexColour.HexDigits | generate_colours.go:52 | `%x` prints at least one digit, all lowercase hex. |
| HexColour.ZeroPad | generate_colours.go:52 | The `06` of `%06x`: a string of at least the width is left alone; a shorter one gets exactly enough leading '0's to reach the width, followed by the string itself. |
| HexColour.Pack | generate_colours.go:51-52 | For channels in 0..255 the packed value `0xRRGGBB` lies in 0..0xFFFFFF, the range that `%06x` prints in six digits. |
| HexColour.FormatColor | generate_colours.go:52 | `#%06x` gives '#' and at least six lowercase hex digits. |
| HexColour.FormatSixDigits | generate_colours.go:52 | A 24-bit value prints as '#' and exactly its six lowest hex digits, padded with zeros. |
| HexColour.FormatThenParse | generate_colours.go:52 | Parsing a formatted 24-bit value gives back its three bytes. |
| HexColour.FormatParseRoundTrip | generate_colours.go:87-93 | For channels in 0..255, formatting the packed value and parsing it gives back the same triple. |
| HexColour.ParseFormatRoundTrip | generate_colours.go:87-93 | A canonical `#rrggbb` (lowercase) parses to a valid triple that formats back to the same string. |
| Hsv.Unit | generate_colours.go:283 | `float64(x) / 255.0`: a channel in 0..255 lands in [0, 1]. |
| Hsv.UnitScale | generate_colours.go:283 | The normalised channel times 255 is the channel again. |
| Hsv.Max | generate_colours.go:284 | `math.Max` on non-NaN values: the result is at least both arguments and is one of them. |
| Hsv.Min | generate_colours.go:285 | `math.Min` on non-NaN values: the result is at most both arguments and is one of them. |
| Hsv.RgbToHsv | generate_colours.go:282-310 | V is the largest channel over 255 and lies in [0, 1]. The further facts are HsvRange (ranges of H and S, S = 0 exactly for a grey) and HsvRoundTrip (the independent inverse recovers the channels). |
| Hsv.HueSixth | generate_colours.go:295-305 | When mx and delta are the maximum and the spread of the three channels, the hue before the multiplication by 60 lies in [0, 6); the `+ 6` of the red case is what keeps it non-negative. |
| Hsv.HsvGrey | generate_colours.go:289-292 | When the channels are all equal, the conversion gives H = 0 and S = 0, and V is the common channel over 255. |
| Hsv.HsvValue | generate_colours.go:289-297 | V is the largest channel over 255. Away from grey, S is the spread between the largest and smallest channels over V. A grey has S = H = 0. |
| Hsv.HsvSaturation | generate_colours.go:294-297 | S lies in [0, 1] and is 0 exactly when r = g = b. |
| Hsv.HsvHue | generate_colours.go:298-309 | H lies in [0, 360). |
| Hsv.HsvRange | generate_colours.go:282-310 | All range facts together: V in [0, 1] and the largest channel, S in [0, 1] and the spread over V, H in [0, 360), and S = 0 exactly for a grey, with H = 0 there. |
| Hsv.HueSector | generate_colours.go:298-307 | The channel holding the maximum fixes the hue's sector, ties going to r, then g. Red gives H ≤ 60 or H ≥ 300; green gives 60 < H ≤ 180; blue alone gives 180 < H < 300. |
| Hsv.HueTies | generate_colours.go:298-307 | A two-way tie for the maximum puts H on the sector edge between the tied channels: 60, 180 or 300. |
| Hsv.HsvRoundTrip | generate_colours.go:282-310 | The independent HSV-to-RGB inverse recovers exactly the normalised channels from the result. |
| Hsv.RgbToHsvInjective | generate_colours.go:282-310 | Two valid triples with the same HSV are equal. |
| Classifiers.GoDiv | generate_colours.go:155 | Go's `/` by a positive divisor truncates toward zero: for a ≥ 0, q·d ≤ a < q·d + d; for a < 0, q·d − d < a ≤ q·d. |
| Classifiers.GoDivTruncates | generate_colours.go:155 | -21 / 2 is -10 in Go but -11 under Euclidean division. |
| Classifiers.GoDivMonotone | generate_colours.go:121 | Truncating division is monotone in the numerator. |
| Classifiers.HueLabel | generate_colours.go:96-117 | The hue label is one of the sector names and never the fallback "neutral". |
| Classifiers.HueTable | generate_colours.go:96-117 | The hue chain gives the same label as the breakpoint table 15/45/75/165/195/255/285/345 (red wraps around), so exactly one sector holds each hue. |
| Classifiers.HueBreakpoint | generate_colours.go:96-117 | A hue exactly on a breakpoint gets the sector above it. |
| Classifiers.HueLabelByDominant | generate_colours.go:96-117 | A red maximum gives red, orange, yellow or magenta. A green maximum (over r) gives yellow, green or cyan. A blue maximum alone gives cyan, blue, purple or magenta. |
| Classifiers.Luma | generate_colours.go:121 | For channels in 0..255 the truncated luma lies in 0..255. |
| Classifiers.BrightnessLabel | generate_colours.go:120-134 | The brightness label is one of very_dark, dark, medium, light and very_light. |
| Classifiers.BrightnessTable | generate_colours.go:120-134 | The brightness chain gives the same label as the table 64/128/192/240 on the luma. |
| Classifiers.BrightnessBreakpoint | generate_colours.go:120-134 | A luma exactly on a breakpoint gets the band above it. |
| Classifiers.BrightnessMonotone | generate_colours.go:120-134 | A larger luma never gets a lower label in the order very_dark < dark < medium < light < very_light. |
| Classifiers.LumaMonotone | generate_colours.go:121 | Raising any channel never lowers the luma. |
| Classifiers.SaturationLabel | generate_colours.go:137-151 | The saturation label is one of grayscale, muted, moderate, vibrant and vivid. |
| Classifiers.SaturationTable | generate_colours.go:137-151 | The saturation chain gives the same label as the table 0.1/0.3/0.6/0.8 on S. |
| Classifiers.GreyIsGrayscale | generate_colours.go:137-151 | A grey is always grayscale. |
| Classifiers.Temperature | generate_colours.go:155 | The temperature is (r − b)/2 truncated toward zero: 2t ≤ r − b ≤ 2t + 1 when r − b ≥ 0, and 2t − 1 ≤ r − b ≤ 2t otherwise. |
| Classifiers.TemperatureLabel | generate_colours.go:154-168 | The temperature label is one of very_cool, cool, neutral, warm and very_warm. |
| Classifiers.TemperatureTable | generate_colours.go:154-168 | The temperature chain gives the same label as the table -30/-10/10/30. |
| Classifiers.TemperatureTruncation | generate_colours.go:155 | With r − b = −21 the temperature is −10, which is neutral; floor division would give cool. |
| Classifiers.TemperatureUndertone | generate_colours.go:154-168 | A warm or very_warm temperature implies warm_undertone. A cool or very_cool one implies cool_undertone. |
| Classifiers.UndertoneFinerThanTemperature | generate_colours.go:225-232 | The converse fails: (1, 0, 0) has a neutral temperature and a warm undertone. |
| Classifiers.PastelLabel | generate_colours.go:171-177 | The pastel label is pastel or not_pastel. |
| Classifiers.PastelByChannels | generate_colours.go:171-177 | On integer channels, a colour is pastel exactly when twice the spread max − min is below max and 10·max is above 1785 (V > 0.7). |
| Classifiers.PastelShade | generate_colours.go:171-177 | A pastel has shade light or pale and saturation grayscale, muted or moderate. |
| Classifiers.ShadeLabel | generate_colours.go:180-194 | The shade label is one of shadow, deep, mid_tone, light and pale. |
| Classifiers.ShadeTable | generate_colours.go:180-194 | The shade chain gives the same label as the table 0.2/0.4/0.6/0.8 on V. |
| Classifiers.ShadeMonotone | generate_colours.go:180-194 | A larger maximum channel never gets a lower shade. |
| Classifiers.ToneLabel | generate_colours.go:197-207 | The tone label is charcoal, silver or chromatic. |
| Classifiers.ToneSaturation | generate_colours.go:197-207 | The tone is chromatic exactly when the saturation label is not grayscale. A grayscale colour is charcoal exactly when V < 0.5, and silver exactly when V ≥ 0.5. |
| Classifiers.Intensity | generate_colours.go:211 | For channels in 0..255 the truncated mean lies in 0..255, with 3i ≤ r + g + b < 3i + 3. |
| Classifiers.IntensityLabel | generate_colours.go:210-222 | The intensity label is one of subdued, moderate, bright and intense. |
| Classifiers.IntensityTable | generate_colours.go:210-222 | The intensity chain gives the same label as the table 64/128/192. |
| Classifiers.UndertoneLabel | generate_colours.go:225-232 | The undertone label is one of warm_undertone, cool_undertone and neutral_undertone. |
| Classifiers.UndertoneSymmetry | generate_colours.go:225-232 | Swapping r and b turns warm_undertone into cool_undertone and back, and keeps neutral_undertone. |
| Classifiers.Abs | generate_colours.go:236 | `math.Abs` of an integer difference is non-negative and equals the difference or its negation. |
| Classifiers.Diff | generate_colours.go:236 | \|r−g\| + \|g−b\| + \|b−r\| equals twice the largest minus the smallest channel. |
| Classifiers.ComplexityLabel | generate_colours.go:235-244 | The complexity label is pure, simple or complex. |
| Classifiers.ComplexityTable | generate_colours.go:235-244 | The complexity chain gives the same label as the table 30/90 on the diff. |
| Classifiers.ComplexityBySpread | generate_colours.go:235-244 | Pure exactly when max − min < 15, simple exactly when 15 ≤ max − min < 45, complex exactly when max − min ≥ 45. |
| Classifiers.MoodLabel | generate_colours.go:247-261 | The mood label is one of somber, airy, energetic, warm, cool and balanced. |
| Classifiers.MoodPriority | generate_colours.go:247-261 | V < 0.3 always gives somber. Warm and cool come only when no somber, airy or energetic rule holds. Balanced comes exactly when no rule holds. |
| Classifiers.GreyMood | generate_colours.go:247-261 | A grey is never energetic, cool or balanced. A grey with channel 77..178 is warm. |
| ColourLabels.ColorLabels | generate_colours.go:264-279 | A parsed colour gets exactly as many labels as there are vocabularies, eleven. |
| ColourLabels.LabelsInVocabulary | generate_colours.go:264-279 | Position i of the list holds a label of vocabulary i: hue, brightness, saturation, temperature, pastel, shade, tone, intensity, undertone, complexity, mood. |
| ColourLabels.GetColorLabels | generate_colours.go:264-279 | Labels exist exactly when the identifier parses to a triple with no negative channel, and then there are eleven. |
| ColourLabels.WellFormedLabels | generate_colours.go:264-279 | A '#' (optional) and six hex digits always get a full list, each label from its position's vocabulary. |
| ColourLabels.GeneratedLabels | generate_colours.go:52 | The identifier the generator formats for a colour gets the labels of that colour. |
| ColourLabels.BlackLabels | generate_colours.go:264-279 | #000000 gives red, very_dark, grayscale, neutral, not_pastel, shadow, charcoal, subdued, neutral_undertone, pure, somber. |
| ColourLabels.RedLabels | generate_colours.go:264-279 | #ff0000 gives red, dark, vivid, very_warm, not_pastel, pale, chromatic, moderate, warm_undertone, complex, energetic. |
| ColourLabels.WhiteLabels | generate_colours.go:291-292 | #ffffff gives red (H stays 0), very_light, grayscale, neutral, pastel, pale, silver, intense, neutral_undertone, pure, airy. |
| ColourLabels.BrightnessBoundaryExample | generate_colours.go:120-134 | #404040 has luma exactly 64 and is dark; 63 is very_dark. |
| ColourLabels.MalformedIdentifiers | generate_colours.go:87-93 | "zzzzzz" is labelled as #000000; "#12" and "" get no labels. |
| ColourLabels.SignedPairIdentifier | generate_colours.go:89 | "#-f0000" parses to red = −15 and gets no labels in this model. |

## Left out

- `main` (generate_colours.go:25-47) and `sendItemToGorse` (generate_colours.go:55-84) are not part of this model. They are an HTTP POST loop to the recommender backend with `time.Now()` timestamps: I/O only.
- The float computation `float64(0xFFFFFF) * index/(total-1)` in `generateColor` (generate_colours.go:51) is left out: it is float numerics. Only the `#%06x` formatting of its result is modelled, as `FormatColor` on any natural number. (The comment there says the walk goes from white to black; the formula goes from 0, black, to 0xFFFFFF, white.)
- Hsv.RgbToHsv: computes over exact reals, not IEEE float64. Rounding at a value exactly on a threshold (for example an S that float64 computes just below 0.1) is not reproduced.
- Hsv.RgbToHsv: is defined only for channels in 0..255, by choice of the model. Go converts every parsed triple, including those with a channel of -15..-1 from a signed pair. For those, S is +Inf when the largest channel is 0 (as for "#-f0000", where H is 180). When all three channels are equal (as for "#-f-f-f", which parses to (-15, -15, -15)), delta is 0 and S = 0, H = 0 (generate_colours.go:291-292). Otherwise S is finite but lies outside [0, 1]: above 1 when the largest channel is positive, below 0 when every channel is negative. H is always finite, and NaN never arises, because the code divides by the maximum only when delta is not 0 (generate_colours.go:291-294).
- ColourLabels.GetColorLabels: returns None for an identifier with a signed pair that parses to a negative channel, following the restriction of Hsv.RgbToHsv to byte channels. Go labels every parsed triple, so for these identifiers the model states no labels where Go gives eleven.
- HexColour.HexToRgb: slices characters, while Go slices bytes. The two agree on ASCII identifiers; non-ASCII input is not modelled byte by byte.
- HexColour.HexToRgb: returns None for the run-time panic of slicing a string shorter than six characters after the '#'. The panic itself is not modelled.
- main.go (an HTTP proxy around an external recommender client) and public/app.js (browser UI, `fetch`, `Math.random`) are not part of this model: they are network and UI code.
