/** The colour identifier: a `#rrggbb` string.  Parsing follows hexToRGB
    (generate_colours.go), which reads three two-character slices with
    strconv.ParseInt(…, 16, 32) and drops the errors; formatting follows the
    `#%06x` verb that generateColor applies to a 24-bit value. */
module HexColour {

  datatype Option<T> = None | Some(value: T)

  /** An RGB triple as the classifiers receive it: three Go ints. */
  datatype Rgb = Rgb(r: int, g: int, b: int) {
    /** Each channel is a byte. */
    predicate Valid() {
      0 <= r <= 255 && 0 <= g <= 255 && 0 <= b <= 255
    }
  }

  /** A digit strconv.ParseUint accepts in base 16 (either letter case):
      every lowercase digit, and otherwise an upper-case letter whose
      lower-case form is a digit. */
  predicate IsHexDigit(c: char)
    ensures IsLowerHexDigit(c) ==> IsHexDigit(c)
    ensures IsHexDigit(c) && !IsLowerHexDigit(c) ==> 'A' <= c <= 'F' && IsLowerHexDigit((c as int + 32) as char)
  {
    '0' <= c <= '9' || 'a' <= c <= 'f' || 'A' <= c <= 'F'
  }

  /** The value of a hex digit: 0..9, then 10..15 for a..f and A..F. */
  function DigitValue(c: char): (d: nat)
    requires IsHexDigit(c)
    ensures d < 16
  {
    if '0' <= c <= '9' then c as int - '0' as int
    else if 'a' <= c <= 'f' then c as int - 'a' as int + 10
    else c as int - 'A' as int + 10
  }

  /** strconv.ParseInt(p, 16, 32) on a two-character slice, with the error
      discarded as hexToRGB does: a leading sign is allowed, and a syntax
      error yields 0.  Two characters never overflow 32 bits. */
  function ParsePair(p: seq<char>): (v: int)
    requires |p| == 2
    ensures -15 <= v <= 255
    ensures IsHexDigit(p[0]) && IsHexDigit(p[1]) ==> v == 16 * DigitValue(p[0]) + DigitValue(p[1])
    ensures (p[0] == '+' || p[0] == '-') && IsHexDigit(p[1]) ==>
      v == (if p[0] == '-' then -1 else 1) * DigitValue(p[1])
    ensures !(IsHexDigit(p[0]) || p[0] == '+' || p[0] == '-') || !IsHexDigit(p[1]) ==> v == 0
    ensures v < 0 ==> p[0] == '-'
  {
    if p[0] == '+' || p[0] == '-' then
      if IsHexDigit(p[1]) then (if p[0] == '-' then -(DigitValue(p[1]) as int) else DigitValue(p[1]))
      else 0
    else if IsHexDigit(p[0]) && IsHexDigit(p[1]) then 16 * DigitValue(p[0]) + DigitValue(p[1])
    else 0
  }

  /** strings.TrimPrefix(color, "#"): drops one leading '#', if present. */
  function TrimHash(color: string): (s: string)
    ensures |color| > 0 && color[0] == '#' ==> s == color[1..]
    ensures !(|color| > 0 && color[0] == '#') ==> s == color
  {
    if |color| > 0 && color[0] == '#' then color[1..] else color
  }

  /** hexToRGB.  None stands for the run-time panic the slicing raises when
      fewer than six characters follow the optional '#'; characters after
      the sixth are ignored. */
  function HexToRgb(color: string): (o: Option<Rgb>)
    ensures o.Some? <==> |TrimHash(color)| >= 6
    ensures o.Some? ==> -15 <= o.value.r <= 255 && -15 <= o.value.g <= 255 && -15 <= o.value.b <= 255
  {
    var hex := TrimHash(color);
    if |hex| < 6 then None
    else Some(Rgb(ParsePair(hex[0..2]), ParsePair(hex[2..4]), ParsePair(hex[4..6])))
  }

  /** A `#` (optional) followed by exactly six hex digits. */
  predicate WellFormed(color: string) {
    var hex := TrimHash(color);
    |hex| == 6 && forall i :: 0 <= i < 6 ==> IsHexDigit(hex[i])
  }

  /** The canonical form `#%06x` produces for a 24-bit value. */
  predicate Canonical(color: string) {
    |color| == 7 && color[0] == '#' && forall i :: 1 <= i < 7 ==> IsLowerHexDigit(color[i])
  }

  predicate IsLowerHexDigit(c: char) {
    '0' <= c <= '9' || 'a' <= c <= 'f'
  }

  /** Every well-formed colour parses to a valid triple whose channels are
      the values of its digit pairs. */
  lemma ParseWellFormed(color: string)
    requires WellFormed(color)
    ensures HexToRgb(color).Some?
    ensures HexToRgb(color).value.Valid()
    ensures var hex := TrimHash(color);
      HexToRgb(color).value == Rgb(16 * DigitValue(hex[0]) + DigitValue(hex[1]),
                                   16 * DigitValue(hex[2]) + DigitValue(hex[3]),
                                   16 * DigitValue(hex[4]) + DigitValue(hex[5]))
  {
    var hex := TrimHash(color);
    assert IsHexDigit(hex[0]) && IsHexDigit(hex[1]) && IsHexDigit(hex[2]);
    assert IsHexDigit(hex[3]) && IsHexDigit(hex[4]) && IsHexDigit(hex[5]);
    assert hex[0..2] == [hex[0], hex[1]];
    assert hex[2..4] == [hex[2], hex[3]];
    assert hex[4..6] == [hex[4], hex[5]];
  }

  // ---- `#%06x` ----

  /** Lowercase hex digit of d, as fmt's %x prints it. */
  function HexChar(d: nat): (c: char)
    requires d < 16
    ensures IsLowerHexDigit(c) && DigitValue(c) == d
  {
    if d < 10 then ('0' as int + d) as char else ('a' as int + d - 10) as char
  }

  /** The hex digits of v without leading zeros (fmt's %x). */
  function HexDigits(v: nat): (s: string)
    ensures |s| >= 1
    ensures forall i :: 0 <= i < |s| ==> IsLowerHexDigit(s[i])
    decreases v
  {
    if v < 16 then [HexChar(v)] else HexDigits(v / 16) + [HexChar(v % 16)]
  }

  function Zeros(n: nat): (s: string)
    ensures |s| == n && forall i :: 0 <= i < n ==> s[i] == '0'
  {
    if n == 0 then [] else Zeros(n - 1) + ['0']
  }

  /** Left padding with zeros to a minimum width (the `06` of `%06x`). */
  function ZeroPad(s: string, width: nat): (t: string)
    ensures |t| == if |s| >= width then |s| else width
    ensures |s| >= width ==> t == s
    ensures |s| < width ==> t[width - |s|..] == s && forall i :: 0 <= i < width - |s| ==> t[i] == '0'
  {
    if |s| >= width then s else Zeros(width - |s|) + s
  }

  /** fmt.Sprintf("#%06x", v) for a non-negative v. */
  function FormatColor(v: nat): (s: string)
    ensures |s| >= 7 && s[0] == '#'
    ensures forall i :: 1 <= i < |s| ==> IsLowerHexDigit(s[i])
  {
    "#" + ZeroPad(HexDigits(v), 6)
  }

  /** The 24-bit value `0xRRGGBB` of a triple. */
  function Pack(c: Rgb): (v: int)
    ensures c.Valid() ==> 0 <= v < 0x100_0000
  {
    c.r * 65536 + c.g * 256 + c.b
  }

  function Pow16(n: nat): (p: nat)
    ensures p >= 1
  {
    if n == 0 then 1 else 16 * Pow16(n - 1)
  }

  /** The n lowest hex digits of v, most significant first. */
  function FixedDigits(v: nat, n: nat): (s: string)
    ensures |s| == n
  {
    if n == 0 then [] else FixedDigits(v / 16, n - 1) + [HexChar(v % 16)]
  }

  lemma {:induction false} FixedDigitsOfZero(n: nat)
    ensures FixedDigits(0, n) == Zeros(n)
  {
    if n > 0 {
      FixedDigitsOfZero(n - 1);
    }
  }

  /** A value below 16^n has at most n digits, and padding them to width n
      gives its n lowest digits. */
  lemma {:induction false} PaddedIsFixed(v: nat, n: nat)
    requires 1 <= n && v < Pow16(n)
    ensures |HexDigits(v)| <= n
    ensures ZeroPad(HexDigits(v), n) == FixedDigits(v, n)
  {
    var c := HexChar(v % 16);
    if v < 16 {
      FixedDigitsOfZero(n - 1);
      assert HexDigits(v) == [c];
      assert FixedDigits(v, n) == FixedDigits(0, n - 1) + [c];
    } else {
      var p := Pow16(n - 1);
      assert Pow16(0) == 1 && Pow16(n) == 16 * p;
      assert n >= 2;
      assert v / 16 < p;
      PaddedIsFixed(v / 16, n - 1);
      var d := HexDigits(v / 16);
      assert HexDigits(v) == d + [c];
      assert FixedDigits(v, n) == ZeroPad(d, n - 1) + [c];
      assert ZeroPad(d, n - 1) == Zeros(n - 1 - |d|) + d;
    }
  }

  /** FormatColor of a 24-bit value is `#` and its six lowest digits. */
  lemma FormatSixDigits(v: nat)
    requires v < 0x100_0000
    ensures FormatColor(v) == "#" + FixedDigits(v, 6)
  {
    assert Pow16(6) == 0x100_0000;
    PaddedIsFixed(v, 6);
  }

  /** The two lowest hex digits of y. */
  function PairOf(y: nat): (p: string)
    ensures |p| == 2
  {
    [HexChar(y / 16 % 16), HexChar(y % 16)]
  }

  /** Two more digits of width peel the lowest byte off. */
  lemma FixedSplit(v: nat, n: nat)
    ensures FixedDigits(v, n + 2) == FixedDigits(v / 256, n) + PairOf(v)
  {
    var q := v / 16;
    assert q / 16 == v / 256 by {
      assert v == 256 * (q / 16) + 16 * (q % 16) + v % 16;
    }
  }

  /** The pair of digits of a byte parses back to it. */
  lemma ParsePairOf(y: nat)
    requires y < 256
    ensures ParsePair(PairOf(y)) == y
  {
    assert y / 16 < 16;
    assert y / 16 % 16 == y / 16;
  }

  /** The pair of a byte written as digits a, b is those digits. */
  lemma PairOfByte(a: nat, b: nat)
    requires a < 16 && b < 16
    ensures PairOf(16 * a + b) == [HexChar(a), HexChar(b)]
  {
  }

  /** Only the lowest byte shows in a pair. */
  lemma PairOfLowByte(y: nat)
    ensures PairOf(y) == PairOf(y % 256)
  {
    var k, a := y / 256, y % 256;
    assert y == 256 * k + a;
    assert y / 16 == 16 * k + a / 16;
    assert y / 16 % 16 == a / 16 % 16;
    assert y % 16 == a % 16;
  }

  /** The six digits of a 24-bit value, as three pairs. */
  lemma SixDigitsAsPairs(v: nat)
    requires v < 0x100_0000
    ensures FixedDigits(v, 6) == PairOf(v / 65536) + PairOf(v / 256 % 256) + PairOf(v % 256)
  {
    var w := v / 256;
    FixedSplit(v, 4);
    FixedSplit(w, 2);
    FixedSplit(w / 256, 0);
    assert w / 256 == v / 65536;
    assert FixedDigits(w / 256 / 256, 0) == [];
    PairOfLowByte(w);
    PairOfLowByte(v);
  }

  /** Parsing the formatted value of a 24-bit number gives back its three
      bytes. */
  lemma FormatThenParse(v: nat)
    requires v < 0x100_0000
    ensures HexToRgb(FormatColor(v)) == Some(Rgb(v / 65536, v / 256 % 256, v % 256))
  {
    FormatSixDigits(v);
    SixDigitsAsPairs(v);
    var hi, mid, lo := PairOf(v / 65536), PairOf(v / 256 % 256), PairOf(v % 256);
    var hex := TrimHash(FormatColor(v));
    assert hex == hi + mid + lo;
    assert hex[0..2] == hi && hex[2..4] == mid && hex[4..6] == lo;
    assert v / 65536 < 256;
    ParsePairOf(v / 65536);
    ParsePairOf(v / 256 % 256);
    ParsePairOf(v % 256);
  }

  /** The bytes of a valid triple from its packed value. */
  lemma UnpackBytes(c: Rgb)
    requires c.Valid()
    ensures 0 <= Pack(c) < 0x100_0000
    ensures Pack(c) / 65536 == c.r && Pack(c) / 256 % 256 == c.g && Pack(c) % 256 == c.b
  {
    var v := Pack(c);
    assert v / 65536 == c.r;
    assert v / 256 == c.r * 256 + c.g;
    assert v % 256 == c.b;
  }

  /** Round trip from a triple: `#%06x` of its packed value parses back to it. */
  lemma FormatParseRoundTrip(c: Rgb)
    requires c.Valid()
    ensures 0 <= Pack(c) < 0x100_0000
    ensures HexToRgb(FormatColor(Pack(c))) == Some(c)
  {
    UnpackBytes(c);
    FormatThenParse(Pack(c));
  }

  /** Two lowercase digits are the pair of the byte they spell. */
  lemma PairOfDigits(x: char, y: char)
    requires IsLowerHexDigit(x) && IsLowerHexDigit(y)
    ensures PairOf(16 * DigitValue(x) + DigitValue(y)) == [x, y]
  {
    var a, b := DigitValue(x), DigitValue(y);
    assert HexChar(a) == x by { LowerDigitRoundTrip(x); }
    assert HexChar(b) == y by { LowerDigitRoundTrip(y); }
    PairOfByte(a, b);
  }

  /** Round trip from a string: a canonical colour is what `#%06x` prints
      for the value it parses to. */
  lemma ParseFormatRoundTrip(color: string)
    requires Canonical(color)
    ensures HexToRgb(color).Some? && HexToRgb(color).value.Valid()
    ensures FormatColor(Pack(HexToRgb(color).value)) == color
  {
    var hex := color[1..];
    assert TrimHash(color) == hex;
    assert WellFormed(color);
    ParseWellFormed(color);
    var c := HexToRgb(color).value;
    assert PairOf(c.r) == hex[0..2] by { PairOfDigits(hex[0], hex[1]); }
    assert PairOf(c.g) == hex[2..4] by { PairOfDigits(hex[2], hex[3]); }
    assert PairOf(c.b) == hex[4..6] by { PairOfDigits(hex[4], hex[5]); }
    assert FixedDigits(Pack(c), 6) == PairOf(c.r) + PairOf(c.g) + PairOf(c.b) by {
      UnpackBytes(c);
      SixDigitsAsPairs(Pack(c));
    }
    assert hex == hex[0..2] + hex[2..4] + hex[4..6];
    assert FormatColor(Pack(c)) == "#" + hex by { UnpackBytes(c); FormatSixDigits(Pack(c)); }
  }

  lemma LowerDigitRoundTrip(c: char)
    requires IsLowerHexDigit(c)
    ensures HexChar(DigitValue(c)) == c
  {
  }
}
