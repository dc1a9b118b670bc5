/**
 * The colour utilities: the three validators, `hexToRgb`, `rgbToHex`,
 * `colorRgb` and what is built on it (`isDarkColor`, `isLightColor`,
 * `colorComplementary`).  Inputs are JavaScript values (a validator answers
 * false for a non-string); channel values are the integers `parseInt` reads.
 */
module Color {
  import opened JsValues
  import JsData
  import Types
  import opened ColorGrammar
  import opened HexDigits

  /** Three channel values. */
  datatype Rgb = Rgb(r: int, g: int, b: int)

  predicate InBytes(c: Rgb)
  {
    0 <= c.r <= 255 && 0 <= c.g <= 255 && 0 <= c.b <= 255
  }

  function StrValue(s: string): JsData.Value
  {
    JsData.Prim(Str(s))
  }

  // ---------------------------------------------------------------------------
  // Validators

  /** `isHexColor`: a string the hex grammar matches. */
  function IsHexColor(v: JsData.Value): (r: bool)
    ensures r <==> v.Prim? && v.p.Str? && exists d :: HexBody(d) && v.p.s == "#" + d
  {
    Types.IsString(v) && MatchesHex(v.p.s)
  }

  /** `parseInt(t, 10)` on a token of digits. */
  function TokenValue(t: string): nat
    requires AllIn(t, Digit)
  {
    AllInDigits(t);
    ParseDigits(t)
  }

  /** The values of the three channel groups of an rgb match. */
  function RgbChannels(m: RgbMatch): Rgb
    requires RgbShape(m) == true
  {
    Rgb(TokenValue(m.r.token), TokenValue(m.g.token), TokenValue(m.b.token))
  }

  /** `color.indexOf('rgba') === 0`. */
  predicate StartsRgba(s: string)
  {
    |s| >= 4 && s[..4] == "rgba"
  }

  /** What `isRgbColor` asks of the match: an alpha exactly when the prefix
      is `rgba`, and channels of at most 255. */
  predicate RgbAccepted(m: RgbMatch)
    requires RgbShape(m) == true
  {
    (m.a <==> m.alpha.Some?) && InBytes(RgbChannels(m))
  }

  lemma PrefixOfMatch(m: RgbMatch)
    ensures StartsRgba(RgbText(m)) <==> m.a
  {
    var s := RgbText(m);
    Unprefix(s, |RgbPrefix(m.a)|);
    if !m.a {
      assert s[3] == '(';
      assert s[..4][3] == s[3];
    }
  }

  /** The parser's answer, read as the grammar's: some accepted match covers
      `s` exactly when the one the parser finds is accepted. */
  lemma RgbMatchIff(s: string)
    ensures (ParseRgb(s).Some? && RgbAccepted(ParseRgb(s).value))
            <==> exists m :: RgbShape(m) && RgbText(m) == s && RgbAccepted(m)
  {
    match ParseRgb(s)
    case None => ParseRgbNone(s);
    case Some(m) => ParseRgbUnique(s, m);
  }

  /** `isRgbColor`: a string the rgb grammar matches, with the alpha group
      present exactly when the prefix is `rgba`, and channels of at most 255. */
  function IsRgbColor(v: JsData.Value): (r: bool)
    ensures r <==> v.Prim? && v.p.Str? && exists m :: RgbShape(m) && RgbText(m) == v.p.s && RgbAccepted(m)
  {
    if !Types.IsString(v) then false
    else
      var s := v.p.s;
      RgbMatchIff(s);
      match ParseRgb(s)
      case None => false
      case Some(m) =>
        PrefixOfMatch(m);
        var hasAlpha := StartsRgba(s);
        if hasAlpha && m.alpha.None? then false
        else if !hasAlpha && m.alpha.Some? then false
        else
          var c := RgbChannels(m);
          c.r >= 0 && c.r <= 255 && c.g >= 0 && c.g <= 255 && c.b >= 0 && c.b <= 255
  }

  /** The values of the three groups of an hsl match. */
  function HslChannels(m: HslMatch): Rgb
    requires HslShape(m) == true
  {
    Rgb(TokenValue(m.h.token), TokenValue(m.s.token), TokenValue(m.l.token))
  }

  /** A hue of at most 360 and a saturation and lightness of at most 100. */
  predicate HslAccepted(m: HslMatch)
    requires HslShape(m) == true
  {
    var c := HslChannels(m);
    c.r <= 360 && c.g <= 100 && c.b <= 100
  }

  lemma HslMatchIff(s: string)
    ensures (ParseHsl(s).Some? && HslAccepted(ParseHsl(s).value))
            <==> exists m :: HslShape(m) && HslText(m) == s && HslAccepted(m)
  {
    match ParseHsl(s)
    case None => ParseHslNone(s);
    case Some(m) => ParseHslUnique(s, m);
  }

  /** `isHslColor`: a string the hsl grammar matches, within range. */
  function IsHslColor(v: JsData.Value): (r: bool)
    ensures r <==> v.Prim? && v.p.Str? && exists m :: HslShape(m) && HslText(m) == v.p.s && HslAccepted(m)
  {
    if !Types.IsString(v) then false
    else
      var s := v.p.s;
      HslMatchIff(s);
      match ParseHsl(s)
      case None => false
      case Some(m) =>
        var c := HslChannels(m);
        c.r >= 0 && c.r <= 360 && c.g >= 0 && c.g <= 100 && c.b >= 0 && c.b <= 100
  }

  // ---------------------------------------------------------------------------
  // hexToRgb

  /** The six digits a hex colour stands for: three digits each written
      twice, or the six as they are. */
  function SixDigits(s: string): (d: string)
    requires MatchesHex(s)
    ensures |d| == 6 && AllHex(d)
  {
    if |s| == 4 then [s[1], s[1], s[2], s[2], s[3], s[3]] else s[1..]
  }

  /** `s.replace(/([0-9a-fA-F])/gi, '$1$1')`: every hex digit doubled. */
  function DoubleHex(s: string): string
  {
    if s == [] then [] else (if IsHexDigit(s[0]) then [s[0], s[0]] else [s[0]]) + DoubleHex(s[1..])
  }

  lemma DoubleShort(s: string)
    requires MatchesHex(s)
    ensures |s| == 4 ==> DoubleHex(s)[1..] == SixDigits(s)
  {
    if |s| == 4 {
      var t := s[1..];
      assert t[1..][1..][1..] == [];
      assert DoubleHex(s) == [s[0]] + DoubleHex(t);
      assert DoubleHex(t) == [t[0], t[0]] + DoubleHex(t[1..]);
      assert DoubleHex(t[1..]) == [t[1], t[1]] + DoubleHex(t[1..][1..]);
      assert DoubleHex(t[1..][1..]) == [t[2], t[2]] + [];
    }
  }

  /** `color.slice(1)` after a four-character colour is expanded: the six
      digits it stands for. */
  function HexDigitsOf(s: string): (hex: string)
    requires MatchesHex(s)
    ensures hex == SixDigits(s)
  {
    var color := if |s| == 4 then DoubleHex(s) else s;
    DoubleShort(s);
    color[1..]
  }

  /** The three bytes of a six-digit value, as the two-digit groups read them. */
  lemma ByteGroups(d: string)
    requires |d| == 6 && AllHex(d)
    ensures var v := ParseHex(d);
      && v / 65536 % 256 == ParseHex(d[..2])
      && v / 256 % 256 == ParseHex(d[2..4])
      && v % 256 == ParseHex(d[4..])
  {
    var x, y, z := d[..2], d[2..4], d[4..];
    assert d == x + (y + z);
    ParseHexSplit(y, z);
    ParseHexSplit(x, y + z);
    assert Pow16(2) == 256 && Pow16(4) == 65536;
    GroupArith(ParseHex(x), ParseHex(y), ParseHex(z));
  }

  lemma GroupArith(a: int, b: int, c: int)
    requires 0 <= a < 256 && 0 <= b < 256 && 0 <= c < 256
    ensures var v := a * 65536 + (b * 256 + c);
      v / 65536 % 256 == a && v / 256 % 256 == b && v % 256 == c
  {
  }

  /** `hexToRgb`: throws for anything but a hex colour; otherwise the value
      of the (expanded) digits taken apart by shifts and masks, which is the
      value of each two-digit group. */
  function HexToRgb(v: JsData.Value): (r: Result<Rgb>)
    ensures r.Throw? <==> !IsHexColor(v)
    ensures r.Throw? ==> r.error == TypeError("Invalid hex color")
    ensures r.Ok? ==> var d := SixDigits(v.p.s);
      r.value == Rgb(ParseHex(d[..2]), ParseHex(d[2..4]), ParseHex(d[4..]))
    ensures r.Ok? ==> InBytes(r.value)
  {
    if !IsHexColor(v) then Throw(TypeError("Invalid hex color"))
    else
      var hex := HexDigitsOf(v.p.s);
      var value := ParseHex(hex);
      ByteGroups(hex);
      // `(value >> 16) & 255`, `(value >> 8) & 255`, `value & 255` on a
      // value below 2^24
      Ok(Rgb(value / 65536 % 256, value / 256 % 256, value % 256))
  }

  // ---------------------------------------------------------------------------
  // rgbToHex

  /** The three overloads: a string, an array, or three numbers (of which
      the last two may be left out). */
  datatype RgbArg = FromString(s: string) | FromArray(items: seq<int>) | FromNumbers(r: int, g: Option<int>, b: Option<int>)

  /** `s.match(/\d+/g)`: the maximal runs of digits, in order. */
  function DigitRuns(s: string): (runs: seq<string>)
    ensures forall i :: 0 <= i < |runs| ==> runs[i] != [] && AllDigits(runs[i])
    decreases |s|
  {
    if s == [] then []
    else if !IsDigit(s[0]) then DigitRuns(s[1..])
    else
      var n := Span(s, Digit);
      AllInDigits(s[..n]);
      [s[..n]] + DigitRuns(s[n..])
  }

  /** `rgb` after its first two statements: the values `parseInt(rgb[i], 10)`
      reads, `None` standing for NaN (an element that is not there); a string
      without digits leaves `rgb` undefined, and reading from it throws. */
  function Requested(arg: RgbArg): (rgb: Result<seq<Option<int>>>)
    ensures rgb.Throw? <==> arg.FromString? && DigitRuns(arg.s) == []
  {
    match arg
    case FromString(s) =>
      var runs := DigitRuns(s);
      if runs == [] then Throw(JsData.NilRead)
      else Ok(seq(|runs|, i requires 0 <= i < |runs| => Some(ParseDigits(runs[i]))))
    case FromArray(items) => Ok(seq(|items|, i requires 0 <= i < |items| => Some(items[i])))
    case FromNumbers(r, g, b) => Ok([Some(r), g, b])
  }

  /** `parseInt(rgb[i], 10)`. */
  function At(rgb: seq<Option<int>>, i: nat): Option<int>
  {
    if i < |rgb| then rgb[i] else None
  }

  /** Three values present and each a byte. */
  predicate ByteTriple(rgb: seq<Option<int>>)
  {
    && At(rgb, 0).Some? && 0 <= At(rgb, 0).value <= 255
    && At(rgb, 1).Some? && 0 <= At(rgb, 1).value <= 255
    && At(rgb, 2).Some? && 0 <= At(rgb, 2).value <= 255
  }

  /** The last statements of `rgbToHex`: `#` and the three bytes as two
      lower-case hex digits each (what the `padStart` formulation writes);
      `TypeError` when a value is missing or out of range. */
  function HexOfValues(rgb: seq<Option<int>>): (r: Result<string>)
    ensures !ByteTriple(rgb) ==> r == Throw(TypeError("Invalid RGB color"))
    ensures ByteTriple(rgb) ==>
      r == Ok("#" + (Byte2(At(rgb, 0).value) + Byte2(At(rgb, 1).value) + Byte2(At(rgb, 2).value)))
  {
    var r, g, b := At(rgb, 0), At(rgb, 1), At(rgb, 2);
    if r.Some? && g.Some? && b.Some?
       && r.value >= 0 && r.value <= 255 && g.value >= 0 && g.value <= 255 && b.value >= 0 && b.value <= 255
    then
      // `(1 << 24) + (r << 16) + (g << 8) + b`
      var n := Pow16(6) + r.value * 65536 + g.value * 256 + b.value;
      HexFields(n, r.value, g.value, b.value);
      Ok("#" + NatHex(n)[1..])
    else Throw(TypeError("Invalid RGB color"))
  }

  /** `rgbToHex`. */
  function RgbToHex(arg: RgbArg): (r: Result<string>)
    ensures Requested(arg).Throw? ==> r == Throw(JsData.NilRead)
    ensures Requested(arg).Ok? ==> r == HexOfValues(Requested(arg).value)
  {
    match Requested(arg)
    case Throw(e) => Throw(e)
    case Ok(rgb) => HexOfValues(rgb)
  }

  /** Writing 2^24 + the packed bytes in hex and dropping the leading digit
      gives the three bytes as two digits each. */
  lemma HexFields(n: nat, r: nat, g: nat, b: nat)
    requires r <= 255 && g <= 255 && b <= 255 && n == Pow16(6) + r * 65536 + g * 256 + b
    ensures NatHex(n)[1..] == Byte2(r) + Byte2(g) + Byte2(b)
  {
    var m1 := 1 * 256 + r;
    var m2 := m1 * 256 + g;
    assert n == m2 * 256 + b;
    assert NatHex(1) == "1";
    NatHexByte(m1, 1, r);
    NatHexByte(m2, m1, g);
    NatHexByte(n, m2, b);
    DropLead(NatHex(n), NatHex(m2), NatHex(m1), Byte2(r), Byte2(g), Byte2(b));
  }

  lemma DropLead(n: string, n2: string, n1: string, x: string, y: string, z: string)
    requires n == n2 + z && n2 == n1 + y && n1 == "1" + x
    ensures n[1..] == x + y + z
  {
    assert n == "1" + (x + y + z);
  }

  /** The array overload and the three-number overload agree. */
  lemma ArrayAsNumbers(r: int, g: int, b: int)
    ensures RgbToHex(FromArray([r, g, b])) == RgbToHex(FromNumbers(r, Some(g), Some(b)))
  {
    assert Requested(FromArray([r, g, b])).value == [Some(r), Some(g), Some(b)];
  }

  /** Exactly three bytes are written; a number left out reads as NaN. */
  lemma NumbersAccepted(c: Rgb, g: Option<int>, b: Option<int>)
    ensures RgbToHex(FromNumbers(c.r, Some(c.g), Some(c.b))).Ok? <==> InBytes(c)
    ensures g.None? || b.None? ==> RgbToHex(FromNumbers(c.r, g, b)) == Throw(TypeError("Invalid RGB color"))
  {
  }

  lemma Byte2Hex(x: nat)
    requires x < 256
    ensures AllHex(Byte2(x))
  {
  }

  /** Writing three bytes and reading them back. */
  lemma BytesRoundTrip(c: Rgb)
    requires InBytes(c)
    ensures var r := RgbToHex(FromNumbers(c.r, Some(c.g), Some(c.b)));
      r.Ok? && IsHexColor(StrValue(r.value)) && HexToRgb(StrValue(r.value)) == Ok(c)
  {
    var x, y, z := Byte2(c.r), Byte2(c.g), Byte2(c.b);
    var d := x + y + z;
    var s := "#" + d;
    assert RgbToHex(FromNumbers(c.r, Some(c.g), Some(c.b))) == Ok(s);
    Byte2Hex(c.r);
    Byte2Hex(c.g);
    Byte2Hex(c.b);
    assert HexBody(d);
    assert s[1..] == d;
    assert d[..2] == x && d[2..4] == y && d[4..] == z;
    ParseByte2(c.r);
    ParseByte2(c.g);
    ParseByte2(c.b);
  }

  lemma LowerAllThree(d: string, x: string, y: string, z: string)
    requires d == x + y + z
    ensures LowerAll(d) == LowerAll(x) + LowerAll(y) + LowerAll(z)
  {
  }

  lemma SplitSix(d: string)
    requires |d| == 6
    ensures d == d[..2] + d[2..4] + d[4..]
  {
  }

  /** Reading a hex colour and writing it again gives its six digits in
      lower case. */
  lemma HexRoundTrip(v: JsData.Value)
    requires IsHexColor(v)
    ensures var c := HexToRgb(v).value;
      RgbToHex(FromArray([c.r, c.g, c.b])) == Ok("#" + LowerAll(SixDigits(v.p.s)))
  {
    var c := HexToRgb(v).value;
    var d := SixDigits(v.p.s);
    var x, y, z := d[..2], d[2..4], d[4..];
    ArrayAsNumbers(c.r, c.g, c.b);
    Byte2Parse(x);
    Byte2Parse(y);
    Byte2Parse(z);
    SplitSix(d);
    LowerAllThree(d, x, y, z);
  }

  // ---------------------------------------------------------------------------
  // colorRgb

  /** The number `parseFloat` reads from an alpha token, exactly: 1, or the
      digits after the point with the trailing zeros dropped (none for 0). */
  datatype Alpha = One | Fraction(digits: string)

  /** The form `AlphaOf` produces: decimal digits without a trailing zero. */
  predicate CanonicalAlpha(a: Alpha)
  {
    a.Fraction? ==> AllDigits(a.digits) && (a.digits == [] || a.digits[|a.digits| - 1] != '0')
  }

  /** `d` without its trailing zeros. */
  function DropTrailingZeros(d: string): (t: string)
    ensures |t| <= |d| && t == d[..|t|]
    ensures t == [] || t[|t| - 1] != '0'
    ensures forall i :: |t| <= i < |d| ==> d[i] == '0'
  {
    if d != [] && d[|d| - 1] == '0' then DropTrailingZeros(d[..|d| - 1]) else d
  }

  /** The value of the decimal fraction `0.d`. */
  function FractionValue(d: string): real
    requires AllDigits(d)
  {
    (ParseDigits(d) as real) / (Pow10(|d|) as real)
  }

  /** The number an alpha token denotes. */
  function TokenReal(t: string): real
    requires AlphaToken(t)
  {
    if t == "1" then 1.0
    else if t == "0" then 0.0
    else if t[0] == '.' then
      AllInDigits(t[1..]);
      FractionValue(t[1..])
    else
      AllInDigits(t[2..]);
      FractionValue(t[2..])
  }

  function AlphaValue(a: Alpha): real
    requires CanonicalAlpha(a)
  {
    if a.One? then 1.0 else FractionValue(a.digits)
  }

  /** `parseFloat` on an alpha token: the canonical form of its value. */
  function AlphaOf(t: string): (a: Alpha)
    requires AlphaToken(t)
    ensures CanonicalAlpha(a) && AlphaValue(a) == TokenReal(t)
  {
    if t == "1" then One
    else if t == "0" then Fraction("")
    else if t[0] == '.' then
      AllInDigits(t[1..]);
      TrailingZerosValue(t[1..]);
      Fraction(DropTrailingZeros(t[1..]))
    else
      AllInDigits(t[2..]);
      TrailingZerosValue(t[2..]);
      Fraction(DropTrailingZeros(t[2..]))
  }

  /** Trailing zeros do not change the value of a fraction. */
  lemma {:induction false} TrailingZerosValue(d: string)
    requires AllDigits(d)
    ensures AllDigits(DropTrailingZeros(d)) && FractionValue(DropTrailingZeros(d)) == FractionValue(d)
    decreases |d|
  {
    if d != [] && d[|d| - 1] == '0' {
      var d' := d[..|d| - 1];
      TrailingZerosValue(d');
      ScaleFraction(ParseDigits(d'), Pow10(|d'|));
    }
  }

  lemma ScaleFraction(x: int, p: int)
    requires p > 0
    ensures ((x * 10) as real) / ((10 * p) as real) == (x as real) / (p as real)
  {
    assert (x * 10) as real == (x as real) * 10.0;
    assert (10 * p) as real == (p as real) * 10.0;
  }

  /** The number of zeros `d` starts with. */
  function LeadingZeros(d: string): (z: nat)
    ensures z <= |d| && forall i :: 0 <= i < z ==> d[i] == '0'
    ensures z < |d| ==> d[z] != '0'
  {
    if d != [] && d[0] == '0' then 1 + LeadingZeros(d[1..]) else 0
  }

  /** A fraction below 10^-6 that is not zero: six or more zeros after the
      point, then a digit that is not. */
  predicate WrittenWithExponent(a: Alpha)
  {
    a.Fraction? && 6 <= LeadingZeros(a.digits) < |a.digits|
  }

  /** An alpha that is absent, or that `${a}` writes without an exponent. */
  predicate PlainAlpha(alpha: Option<Alpha>)
  {
    alpha.None? || !WrittenWithExponent(alpha.value)
  }

  /** `m[0].m[1..]e-e`: the exponent form of Number::toString for a number
      with significant digits `m` below 10^-6. */
  function Exponential(m: string, e: nat): (t: string)
    requires m != []
    ensures 'e' in t
  {
    [m[0]] + (if |m| > 1 then "." + m[1..] else "") + ("e-" + NatDigits(e))
  }

  /** `${a}`: how JavaScript writes the number, with an exponent below
      10^-6 (`1e-7` for `.0000001`). */
  function AlphaText(a: Alpha): string
  {
    match a
    case One => "1"
    case Fraction(d) =>
      if d == [] then "0"
      else if WrittenWithExponent(a) then Exponential(d[LeadingZeros(d)..], LeadingZeros(d) + 1)
      else "0." + d
  }

  /** Writing a value and reading it again gives it back, unless it is
      written with an exponent, which is no alpha token. */
  lemma AlphaRoundTrip(a: Alpha)
    requires CanonicalAlpha(a)
    ensures !WrittenWithExponent(a) ==> AlphaToken(AlphaText(a)) && AlphaOf(AlphaText(a)) == a
    ensures WrittenWithExponent(a) ==> !AlphaToken(AlphaText(a))
  {
    var t := AlphaText(a);
    if WrittenWithExponent(a) {
      if AlphaToken(t) {
        AlphaTokenDecimal(t);
        NoLetterE(t, Decimal);
      }
    } else if a.Fraction? && a.digits != [] {
      assert t[..2] == "0." && t[2..] == a.digits;
      AllInDigits(a.digits);
    }
  }

  /** No character of a token class is the letter `e`. */
  lemma {:induction false} NoLetterE(s: string, k: Class)
    requires AllIn(s, k)
    ensures 'e' !in s
    decreases |s|
  {
    if s != [] {
      NoLetterE(s[1..], k);
      assert s == [s[0]] + s[1..];
    }
  }

  /** What `colorRgb` returns: three or four numbers, an object whose `a`
      may be absent, or a css string. */
  datatype ColorValue =
    | RgbArray(c: Rgb)
    | RgbaArray(c: Rgb, a: Alpha)
    | RgbObject(c: Rgb, alpha: Option<Alpha>)
    | RgbString(text: string)

  /** What follows the blue channel in a css string. */
  function CssTail(alpha: Option<Alpha>): string
  {
    if alpha.Some? then ", " + (AlphaText(alpha.value) + ")") else ")"
  }

  /** `rgb(r, g, b)`, or `rgba(r, g, b, a)`. */
  function Css(c: Rgb, alpha: Option<Alpha>): string
    requires InBytes(c)
  {
    RgbPrefix(alpha.Some?) + (NatDigits(c.r) + (", " + (NatDigits(c.g) + (", " + (NatDigits(c.b) + CssTail(alpha))))))
  }

  /** The result `type` asks for. */
  function Shaped(kind: string, c: Rgb, alpha: Option<Alpha>): ColorValue
    requires InBytes(c)
  {
    if kind == "string" then RgbString(Css(c, alpha))
    else if kind == "object" then RgbObject(c, alpha)
    else if alpha.Some? then RgbaArray(c, alpha.value)
    else RgbArray(c)
  }

  /** The alpha group of a match, read. */
  function AlphaGroup(m: RgbMatch): (a: Option<Alpha>)
    requires RgbShape(m) == true
    ensures a.Some? <==> m.alpha.Some?
    ensures a.Some? ==> CanonicalAlpha(a.value) && AlphaValue(a.value) == TokenReal(m.alpha.value.token)
  {
    if m.alpha.Some? then Some(AlphaOf(m.alpha.value.token)) else None
  }

  /** An rgb colour is read as a match the validator accepts. */
  lemma RgbColorMatch(v: JsData.Value)
    requires IsRgbColor(v)
    ensures ParseRgb(v.p.s).Some? && RgbAccepted(ParseRgb(v.p.s).value)
  {
    var m :| RgbShape(m) && RgbText(m) == v.p.s && RgbAccepted(m);
    ParseRgbComplete(m);
  }

  /** `colorRgb(color, type)`: a hex colour as its three channels whatever
      `type` asks for (it is not passed on); an rgb colour as the channels
      and alpha of its match, in the shape `type` asks for; anything else
      throws. */
  function ColorRgb(v: JsData.Value, kind: string): (r: Result<ColorValue>)
    ensures r.Throw? <==> !IsHexColor(v) && !IsRgbColor(v)
    ensures r.Throw? ==> r.error == TypeError("Invalid color")
    ensures IsHexColor(v) ==> r == Ok(RgbArray(HexToRgb(v).value))
    ensures r.Ok? && kind != "string" ==> !r.value.RgbString? && InBytes(r.value.c)
  {
    if IsHexColor(v) then Ok(RgbArray(HexToRgb(v).value))
    else if IsRgbColor(v) then
      RgbColorMatch(v);
      var m := ParseRgb(v.p.s).value;
      Ok(Shaped(kind, RgbChannels(m), AlphaGroup(m)))
    else Throw(TypeError("Invalid color"))
  }

  /** A string the rgb grammar covers is not a hex colour. */
  lemma RgbTextNotHex(m: RgbMatch)
    ensures !IsHexColor(StrValue(RgbText(m)))
  {
    var s := RgbText(m);
    Unprefix(s, |RgbPrefix(m.a)|);
    assert s[0] == 'r';
  }

  /** An accepted match reads as its channels and alpha. */
  lemma ColorRgbOfMatch(m: RgbMatch, kind: string)
    requires RgbShape(m) == true && RgbAccepted(m)
    ensures ColorRgb(StrValue(RgbText(m)), kind) == Ok(Shaped(kind, RgbChannels(m), AlphaGroup(m)))
  {
    ParseRgbComplete(m);
    RgbTextNotHex(m);
    assert IsRgbColor(StrValue(RgbText(m)));
  }

  /** The match a css string is: no white space before a comma, one space
      after it. */
  function CssMatch(c: Rgb, alpha: Option<Alpha>): RgbMatch
    requires InBytes(c)
  {
    RgbMatch(alpha.Some?, Field("", NatDigits(c.r), "", ""), Field(" ", NatDigits(c.g), "", ""),
             Field(" ", NatDigits(c.b), "", ""),
             if alpha.Some? then Some(Field(" ", AlphaText(alpha.value), "", "")) else None)
  }

  /** A numeral below 1000 has at most three digits. */
  lemma {:induction false} ShortNumeral(n: nat, k: nat)
    requires k >= 1 && n < Pow10(k)
    ensures |NatDigits(n)| <= k
    decreases n
  {
    if n >= 10 {
      ShortNumeral(n / 10, k - 1);
    }
  }

  lemma SpaceLead(lead: string)
    requires lead == "" || lead == " "
    ensures AllIn(lead, Space)
  {
    if lead == " " {
      assert lead[0] == ' ' && lead[1..] == [];
    }
  }

  /** The numeral of a byte, after "" or " ", is a channel field. */
  lemma NumeralField(lead: string, n: nat)
    requires (lead == "" || lead == " ") && n <= 255
    ensures ChannelField(Field(lead, NatDigits(n), "", ""), false) == true
    ensures TokenValue(NatDigits(n)) == n
  {
    ShortNumeral(n, 3);
    AllInDigits(NatDigits(n));
    SpaceLead(lead);
    SpaceLead("");
    ParseNatDigits(n);
  }

  /** The text of an alpha, after a space, is an alpha field. */
  lemma AlphaTextField(a: Alpha)
    requires CanonicalAlpha(a) && !WrittenWithExponent(a)
    ensures AlphaField(Field(" ", AlphaText(a), "", "")) == true && AlphaOf(AlphaText(a)) == a
  {
    AlphaRoundTrip(a);
    AlphaTokenDecimal(AlphaText(a));
    SpaceLead(" ");
    SpaceLead("");
  }

  lemma PlainThen(lead: string, token: string, rest: string)
    ensures FieldThen(Field(lead, token, "", ""), rest) == lead + (token + rest)
  {
    assert "" + ("" + rest) == rest;
  }

  lemma CommaSpace(x: string)
    ensures [','] + (" " + x) == ", " + x
  {
  }

  lemma EmptyLead(x: string)
    ensures "" + x == x
  {
  }

  lemma CssMatchShape(c: Rgb, alpha: Option<Alpha>)
    requires InBytes(c) && (alpha.Some? ==> CanonicalAlpha(alpha.value)) && PlainAlpha(alpha)
    ensures RgbShape(CssMatch(c, alpha)) == true
    ensures RgbChannels(CssMatch(c, alpha)) == c && AlphaGroup(CssMatch(c, alpha)) == alpha
    ensures RgbAccepted(CssMatch(c, alpha))
  {
    NumeralField("", c.r);
    NumeralField(" ", c.g);
    NumeralField(" ", c.b);
    if alpha.Some? {
      AlphaTextField(alpha.value);
    }
  }

  lemma CssMatchText(c: Rgb, alpha: Option<Alpha>)
    requires InBytes(c)
    ensures RgbText(CssMatch(c, alpha)) == Css(c, alpha)
  {
    var m := CssMatch(c, alpha);
    var tail := AlphaTail(m.alpha);
    if alpha.Some? {
      PlainThen(" ", AlphaText(alpha.value), ")");
      CommaSpace(AlphaText(alpha.value) + ")");
    }
    assert tail == CssTail(alpha);
    var nb := NatDigits(c.b) + tail;
    PlainThen(" ", NatDigits(c.b), tail);
    CommaSpace(nb);
    var ng := NatDigits(c.g) + (", " + nb);
    PlainThen(" ", NatDigits(c.g), ", " + nb);
    CommaSpace(ng);
    PlainThen("", NatDigits(c.r), ", " + ng);
    EmptyLead(NatDigits(c.r) + (", " + ng));
  }

  /** A css string reads back as the channels and the alpha it was written
      from, in every shape; one whose alpha is written with an exponent is
      no colour at all. */
  lemma CssReads(c: Rgb, alpha: Option<Alpha>, kind: string)
    requires InBytes(c) && (alpha.Some? ==> CanonicalAlpha(alpha.value))
    ensures PlainAlpha(alpha) ==> ColorRgb(StrValue(Css(c, alpha)), kind) == Ok(Shaped(kind, c, alpha))
    ensures !PlainAlpha(alpha) ==> ColorRgb(StrValue(Css(c, alpha)), kind) == Throw(TypeError("Invalid color"))
  {
    if PlainAlpha(alpha) {
      CssMatchShape(c, alpha);
      CssMatchText(c, alpha);
      ColorRgbOfMatch(CssMatch(c, alpha), kind);
    } else {
      ExponentUnread(c, alpha);
    }
  }

  /** A field of any token class, before text without an `e`, has none. */
  lemma FieldNoE(f: Field, k: Class, percent: bool, rest: string)
    requires Spaced(f, k, percent) && 'e' !in rest
    ensures 'e' !in FieldThen(f, rest)
  {
    NoLetterE(f.lead, Space);
    NoLetterE(f.token, k);
    NoLetterE(f.trail, Space);
  }

  /** No string the rgb grammar matches contains the letter `e`. */
  lemma RgbTextNoE(m: RgbMatch)
    requires RgbShape(m) == true
    ensures 'e' !in RgbText(m)
  {
    var tail := AlphaTail(m.alpha);
    if m.alpha.Some? {
      FieldNoE(m.alpha.value, Decimal, false, ")");
    }
    assert 'e' !in tail;
    var nb := FieldThen(m.b, tail);
    FieldNoE(m.b, Digit, false, tail);
    var ng := FieldThen(m.g, [','] + nb);
    FieldNoE(m.g, Digit, false, [','] + nb);
    FieldNoE(m.r, Digit, false, [','] + ng);
    assert 'e' !in RgbPrefix(m.a);
  }

  /** `${a}` writes an alpha below 10^-6 with an exponent, whose `e` no
      match of the rgb grammar has: such a css string is neither a hex nor
      an rgb colour. */
  lemma ExponentUnread(c: Rgb, alpha: Option<Alpha>)
    requires InBytes(c) && !PlainAlpha(alpha)
    ensures !IsHexColor(StrValue(Css(c, alpha))) && !IsRgbColor(StrValue(Css(c, alpha)))
  {
    var s := Css(c, alpha);
    assert 'e' in CssTail(alpha);
    assert 'e' in s;
    forall m | RgbShape(m) == true
      ensures RgbText(m) != s
    {
      RgbTextNoE(m);
    }
    assert s[0] == 'r';
  }

  /** The alpha an rgb colour is read with. */
  function RgbAlpha(v: JsData.Value): Option<Alpha>
    requires IsRgbColor(v)
  {
    RgbColorMatch(v);
    AlphaGroup(ParseRgb(v.p.s).value)
  }

  /** Asking for the css string and reading that string again agrees with
      reading the input, whatever the second `type`; when the alpha is
      written with an exponent, reading the string again throws. */
  lemma StringNormalises(v: JsData.Value, kind: string)
    requires IsRgbColor(v)
    ensures ColorRgb(v, "string").Ok? && ColorRgb(v, "string").value.RgbString?
    ensures PlainAlpha(RgbAlpha(v)) ==>
              ColorRgb(StrValue(ColorRgb(v, "string").value.text), kind) == ColorRgb(v, kind)
    ensures !PlainAlpha(RgbAlpha(v)) ==>
              ColorRgb(StrValue(ColorRgb(v, "string").value.text), kind) == Throw(TypeError("Invalid color"))
  {
    RgbColorMatch(v);
    var m := ParseRgb(v.p.s).value;
    CssReads(RgbChannels(m), AlphaGroup(m), kind);
  }

  // ---------------------------------------------------------------------------
  // rgbToHex on a css string

  predicate NoDigit(p: string)
  {
    forall i :: 0 <= i < |p| ==> !IsDigit(p[i])
  }

  lemma {:induction false} SkipRuns(p: string, rest: string)
    requires NoDigit(p)
    ensures DigitRuns(p + rest) == DigitRuns(rest)
    decreases |p|
  {
    if p != [] {
      assert (p + rest)[0] == p[0] && (p + rest)[1..] == p[1..] + rest;
      SkipRuns(p[1..], rest);
    } else {
      assert p + rest == rest;
    }
  }

  lemma RunThen(d: string, rest: string)
    requires d != [] && AllDigits(d) && (rest == [] || !IsDigit(rest[0]))
    ensures DigitRuns(d + rest) == [d] + DigitRuns(rest)
  {
    AllInDigits(d);
    SpanOf(d, rest, Digit);
    assert (d + rest)[..|d|] == d && (d + rest)[|d|..] == rest;
  }

  /** The separator and a numeral: one run. */
  lemma RunAfterComma(d: string, rest: string)
    requires d != [] && AllDigits(d) && (rest == [] || !IsDigit(rest[0]))
    ensures DigitRuns(", " + (d + rest)) == [d] + DigitRuns(rest)
  {
    SkipRuns(", ", d + rest);
    RunThen(d, rest);
  }

  lemma PrefixNoDigit(a: bool)
    ensures NoDigit(RgbPrefix(a))
  {
  }

  lemma TailStart(alpha: Option<Alpha>)
    ensures CssTail(alpha) != [] && !IsDigit(CssTail(alpha)[0])
  {
  }

  /** The runs of digits in a css string are its channels, then those of
      the alpha. */
  lemma CssRuns(c: Rgb, alpha: Option<Alpha>)
    requires InBytes(c)
    ensures DigitRuns(Css(c, alpha)) == [NatDigits(c.r), NatDigits(c.g), NatDigits(c.b)] + DigitRuns(CssTail(alpha))
  {
    var tail := CssTail(alpha);
    var nb := NatDigits(c.b) + tail;
    var ng := NatDigits(c.g) + (", " + nb);
    var nr := NatDigits(c.r) + (", " + ng);
    TailStart(alpha);
    RunAfterComma(NatDigits(c.b), tail);
    RunAfterComma(NatDigits(c.g), ", " + nb);
    RunThen(NatDigits(c.r), ", " + ng);
    PrefixNoDigit(alpha.Some?);
    SkipRuns(RgbPrefix(alpha.Some?), nr);
  }

  /** Only the first three values matter. */
  lemma FirstThree(x: seq<Option<int>>, y: seq<Option<int>>)
    requires At(x, 0) == At(y, 0) && At(x, 1) == At(y, 1) && At(x, 2) == At(y, 2)
    ensures HexOfValues(x) == HexOfValues(y)
  {
  }

  /** The string overload reads a css string as its three channels. */
  lemma CssAsNumbers(c: Rgb, alpha: Option<Alpha>)
    requires InBytes(c)
    ensures RgbToHex(FromString(Css(c, alpha))) == RgbToHex(FromNumbers(c.r, Some(c.g), Some(c.b)))
  {
    var runs := DigitRuns(Css(c, alpha));
    CssRuns(c, alpha);
    assert runs[0] == NatDigits(c.r) && runs[1] == NatDigits(c.g) && runs[2] == NatDigits(c.b);
    ParseNatDigits(c.r);
    ParseNatDigits(c.g);
    ParseNatDigits(c.b);
    var x := Requested(FromString(Css(c, alpha))).value;
    assert At(x, 0) == Some(c.r) && At(x, 1) == Some(c.g) && At(x, 2) == Some(c.b);
    FirstThree(x, [Some(c.r), Some(c.g), Some(c.b)]);
  }

  // ---------------------------------------------------------------------------
  // isDarkColor, isLightColor, colorComplementary

  /** The YIQ brightness `(r * 299 + g * 587 + b * 114) / 1000`. */
  function Yiq(c: Rgb): real
  {
    ((c.r * 299 + c.g * 587 + c.b * 114) as real) / 1000.0
  }

  /** `isDarkColor`: a brightness below 128, that is a weighted sum below
      128000. */
  function IsDarkColor(v: JsData.Value): (r: Result<bool>)
    ensures r.Throw? <==> !IsHexColor(v) && !IsRgbColor(v)
    ensures r.Throw? ==> r.error == TypeError("Invalid color")
    ensures r.Ok? ==> var c := ColorRgb(v, "array").value.c;
      r.value <==> c.r * 299 + c.g * 587 + c.b * 114 < 128000
  {
    match ColorRgb(v, "array")
    case Throw(e) => Throw(e)
    case Ok(cv) => Ok(Yiq(cv.c) < 128.0)
  }

  /** `isLightColor`: not dark. */
  function IsLightColor(v: JsData.Value): (r: Result<bool>)
    ensures r.Throw? <==> !IsHexColor(v) && !IsRgbColor(v)
    ensures r.Ok? ==> var c := ColorRgb(v, "array").value.c;
      r.value <==> c.r * 299 + c.g * 587 + c.b * 114 >= 128000
  {
    match IsDarkColor(v)
    case Throw(e) => Throw(e)
    case Ok(dark) => Ok(!dark)
  }

  /** A grey is dark exactly below 128; written with an alpha below 10^-6
      it is no colour. */
  lemma Greys(x: int, alpha: Option<Alpha>)
    requires 0 <= x <= 255 && (alpha.Some? ==> CanonicalAlpha(alpha.value))
    ensures PlainAlpha(alpha) ==> IsDarkColor(StrValue(Css(Rgb(x, x, x), alpha))) == Ok(x < 128)
    ensures PlainAlpha(alpha) ==> IsLightColor(StrValue(Css(Rgb(x, x, x), alpha))) == Ok(x >= 128)
    ensures !PlainAlpha(alpha) ==> IsDarkColor(StrValue(Css(Rgb(x, x, x), alpha))).Throw?
  {
    CssReads(Rgb(x, x, x), alpha, "array");
  }

  /** Lowering channels keeps a dark colour dark. */
  lemma DarkerStaysDark(c: Rgb, d: Rgb)
    requires InBytes(c) && InBytes(d) && d.r <= c.r && d.g <= c.g && d.b <= c.b
    requires IsDarkColor(StrValue(Css(c, None))) == Ok(true)
    ensures IsDarkColor(StrValue(Css(d, None))) == Ok(true)
  {
    CssReads(c, None, "array");
    CssReads(d, None, "array");
  }

  /** `255 - v` on each channel. */
  function Inverse(c: Rgb): (d: Rgb)
    ensures InBytes(c) ==> InBytes(d)
    ensures c.r + d.r == 255 && c.g + d.g == 255 && c.b + d.b == 255
  {
    Rgb(255 - c.r, 255 - c.g, 255 - c.b)
  }

  /** `colorComplementary`: the css string of the inverted channels, which
      reads back as those channels; the alpha is dropped. */
  function ColorComplementary(v: JsData.Value): (r: Result<string>)
    ensures r.Throw? <==> !IsHexColor(v) && !IsRgbColor(v)
    ensures r.Throw? ==> r.error == TypeError("Invalid color")
    ensures r.Ok? ==> IsRgbColor(StrValue(r.value))
    ensures r.Ok? ==> ColorRgb(StrValue(r.value), "array") == Ok(RgbArray(Inverse(ColorRgb(v, "array").value.c)))
  {
    match ColorRgb(v, "array")
    case Throw(e) => Throw(e)
    case Ok(cv) =>
      var d := Inverse(cv.c);
      CssReads(d, None, "array");
      Ok(Css(d, None))
  }

  /** The complement of the complement is the colour itself, written as
      `rgb(r, g, b)`. */
  lemma ComplementaryTwice(v: JsData.Value)
    requires IsHexColor(v) || IsRgbColor(v)
    ensures var once := ColorComplementary(v).value;
      ColorComplementary(StrValue(once)) == Ok(Css(ColorRgb(v, "array").value.c, None))
  {
    var c := ColorRgb(v, "array").value.c;
    assert Inverse(Inverse(c)) == c;
  }
}
