/**
 * The colour helpers on the inputs their unit tests use, and the case
 * insensitivity of `hexToRgb` in general.
 */
module ColorExamples {
  import opened JsValues
  import JsData
  import opened ColorGrammar
  import opened HexDigits
  import opened Color

  lemma LowerPrefix(s: string, k: nat)
    requires k <= |s|
    ensures LowerAll(s[..k]) == LowerAll(s)[..k] && LowerAll(s[k..]) == LowerAll(s)[k..]
  {
  }

  /** Two digit groups that agree up to case have the same value. */
  lemma PairCase(p: string, q: string)
    requires |p| == 2 && AllHex(p) && |q| == 2 && AllHex(q) && LowerAll(p) == LowerAll(q)
    ensures ParseHex(p) == ParseHex(q)
  {
    Byte2Parse(p);
    Byte2Parse(q);
    ParseByte2(ParseHex(p));
    ParseByte2(ParseHex(q));
  }

  /** `hexToRgb` does not see the case of the digits: two hex colours that
      are equal once lower-cased give the same channels. */
  lemma HexCaseInsensitive(u: JsData.Value, w: JsData.Value)
    requires IsHexColor(u) && IsHexColor(w) && LowerAll(u.p.s) == LowerAll(w.p.s)
    ensures HexToRgb(u) == HexToRgb(w)
  {
    var s, t := u.p.s, w.p.s;
    var d, e := SixDigits(s), SixDigits(t);
    SixLower(s, t);
    SixCase(d, e);
  }

  lemma SixLower(s: string, t: string)
    requires MatchesHex(s) && MatchesHex(t) && LowerAll(s) == LowerAll(t)
    ensures LowerAll(SixDigits(s)) == LowerAll(SixDigits(t))
  {
    var d, e := SixDigits(s), SixDigits(t);
    if |s| == 4 {
      assert forall i :: 0 <= i < 6 ==> LowerAll(d)[i] == LowerHex(d[i]) == LowerHex(e[i]) == LowerAll(e)[i];
    } else {
      LowerPrefix(s, 1);
      LowerPrefix(t, 1);
    }
  }

  /** Six digits that agree up to case give the same three bytes. */
  lemma SixCase(d: string, e: string)
    requires |d| == 6 && AllHex(d) && |e| == 6 && AllHex(e) && LowerAll(d) == LowerAll(e)
    ensures ParseHex(d[..2]) == ParseHex(e[..2]) && ParseHex(d[2..4]) == ParseHex(e[2..4])
    ensures ParseHex(d[4..]) == ParseHex(e[4..])
  {
    LowerPrefix(d, 2);
    LowerPrefix(e, 2);
    LowerPrefix(d[2..], 2);
    LowerPrefix(e[2..], 2);
    assert d[2..][..2] == d[2..4] && e[2..][..2] == e[2..4];
    assert d[2..][2..] == d[4..] && e[2..][2..] == e[4..];
    PairCase(d[..2], e[..2]);
    PairCase(d[2..4], e[2..4]);
    PairCase(d[4..], e[4..]);
  }

  /** `hexToRgb('#ABCDEF')` equals `hexToRgb('#abcdef')`. */
  lemma HexCaseExample(upper: string, lower: string)
    requires upper == "#ABCDEF" && lower == "#abcdef"
    ensures HexToRgb(StrValue(upper)) == HexToRgb(StrValue(lower)) == Ok(Rgb(171, 205, 239))
  {
    assert MatchesHex(upper) && MatchesHex(lower);
    assert LowerAll(upper) == lower;
    HexCaseInsensitive(StrValue(upper), StrValue(lower));
    var d := SixDigits(lower);
    assert d == "abcdef";
    PairValue(d[..2], 10, 11);
    PairValue(d[2..4], 12, 13);
    PairValue(d[4..], 14, 15);
  }

  lemma PairValue(p: string, hi: nat, lo: nat)
    requires |p| == 2 && AllHex(p) && HexValue(p[0]) == hi && HexValue(p[1]) == lo
    ensures ParseHex(p) == hi * 16 + lo
  {
    HexPair(p);
  }

  /** `isHexColor` accepts `#fff` and `#123456`, and rejects `''`, `#12`,
      `#1234567`, `#xyz` and `123456`. */
  lemma HexExamples(a: string, b: string, c: string, d: string, e: string, f: string, g: string)
    requires a == "#fff" && b == "#123456"
    requires c == "" && d == "#12" && e == "#1234567" && f == "#xyz" && g == "123456"
    ensures IsHexColor(StrValue(a)) && IsHexColor(StrValue(b))
    ensures !IsHexColor(StrValue(c)) && !IsHexColor(StrValue(d)) && !IsHexColor(StrValue(e))
    ensures !IsHexColor(StrValue(f)) && !IsHexColor(StrValue(g))
  {
    assert MatchesHex(a) && MatchesHex(b);
    assert !IsHexDigit(f[1]);
  }

  /** `hexToRgb('#fff')` is `[255, 255, 255]`. */
  lemma ShortHexExample(s: string)
    requires s == "#fff"
    ensures HexToRgb(StrValue(s)) == Ok(Rgb(255, 255, 255))
  {
    assert MatchesHex(s);
    assert SixDigits(s) == "ffffff";
    FullByte("ffffff"[..2]);
    FullByte("ffffff"[2..4]);
    FullByte("ffffff"[4..]);
  }

  lemma FullByte(p: string)
    requires p == "ff"
    ensures ParseHex(p) == 255
  {
    HexPair(p);
  }

  /** `rgbToHex(123, 45, 67)` is `'#7b2d43'`. */
  lemma RgbToHexExample()
    ensures RgbToHex(FromNumbers(123, Some(45), Some(67))) == Ok("#7b2d43")
  {
    var arg := FromNumbers(123, Some(45), Some(67));
    assert Requested(arg) == Ok([Some(123), Some(45), Some(67)]);
    assert ByteTriple([Some(123), Some(45), Some(67)]);
    ByteDigits(123, 7, 11);
    ByteDigits(45, 2, 13);
    ByteDigits(67, 4, 3);
    assert HexChar(7) == '7' && HexChar(11) == 'b' && HexChar(2) == '2';
    assert HexChar(13) == 'd' && HexChar(4) == '4' && HexChar(3) == '3';
    assert "#" + ("7b" + "2d" + "43") == "#7b2d43";
  }

  lemma ByteDigits(x: nat, hi: nat, lo: nat)
    requires hi < 16 && lo < 16 && x == hi * 16 + lo
    ensures Byte2(x) == [HexChar(hi), HexChar(lo)]
  {
    PairDigits(hi, lo);
  }

  /** The numeral of a number of two or three digits. */
  lemma Numeral2(n: nat, a: nat, b: nat)
    requires 1 <= a < 10 && b < 10 && n == 10 * a + b
    ensures NatDigits(n) == [DigitChar(a), DigitChar(b)]
  {
    assert n / 10 == a && n % 10 == b;
  }

  lemma Numeral3(n: nat, a: nat, b: nat, c: nat)
    requires 1 <= a < 10 && b < 10 && c < 10 && n == 100 * a + 10 * b + c
    ensures NatDigits(n) == [DigitChar(a), DigitChar(b), DigitChar(c)]
  {
    assert n / 10 == 10 * a + b && n % 10 == c;
    Numeral2(n / 10, a, b);
  }

  /** `rgb(r, g, b)` from the three numerals. */
  lemma CssPlain(c: Rgb, r: string, g: string, b: string)
    requires InBytes(c) && NatDigits(c.r) == r && NatDigits(c.g) == g && NatDigits(c.b) == b
    ensures Css(c, None) == "rgb(" + r + ", " + g + ", " + b + ")"
  {
  }

  /** `colorComplementary('rgb(100, 150, 200)')` is `'rgb(155, 105, 55)'`. */
  lemma ComplementaryExample(s: string)
    requires s == "rgb(100, 150, 200)"
    ensures ColorComplementary(StrValue(s)) == Ok("rgb(155, 105, 55)")
  {
    var c, d := Rgb(100, 150, 200), Rgb(155, 105, 55);
    Numeral3(100, 1, 0, 0);
    Numeral3(150, 1, 5, 0);
    Numeral3(200, 2, 0, 0);
    Numeral3(155, 1, 5, 5);
    Numeral3(105, 1, 0, 5);
    Numeral2(55, 5, 5);
    assert DigitChar(0) == '0' && DigitChar(1) == '1' && DigitChar(2) == '2' && DigitChar(5) == '5';
    CssPlain(c, "100", "150", "200");
    CssPlain(d, "155", "105", "55");
    Spelled();
    CssReads(c, None, "array");
    ComplementOf(StrValue(s), c);
  }

  lemma Spelled()
    ensures "rgb(" + "100" + ", " + "150" + ", " + "200" + ")" == "rgb(100, 150, 200)"
    ensures "rgb(" + "155" + ", " + "105" + ", " + "55" + ")" == "rgb(155, 105, 55)"
  {
  }

  lemma ComplementOf(v: JsData.Value, c: Rgb)
    requires ColorRgb(v, "array") == Ok(RgbArray(c)) && InBytes(c)
    ensures ColorComplementary(v) == Ok(Css(Inverse(c), None))
  {
  }

  // ---------------------------------------------------------------------------
  // isRgbColor and isHslColor on the strings of their tests

  /** A string covered by a match is an rgb colour exactly when that match
      is accepted: the grammar allows no other. */
  lemma RgbOnlyMatch(m: RgbMatch, s: string)
    requires RgbShape(m) == true && RgbText(m) == s
    ensures IsRgbColor(StrValue(s)) <==> RgbAccepted(m)
  {
    ParseRgbComplete(m);
    ParseRgbUnique(s, m);
  }

  lemma HslOnlyMatch(m: HslMatch, s: string)
    requires HslShape(m) == true && HslText(m) == s
    ensures IsHslColor(StrValue(s)) <==> HslAccepted(m)
  {
    ParseHslComplete(m);
    ParseHslUnique(s, m);
  }

  /** A numeral token with no white space around it, after `lead`. */
  function Plain(lead: string, token: string): Field
  {
    Field(lead, token, "", "")
  }

  function Percent(lead: string, token: string): Field
  {
    Field(lead, token, "%", "")
  }

  lemma Spaces()
    ensures AllIn("", Space) && AllIn(" ", Space)
  {
    assert " "[1..] == "";
  }

  lemma Tokens()
    ensures AllIn("0", Digit) && AllIn("256", Digit) && AllIn("360", Digit) && AllIn("361", Digit)
    ensures AllIn("100", Digit) && AllIn("101", Digit)
  {
    assert "0"[1..] == "" && "256"[1..] == "56" && "56"[1..] == "6" && "6"[1..] == "";
    assert "360"[1..] == "60" && "60"[1..] == "0" && "361"[1..] == "61" && "61"[1..] == "1" && "1"[1..] == "";
    assert "100"[1..] == "00" && "00"[1..] == "0" && "101"[1..] == "01" && "01"[1..] == "1";
  }

  lemma TokenValues()
    ensures TokenValue("0") == 0 && TokenValue("256") == 256 && TokenValue("360") == 360
    ensures TokenValue("361") == 361 && TokenValue("100") == 100 && TokenValue("101") == 101
  {
    Tokens();
    ParseNatDigits(256);
    ParseNatDigits(360);
    ParseNatDigits(361);
    ParseNatDigits(100);
    ParseNatDigits(101);
    Numeral3(256, 2, 5, 6);
    Numeral3(360, 3, 6, 0);
    Numeral3(361, 3, 6, 1);
    Numeral3(100, 1, 0, 0);
    Numeral3(101, 1, 0, 1);
    ParseNatDigits(0);
    assert DigitChar(0) == '0' && DigitChar(1) == '1' && DigitChar(2) == '2' && DigitChar(3) == '3';
    assert DigitChar(5) == '5' && DigitChar(6) == '6';
  }

  /** `isRgbColor('rgb(256, 0, 0)')` is false: a channel above 255. */
  lemma RgbOutOfRange(s: string)
    requires s == "rgb(256, 0, 0)"
    ensures !IsRgbColor(StrValue(s))
  {
    var m := RgbMatch(false, Plain("", "256"), Plain(" ", "0"), Plain(" ", "0"), None);
    Spaces();
    Tokens();
    TokenValues();
    assert RgbShape(m);
    RgbSpelled(m);
    RgbOnlyMatch(m, s);
  }

  /** `isRgbColor('rgba(0, 0, 0)')` is false: `rgba` without an alpha. */
  lemma RgbaWithoutAlpha(s: string)
    requires s == "rgba(0, 0, 0)"
    ensures !IsRgbColor(StrValue(s))
  {
    var m := RgbMatch(true, Plain("", "0"), Plain(" ", "0"), Plain(" ", "0"), None);
    Spaces();
    Tokens();
    assert RgbShape(m);
    RgbSpelled(m);
    RgbOnlyMatch(m, s);
  }

  lemma RgbSpelled(m: RgbMatch)
    requires m == RgbMatch(false, Plain("", "256"), Plain(" ", "0"), Plain(" ", "0"), None)
          || m == RgbMatch(true, Plain("", "0"), Plain(" ", "0"), Plain(" ", "0"), None)
    ensures m.a ==> RgbText(m) == "rgba(0, 0, 0)"
    ensures !m.a ==> RgbText(m) == "rgb(256, 0, 0)"
  {
  }

  /** An alpha of `0.0000001` is written `1e-7`, one of `0.000001` is written
      out; `colorRgb` rejects the colour it writes with the first. */
  lemma TinyAlphaExample(d: string, e: string)
    requires d == "0000001" && e == "000001"
    ensures AlphaText(Fraction(d)) == "1e-7" && AlphaText(Fraction(e)) == "0.000001"
    ensures ColorRgb(StrValue(Css(Rgb(0, 0, 0), Some(Fraction(d)))), "string") == Throw(TypeError("Invalid color"))
  {
    TinyAlphaText(d, e);
    CssReads(Rgb(0, 0, 0), Some(Fraction(d)), "string");
  }

  lemma TinyAlphaText(d: string, e: string)
    requires d == "0000001" && e == "000001"
    ensures AlphaText(Fraction(d)) == "1e-7" && AlphaText(Fraction(e)) == "0.000001"
    ensures CanonicalAlpha(Fraction(d)) && WrittenWithExponent(Fraction(d))
  {
    ZerosThen(d, 6);
    ZerosThen(e, 5);
    assert d[6..] == "1" && NatDigits(7) == "7";
    assert AllDigits(d) by { assert forall i :: 0 <= i < |d| ==> IsDigit(d[i]); }
  }

  lemma ZerosThen(d: string, k: nat)
    requires k < |d| && d[k] != '0' && forall i :: 0 <= i < k ==> d[i] == '0'
    ensures LeadingZeros(d) == k
  {
    if k > 0 {
      ZerosThen(d[1..], k - 1);
    }
  }

  /** `isHslColor('hsl(360, 100%, 100%)')` holds and `isHslColor('hsl(361, 0%, 0%)')`
      does not: the hue is at most 360. */
  lemma HslHue(s: string, t: string)
    requires s == "hsl(360, 100%, 100%)" && t == "hsl(361, 0%, 0%)"
    ensures IsHslColor(StrValue(s)) && !IsHslColor(StrValue(t))
  {
    var m := HslMatch(Plain("", "360"), Percent(" ", "100"), Percent(" ", "100"));
    var n := HslMatch(Plain("", "361"), Percent(" ", "0"), Percent(" ", "0"));
    Spaces();
    Tokens();
    TokenValues();
    assert HslShape(m) && HslShape(n);
    HslSpelled(m, n);
    HslOnlyMatch(m, s);
    HslOnlyMatch(n, t);
  }

  lemma HslSpelled(m: HslMatch, n: HslMatch)
    requires m == HslMatch(Plain("", "360"), Percent(" ", "100"), Percent(" ", "100"))
    requires n == HslMatch(Plain("", "361"), Percent(" ", "0"), Percent(" ", "0"))
    ensures HslText(m) == "hsl(360, 100%, 100%)" && HslText(n) == "hsl(361, 0%, 0%)"
  {
  }

  // ---------------------------------------------------------------------------
  // isDarkColor on the colours of its tests

  /** A three-digit hex colour with one digit repeated is a grey of 17 times
      that digit. */
  lemma ShortGrey(s: string, c: char)
    requires IsHexDigit(c) && s == ['#', c, c, c]
    ensures IsHexColor(StrValue(s)) && HexToRgb(StrValue(s)) == Ok(Rgb(17 * HexValue(c), 17 * HexValue(c), 17 * HexValue(c)))
  {
    assert s == "#" + [c, c, c];
    assert HexBody([c, c, c]);
    var d := SixDigits(s);
    assert d == [c, c, c, c, c, c];
    SixSlices(d, c);
    HexPair([c, c]);
  }

  lemma SixSlices(d: string, c: char)
    requires d == [c, c, c, c, c, c]
    ensures d[..2] == [c, c] && d[2..4] == [c, c] && d[4..] == [c, c]
  {
    assert d[2..4] == [d[2], d[3]];
  }

  /** `isDarkColor` is true for `#000` and `#444`, and false for `#fff`
      and `#ccc`. */
  lemma DarkHexExamples(a: string, b: string, c: string, d: string)
    requires a == "#000" && b == "#444" && c == "#fff" && d == "#ccc"
    ensures IsDarkColor(StrValue(a)) == Ok(true) && IsDarkColor(StrValue(b)) == Ok(true)
    ensures IsDarkColor(StrValue(c)) == Ok(false) && IsDarkColor(StrValue(d)) == Ok(false)
  {
    ShortGrey(a, '0');
    ShortGrey(b, '4');
    ShortGrey(c, 'f');
    ShortGrey(d, 'c');
  }

  /** `isDarkColor` is true for `rgb(50, 50, 50)` and false for
      `rgb(200, 200, 200)`. */
  lemma DarkRgbExamples(s: string, t: string)
    requires s == "rgb(50, 50, 50)" && t == "rgb(200, 200, 200)"
    ensures IsDarkColor(StrValue(s)) == Ok(true) && IsDarkColor(StrValue(t)) == Ok(false)
  {
    Numeral2(50, 5, 0);
    Numeral3(200, 2, 0, 0);
    assert DigitChar(0) == '0' && DigitChar(2) == '2' && DigitChar(5) == '5';
    CssPlain(Rgb(50, 50, 50), "50", "50", "50");
    CssPlain(Rgb(200, 200, 200), "200", "200", "200");
    GreysSpelled();
    Greys(50, None);
    Greys(200, None);
  }

  lemma GreysSpelled()
    ensures "rgb(" + "50" + ", " + "50" + ", " + "50" + ")" == "rgb(50, 50, 50)"
    ensures "rgb(" + "200" + ", " + "200" + ", " + "200" + ")" == "rgb(200, 200, 200)"
  {
  }
}
