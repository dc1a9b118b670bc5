/**
 * The three colour grammars of `_utils.ts`, as languages and as parsers.
 *
 * A grammar is given by what its matches look like: a match datatype holds
 * every piece of the input (white space included) and a rendering function
 * writes the string it matches.  The parser reads a string back into a match.
 * It is sound (whatever it returns renders to its input) and complete (it
 * reads every well-formed match back), so it accepts exactly the strings the
 * regular expression accepts, with the same capture groups.
 */
module ColorGrammar {
  import opened JsValues

  // ---------------------------------------------------------------------------
  // Splitting a string at a position

  lemma Uncons(s: string)
    requires s != []
    ensures s == [s[0]] + s[1..]
  {
  }

  lemma Unprefix(s: string, n: nat)
    requires n <= |s|
    ensures s == s[..n] + s[n..]
  {
  }

  lemma ConsTail(c: char, s: string)
    ensures ([c] + s)[1..] == s && ([c] + s)[0] == c
  {
  }

  // ---------------------------------------------------------------------------
  // Hex: /^#([0-9a-fA-F]{3}|[0-9a-fA-F]{6})$/

  predicate IsHexDigit(c: char)
  {
    ('0' <= c <= '9') || ('a' <= c <= 'f') || ('A' <= c <= 'F')
  }

  predicate AllHex(s: string)
  {
    forall i :: 0 <= i < |s| ==> IsHexDigit(s[i])
  }

  /** The digits a hex colour may carry: three or six hex digits. */
  predicate HexBody(d: string)
  {
    (|d| == 3 || |d| == 6) && AllHex(d)
  }

  /** `HEX_COLOR_REGEX.test(s)`, read position by position. */
  function MatchesHex(s: string): (r: bool)
    ensures r <==> exists d :: HexBody(d) && s == "#" + d
    ensures r ==> |s| == 4 || |s| == 7
  {
    var r := (|s| == 4 || |s| == 7) && s[0] == '#' && AllHex(s[1..]);
    if r then
      assert s == "#" + s[1..];
      r
    else
      assert forall d :: HexBody(d) ==> s != "#" + d;
      r
  }

  // ---------------------------------------------------------------------------
  // Fields: white space, a token, an optional '%', white space

  /** The characters a token is made of: `\s`, `\d`, or the digits and point
      of an alpha. */
  datatype Class = Space | Digit | Decimal

  predicate InClass(c: char, k: Class)
  {
    match k
    case Space => IsWhitespace(c)
    case Digit => IsDigit(c)
    case Decimal => IsDigit(c) || c == '.'
  }

  /** Every character of `s` is in class `k`; stated by recursion, so that
      the verifier unfolds it only where a proof looks inside. */
  predicate AllIn(s: string, k: Class)
  {
    s == [] || (InClass(s[0], k) && AllIn(s[1..], k))
  }

  lemma {:induction false} AllInAt(s: string, k: Class, i: nat)
    requires AllIn(s, k) && i < |s|
    ensures InClass(s[i], k)
    decreases i
  {
    if i > 0 {
      AllInAt(s[1..], k, i - 1);
    }
  }

  lemma {:induction false} AllInDigits(s: string)
    ensures AllIn(s, Digit) <==> AllDigits(s)
  {
    if s != [] {
      AllInDigits(s[1..]);
      if AllIn(s, Digit) {
        forall i | 0 <= i < |s|
          ensures IsDigit(s[i])
        {
          AllInAt(s, Digit, i);
        }
      } else if !IsDigit(s[0]) {
      } else {
        assert !AllDigits(s[1..]);
        var i :| 0 <= i < |s[1..]| && !IsDigit(s[1..][i]);
        assert s[i + 1] == s[1..][i];
      }
    }
  }

  lemma {:induction false} DigitsAreDecimal(s: string)
    requires AllIn(s, Digit)
    ensures AllIn(s, Decimal)
  {
    if s != [] {
      DigitsAreDecimal(s[1..]);
    }
  }

  /** The length of the longest prefix of `s` in class `k`. */
  function Span(s: string, k: Class): (n: nat)
    ensures n <= |s| && AllIn(s[..n], k)
    ensures n < |s| ==> !InClass(s[n], k)
  {
    if s != [] && InClass(s[0], k) then
      var n := 1 + Span(s[1..], k);
      assert s[..n][1..] == s[1..][..n - 1];
      n
    else 0
  }

  /** A prefix in class `k` followed by a character outside it is the span. */
  lemma {:induction false} SpanOf(x: string, y: string, k: Class)
    requires AllIn(x, k) && (y == [] || !InClass(y[0], k))
    ensures Span(x + y, k) == |x|
    decreases |x|
  {
    if x == [] {
      assert x + y == y;
    } else {
      assert (x + y)[0] == x[0] && (x + y)[1..] == x[1..] + y;
      SpanOf(x[1..], y, k);
    }
  }

  /** Splits off the longest prefix in class `k`. */
  function SplitSpan(s: string, k: Class): (p: (string, string))
    ensures p.0 + p.1 == s && AllIn(p.0, k)
    ensures p.1 == [] || !InClass(p.1[0], k)
  {
    var n := Span(s, k);
    assert s[..n] + s[n..] == s;
    (s[..n], s[n..])
  }

  lemma SplitSpanOf(x: string, y: string, k: Class)
    requires AllIn(x, k) && (y == [] || !InClass(y[0], k))
    ensures SplitSpan(x + y, k) == (x, y)
  {
    SpanOf(x, y, k);
    assert (x + y)[..|x|] == x && (x + y)[|x|..] == y;
  }

  /** `\s* token unit \s*`, where `unit` is "" or "%". */
  datatype Field = Field(lead: string, token: string, unit: string, trail: string)

  /** A field followed by the rest of the input. */
  function FieldThen(f: Field, rest: string): string
  {
    f.lead + (f.token + (f.unit + (f.trail + rest)))
  }

  /** A field the grammar allows around a token of class `k`. */
  predicate Spaced(f: Field, k: Class, percent: bool)
  {
    && AllIn(f.lead, Space) && AllIn(f.token, k) && f.token != []
    && f.unit == (if percent then "%" else "") && AllIn(f.trail, Space)
  }

  /** Splits off a '%' when one is wanted and present. */
  function SplitUnit(s: string, percent: bool): (p: (string, string))
    ensures p.0 + p.1 == s
    ensures p.0 == "" || (percent && p.0 == "%")
  {
    if percent && s != [] && s[0] == '%' then
      assert s == "%" + s[1..];
      ("%", s[1..])
    else
      assert "" + s == s;
      ("", s)
  }

  /** Reads white space, the longest token of class `k`, a '%' when one is
      wanted and present, and white space. */
  function ReadField(s: string, k: Class, percent: bool): (fr: (Field, string))
    ensures FieldThen(fr.0, fr.1) == s
    ensures AllIn(fr.0.lead, Space) && AllIn(fr.0.token, k) && AllIn(fr.0.trail, Space)
    ensures fr.0.unit == "" || (percent && fr.0.unit == "%")
    ensures fr.1 == [] || !IsWhitespace(fr.1[0])
  {
    var (lead, t) := SplitSpan(s, Space);
    var (token, u) := SplitSpan(t, k);
    var (unit, v) := SplitUnit(u, percent);
    var (trail, rest) := SplitSpan(v, Space);
    (Field(lead, token, unit, trail), rest)
  }

  lemma ClassesApart(c: char, k: Class)
    requires k != Space && InClass(c, k)
    ensures !IsWhitespace(c) && c != '%'
  {
  }

  lemma SplitUnitOf(f: Field, percent: bool, rest: string)
    requires f.unit == (if percent then "%" else "") && AllIn(f.trail, Space)
    requires rest == [] || (!IsWhitespace(rest[0]) && (percent || rest[0] != '%'))
    ensures SplitUnit(f.unit + (f.trail + rest), percent) == (f.unit, f.trail + rest)
  {
    if !percent {
      assert f.unit + (f.trail + rest) == f.trail + rest;
      if f.trail != [] {
        assert (f.trail + rest)[0] == f.trail[0];
      }
    } else {
      assert ("%" + (f.trail + rest))[1..] == f.trail + rest;
    }
  }

  /** A field written out is read back, up to a character that neither white
      space nor the token could continue with. */
  lemma ReadFieldText(f: Field, k: Class, percent: bool, rest: string)
    requires k != Space && Spaced(f, k, percent)
    requires rest == [] || (!IsWhitespace(rest[0]) && !InClass(rest[0], k) && (percent || rest[0] != '%'))
    ensures ReadField(FieldThen(f, rest), k, percent) == (f, rest)
  {
    var v := f.trail + rest;
    var u := f.unit + v;
    var t := f.token + u;
    ClassesApart(f.token[0], k);
    assert t[0] == f.token[0];
    SplitSpanOf(f.lead, t, Space);
    if u != [] {
      if f.unit != [] {
        assert u[0] == '%';
      } else if f.trail != [] {
        assert u[0] == f.trail[0];
      } else {
        assert u[0] == rest[0];
      }
    }
    SplitSpanOf(f.token, u, k);
    SplitUnitOf(f, percent, rest);
    SplitSpanOf(f.trail, rest, Space);
  }

  /** 1 to 3 decimal digits. */
  predicate ChannelToken(t: string)
  {
    1 <= |t| <= 3 && AllIn(t, Digit)
  }

  /** `[0]?\.\d+|0|1`. */
  predicate AlphaToken(t: string)
  {
    || t == "0" || t == "1"
    || (|t| >= 2 && t[0] == '.' && AllIn(t[1..], Digit))
    || (|t| >= 3 && t[..2] == "0." && AllIn(t[2..], Digit))
  }

  /** `\s*(\d{1,3})\s*`, or `\s*(\d{1,3})%\s*` when `percent`. */
  predicate ChannelField(f: Field, percent: bool)
  {
    Spaced(f, Digit, percent) && ChannelToken(f.token)
  }

  /** `\s*([0]?\.\d+|0|1)\s*`. */
  predicate AlphaField(f: Field)
  {
    Spaced(f, Decimal, false) && AlphaToken(f.token)
  }

  lemma AlphaTokenDecimal(t: string)
    requires AlphaToken(t)
    ensures AllIn(t, Decimal) && t != []
  {
    if |t| >= 2 && t[0] == '.' && AllIn(t[1..], Digit) {
      DigitsAreDecimal(t[1..]);
    } else if |t| >= 3 && t[..2] == "0." && AllIn(t[2..], Digit) {
      DigitsAreDecimal(t[2..]);
      assert t[0] == t[..2][0] && t[1] == t[..2][1];
      assert t[1..][1..] == t[2..];
    }
  }

  /** Reads a channel field; the token must have 1 to 3 digits. */
  function ReadChannel(s: string, percent: bool): (r: Option<(Field, string)>)
    ensures r.Some? ==> ChannelField(r.value.0, percent) == true && FieldThen(r.value.0, r.value.1) == s
  {
    var (f, rest) := ReadField(s, Digit, percent);
    if ChannelToken(f.token) && f.unit == (if percent then "%" else "") then Some((f, rest)) else None
  }

  lemma ReadChannelText(f: Field, percent: bool, rest: string)
    requires ChannelField(f, percent) == true && rest != [] && (rest[0] == ',' || rest[0] == ')')
    ensures ReadChannel(FieldThen(f, rest), percent) == Some((f, rest))
  {
    ReadFieldText(f, Digit, percent, rest);
  }

  /** Reads a field and then the separator `c`. */
  function ReadChannelThen(s: string, percent: bool, c: char): (r: Option<(Field, string)>)
    ensures r.Some? ==> ChannelField(r.value.0, percent) == true && FieldThen(r.value.0, [c] + r.value.1) == s
  {
    match ReadChannel(s, percent)
    case None => None
    case Some((f, rest)) =>
      if rest != [] && rest[0] == c then
        Uncons(rest);
        Some((f, rest[1..]))
      else None
  }

  lemma ReadChannelThenText(f: Field, percent: bool, c: char, rest: string)
    requires ChannelField(f, percent) == true && (c == ',' || c == ')')
    ensures ReadChannelThen(FieldThen(f, [c] + rest), percent, c) == Some((f, rest))
  {
    ConsTail(c, rest);
    ReadChannelText(f, percent, [c] + rest);
  }

  // ---------------------------------------------------------------------------
  // Rgb: /^rgba?\(\s*(\d{1,3})\s*,\s*(\d{1,3})\s*,\s*(\d{1,3})\s*(?:,\s*([0]?\.\d+|0|1)\s*)?\)$/

  /** A match: whether the prefix has its `a`, the three channels and the
      optional alpha. */
  datatype RgbMatch = RgbMatch(a: bool, r: Field, g: Field, b: Field, alpha: Option<Field>)

  predicate RgbShape(m: RgbMatch)
  {
    && ChannelField(m.r, false) && ChannelField(m.g, false) && ChannelField(m.b, false)
    && (m.alpha.Some? ==> AlphaField(m.alpha.value))
  }

  function RgbPrefix(a: bool): string
  {
    if a then "rgba(" else "rgb("
  }

  /** What follows the third channel: `)`, or `,` alpha `)`. */
  function AlphaTail(alpha: Option<Field>): string
  {
    if alpha.Some? then [','] + FieldThen(alpha.value, ")") else ")"
  }

  /** The three channels and the tail. */
  function ChannelsText(r: Field, g: Field, b: Field, alpha: Option<Field>): string
  {
    FieldThen(r, [','] + FieldThen(g, [','] + FieldThen(b, AlphaTail(alpha))))
  }

  /** The string a match covers. */
  function RgbText(m: RgbMatch): string
  {
    RgbPrefix(m.a) + ChannelsText(m.r, m.g, m.b, m.alpha)
  }

  /** Reads what follows the third channel. */
  function ReadAlphaTail(s: string): (r: Option<Option<Field>>)
    ensures r.Some? ==> (r.value.Some? ==> AlphaField(r.value.value) == true) && AlphaTail(r.value) == s
  {
    if s == [] then None
    else if s[0] == ')' then
      if |s| == 1 then
        Uncons(s);
        Some(None)
      else None
    else if s[0] == ',' then
      var fr := ReadField(s[1..], Decimal, false);
      if AlphaToken(fr.0.token) && fr.1 == ")" then
        AlphaTokenDecimal(fr.0.token);
        Uncons(s);
        Some(Some(fr.0))
      else None
    else None
  }

  lemma ReadAlphaTailText(alpha: Option<Field>)
    requires alpha.Some? ==> AlphaField(alpha.value) == true
    ensures ReadAlphaTail(AlphaTail(alpha)) == Some(alpha)
  {
    if alpha.Some? {
      var f := alpha.value;
      AlphaTokenDecimal(f.token);
      ReadFieldText(f, Decimal, false, ")");
      ConsTail(',', FieldThen(f, ")"));
    }
  }

  /** Reads the third channel and the tail. */
  function ReadLast(s: string): (r: Option<(Field, Option<Field>)>)
    ensures r.Some? ==> ChannelField(r.value.0, false) == true
    ensures r.Some? ==> (r.value.1.Some? ==> AlphaField(r.value.1.value) == true)
    ensures r.Some? ==> FieldThen(r.value.0, AlphaTail(r.value.1)) == s
  {
    match ReadChannel(s, false)
    case None => None
    case Some((b, rest)) =>
      match ReadAlphaTail(rest)
      case None => None
      case Some(alpha) => Some((b, alpha))
  }

  lemma ReadLastText(b: Field, alpha: Option<Field>)
    requires ChannelField(b, false) == true
    requires alpha.Some? ==> AlphaField(alpha.value) == true
    ensures ReadLast(FieldThen(b, AlphaTail(alpha))) == Some((b, alpha))
  {
    var tail := AlphaTail(alpha);
    assert tail[0] == ',' || tail[0] == ')';
    ReadChannelText(b, false, tail);
    ReadAlphaTailText(alpha);
  }

  /** Reads the three channels and the tail after the opening parenthesis. */
  function ParseChannels(a: bool, s: string): (r: Option<RgbMatch>)
    ensures r.Some? ==> r.value.a == a && RgbShape(r.value) == true
    ensures r.Some? ==> ChannelsText(r.value.r, r.value.g, r.value.b, r.value.alpha) == s
  {
    match ReadChannelThen(s, false, ',')
    case None => None
    case Some((r, s1)) =>
      match ReadChannelThen(s1, false, ',')
      case None => None
      case Some((g, s2)) =>
        match ReadLast(s2)
        case None => None
        case Some((b, alpha)) => Some(RgbMatch(a, r, g, b, alpha))
  }

  /** `color.match(RGB_COLOR_REGEX)`: whatever it returns is a match of its
      input. */
  function ParseRgb(s: string): (r: Option<RgbMatch>)
    ensures r.Some? ==> RgbShape(r.value) == true && RgbText(r.value) == s
  {
    if |s| >= 5 && s[..5] == "rgba(" then
      Unprefix(s, 5);
      ParseChannels(true, s[5..])
    else if |s| >= 4 && s[..4] == "rgb(" then
      Unprefix(s, 4);
      ParseChannels(false, s[4..])
    else None
  }

  lemma ParseChannelsText(m: RgbMatch)
    requires RgbShape(m) == true
    ensures ParseChannels(m.a, ChannelsText(m.r, m.g, m.b, m.alpha)) == Some(m)
  {
    var s2 := FieldThen(m.b, AlphaTail(m.alpha));
    var s1 := FieldThen(m.g, [','] + s2);
    var s := FieldThen(m.r, [','] + s1);
    ReadChannelThenText(m.r, false, ',', s1);
    ReadChannelThenText(m.g, false, ',', s2);
    ReadLastText(m.b, m.alpha);
    ParseChannelsSteps(m.a, s, s1, s2, m.r, m.g, m.b, m.alpha);
  }

  lemma ParseChannelsSteps(a: bool, s: string, s1: string, s2: string, r: Field, g: Field, b: Field, alpha: Option<Field>)
    requires ReadChannelThen(s, false, ',') == Some((r, s1))
    requires ReadChannelThen(s1, false, ',') == Some((g, s2))
    requires ReadLast(s2) == Some((b, alpha))
    ensures ParseChannels(a, s) == Some(RgbMatch(a, r, g, b, alpha))
  {
  }

  /** After its prefix, the parser reads the channels. */
  lemma ParseRgbPrefix(s: string, a: bool, body: string)
    requires s == RgbPrefix(a) + body
    ensures ParseRgb(s) == ParseChannels(a, body)
  {
    var p := RgbPrefix(a);
    assert s[..|p|] == p && s[|p|..] == body;
    if !a && |s| >= 5 {
      assert s[..5] != "rgba(" by {
        assert s[..5][3] == s[3] == '(';
      }
    }
  }

  /** Every match is read back from the string it covers. */
  lemma ParseRgbComplete(m: RgbMatch)
    requires RgbShape(m) == true
    ensures ParseRgb(RgbText(m)) == Some(m)
  {
    ParseRgbPrefix(RgbText(m), m.a, ChannelsText(m.r, m.g, m.b, m.alpha));
    ParseChannelsText(m);
  }

  /** The parser fails exactly when the grammar has no match. */
  lemma ParseRgbNone(s: string)
    ensures ParseRgb(s).None? <==> forall m :: RgbShape(m) ==> RgbText(m) != s
  {
    if ParseRgb(s).None? {
      forall m | RgbShape(m)
        ensures RgbText(m) != s
      {
        ParseRgbComplete(m);
      }
    }
  }

  /** A string has at most one match. */
  lemma ParseRgbUnique(s: string, m: RgbMatch)
    requires ParseRgb(s) == Some(m)
    ensures forall m' :: RgbShape(m') && RgbText(m') == s ==> m' == m
  {
    forall m' | RgbShape(m') && RgbText(m') == s
      ensures m' == m
    {
      ParseRgbComplete(m');
    }
  }

  // ---------------------------------------------------------------------------
  // Hsl: /^hsl\(\s*(\d{1,3})\s*,\s*(\d{1,3})%\s*,\s*(\d{1,3})%\s*\)$/

  datatype HslMatch = HslMatch(h: Field, s: Field, l: Field)

  predicate HslShape(m: HslMatch)
  {
    ChannelField(m.h, false) && ChannelField(m.s, true) && ChannelField(m.l, true)
  }

  function HslText(m: HslMatch): string
  {
    "hsl(" + FieldThen(m.h, [','] + FieldThen(m.s, [','] + FieldThen(m.l, ")")))
  }

  /** `color.match(HSL_COLOR_REGEX)`: whatever it returns is a match of its
      input. */
  function ParseHsl(s: string): (r: Option<HslMatch>)
    ensures r.Some? ==> HslShape(r.value) == true && HslText(r.value) == s
  {
    if |s| < 4 || s[..4] != "hsl(" then None
    else
      Unprefix(s, 4);
      match ReadChannelThen(s[4..], false, ',')
      case None => None
      case Some((h, s1)) =>
        match ReadChannelThen(s1, true, ',')
        case None => None
        case Some((sat, s2)) =>
          match ReadChannel(s2, true)
          case None => None
          case Some((l, s3)) => if s3 == ")" then Some(HslMatch(h, sat, l)) else None
  }

  lemma ParseHslComplete(m: HslMatch)
    requires HslShape(m) == true
    ensures ParseHsl(HslText(m)) == Some(m)
  {
    var s := HslText(m);
    var t2 := FieldThen(m.l, ")");
    var t1 := FieldThen(m.s, [','] + t2);
    var body := FieldThen(m.h, [','] + t1);
    assert s[..4] == "hsl(" && s[4..] == body;
    ReadChannelThenText(m.h, false, ',', t1);
    ReadChannelThenText(m.s, true, ',', t2);
    ReadChannelText(m.l, true, ")");
  }

  lemma ParseHslNone(s: string)
    ensures ParseHsl(s).None? <==> forall m :: HslShape(m) ==> HslText(m) != s
  {
    if ParseHsl(s).None? {
      forall m | HslShape(m)
        ensures HslText(m) != s
      {
        ParseHslComplete(m);
      }
    }
  }

  lemma ParseHslUnique(s: string, m: HslMatch)
    requires ParseHsl(s) == Some(m)
    ensures forall m' :: HslShape(m') && HslText(m') == s ==> m' == m
  {
    forall m' | HslShape(m') && HslText(m') == s
      ensures m' == m
    {
      ParseHslComplete(m');
    }
  }
}
