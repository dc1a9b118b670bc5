/**
 * JavaScript primitive values and the host conversions the library relies on:
 * integer-to-decimal text (`Number.prototype.toString`), `parseInt` of a digit
 * run, `String.prototype.trim`, truthiness, property-key conversion and strict
 * equality.  Numbers are modelled as integers plus NaN.
 */
module JsValues {

  datatype Option<T> = None | Some(value: T)

  /** A thrown exception; the library only ever throws TypeError. */
  datatype JsError = TypeError(message: string)

  /** The outcome of a call that may throw. */
  datatype Result<T> = Ok(value: T) | Throw(error: JsError)

  /** Primitive JavaScript values; numbers are integral (or NaN). */
  datatype Prim =
    | Undefined
    | Null
    | Bool(b: bool)
    | Num(n: int)
    | NaN
    | Str(s: string)
    | BigInt(i: int)
    | Symbol(id: nat)

  /** Property keys: array indices, other string names, and symbols. */
  datatype Key = Idx(i: nat) | Name(name: string) | SymKey(sym: nat)

  // ---------------------------------------------------------------------------
  // Decimal digits

  predicate IsDigit(c: char) { '0' <= c <= '9' }

  predicate AllDigits(s: string) { forall i :: 0 <= i < |s| ==> IsDigit(s[i]) }

  function DigitChar(d: nat): (c: char)
    requires d < 10
    ensures IsDigit(c) && DigitValue(c) == d
  {
    "0123456789"[d]
  }

  function DigitValue(c: char): (d: nat)
    requires IsDigit(c)
    ensures d < 10
  {
    (c as int) - ('0' as int)
  }

  /** The decimal numeral of a natural number, without leading zeros. */
  function NatDigits(n: nat): (s: string)
    ensures |s| >= 1 && AllDigits(s)
    ensures |s| > 1 ==> s[0] != '0'
    ensures n < 10 <==> |s| == 1
    decreases n
  {
    if n < 10 then [DigitChar(n)] else NatDigits(n / 10) + [DigitChar(n % 10)]
  }

  /** `String(n)` for an integral number. */
  function DecimalString(n: int): (s: string)
    ensures |s| >= 1
    ensures n >= 0 ==> AllDigits(s)
    ensures n < 0 ==> s[0] == '-' && AllDigits(s[1..])
  {
    if n < 0 then "-" + NatDigits(-n) else NatDigits(n)
  }

  /** The value of a run of decimal digits (what `parseInt(s, 10)` yields for it). */
  function ParseDigits(s: string): nat
    requires AllDigits(s)
  {
    if s == [] then 0 else ParseDigits(s[..|s| - 1]) * 10 + DigitValue(s[|s| - 1])
  }

  /** Parsing the numeral of `n` gives `n` back. */
  lemma {:induction false} ParseNatDigits(n: nat)
    ensures ParseDigits(NatDigits(n)) == n
    decreases n
  {
    if n >= 10 {
      var s := NatDigits(n);
      assert s[..|s| - 1] == NatDigits(n / 10);
      ParseNatDigits(n / 10);
    }
  }

  /** A numeral without leading zeros is the numeral of its value. */
  lemma {:induction false} NatDigitsOfParse(s: string)
    requires AllDigits(s) && |s| >= 1 && (|s| > 1 ==> s[0] != '0')
    ensures NatDigits(ParseDigits(s)) == s
    decreases |s|
  {
    if |s| > 1 {
      var p := s[..|s| - 1];
      NatDigitsOfParse(p);
      ParseAtLeastTen(p);
      assert ParseDigits(s) / 10 == ParseDigits(p);
      assert ParseDigits(s) % 10 == DigitValue(s[|s| - 1]);
      assert DigitChar(DigitValue(s[|s| - 1])) == s[|s| - 1] by {
        var c := s[|s| - 1];
        assert "0123456789"[DigitValue(c)] == c;
      }
    } else {
      var c := s[0];
      assert ParseDigits(s) == DigitValue(c) by { assert s[..0] == []; }
      assert "0123456789"[DigitValue(c)] == c;
    }
  }

  /** A numeral of two or more digits without a leading zero is at least 10. */
  lemma {:induction false} ParseAtLeastTen(p: string)
    requires AllDigits(p) && |p| >= 1 && (|p| > 1 ==> p[0] != '0') && p[0] != '0'
    ensures ParseDigits(p) >= 1
    decreases |p|
  {
    if |p| > 1 {
      var q := p[..|p| - 1];
      assert q[0] == p[0];
      ParseAtLeastTen(q);
    } else {
      assert p[..0] == [];
    }
  }

  /** Every run of at most `k` digits is below 10^k. */
  lemma {:induction false} ParseDigitsBound(s: string)
    requires AllDigits(s)
    ensures ParseDigits(s) < Pow10(|s|)
    decreases |s|
  {
    if s != [] {
      ParseDigitsBound(s[..|s| - 1]);
    }
  }

  function Pow10(k: nat): (p: nat)
    ensures p >= 1
  {
    if k == 0 then 1 else 10 * Pow10(k - 1)
  }

  // ---------------------------------------------------------------------------
  // White space, as `\s` in a regular expression and `String.prototype.trim` see it

  /** WhiteSpace and LineTerminator code points of ECMAScript (section 12.2 and 12.3 of ECMA-262). */
  predicate IsWhitespace(c: char)
  {
    || ('\U{0009}' <= c <= '\U{000D}') || c == ' ' || c == '\U{00A0}' || c == '\U{1680}'
    || ('\U{2000}' <= c <= '\U{200A}') || c == '\U{2028}' || c == '\U{2029}'
    || c == '\U{202F}' || c == '\U{205F}' || c == '\U{3000}' || c == '\U{FEFF}'
  }

  predicate AllWhitespace(s: string) { forall i :: 0 <= i < |s| ==> IsWhitespace(s[i]) }

  function TrimStart(s: string): (r: string)
    ensures |r| <= |s| && r == s[|s| - |r|..]
    ensures AllWhitespace(s[..|s| - |r|])
    ensures r != [] ==> !IsWhitespace(r[0])
  {
    if s != [] && IsWhitespace(s[0]) then TrimStart(s[1..]) else s
  }

  function TrimEnd(s: string): (r: string)
    ensures |r| <= |s| && r == s[..|r|]
    ensures AllWhitespace(s[|r|..])
    ensures r != [] ==> !IsWhitespace(r[|r| - 1])
  {
    if s != [] && IsWhitespace(s[|s| - 1]) then TrimEnd(s[..|s| - 1]) else s
  }

  /** `String.prototype.trim`. */
  function Trim(s: string): string
  {
    TrimEnd(TrimStart(s))
  }

  /** Trimming leaves a string that neither starts nor ends with white space,
      and it removes white space only. */
  lemma TrimShape(s: string)
    ensures var t := Trim(s);
      && (t != [] ==> !IsWhitespace(t[0]) && !IsWhitespace(t[|t| - 1]))
      && exists i, j :: 0 <= i <= j <= |s| && t == s[i..j] && AllWhitespace(s[..i]) && AllWhitespace(s[j..])
  {
    var u := TrimStart(s);
    var t := TrimEnd(u);
    var i := |s| - |u|;
    var j := i + |t|;
    assert t == s[i..j];
    assert s[j..] == u[|t|..];
    if t != [] {
      assert t[0] == u[0];
    }
  }

  /** A string trims to the empty string exactly when it is all white space. */
  lemma TrimEmptyIff(s: string)
    ensures Trim(s) == [] <==> AllWhitespace(s)
  {
    var u := TrimStart(s);
    if Trim(s) == [] {
      assert s == s[..|s| - |u|] + u;
      assert AllWhitespace(u) by { assert u[0..] == u; }
    } else {
      var t := Trim(s);
      assert t[0] == s[|s| - |u|];
    }
  }

  // ---------------------------------------------------------------------------
  // Coercions and comparisons

  /** `Boolean(p)`: the falsy primitives are undefined, null, false, 0, NaN, '' and 0n. */
  predicate Truthy(p: Prim)
  {
    match p
    case Undefined => false
    case Null => false
    case Bool(b) => b
    case Num(n) => n != 0
    case NaN => false
    case Str(s) => s != ""
    case BigInt(i) => i != 0
    case Symbol(_) => true
  }

  /** `String(p)` for every primitive except a symbol (whose key form is handled by ToPropertyKey). */
  function PrimToString(p: Prim): string
    requires !p.Symbol?
  {
    match p
    case Undefined => "undefined"
    case Null => "null"
    case Bool(b) => if b then "true" else "false"
    case Num(n) => DecimalString(n)
    case NaN => "NaN"
    case Str(s) => s
    case BigInt(i) => DecimalString(i)
  }

  /** A canonical array index: a numeral without leading zeros below 2^32 - 1. */
  predicate IsArrayIndex(s: string)
  {
    |s| >= 1 && AllDigits(s) && (|s| > 1 ==> s[0] != '0') && ParseDigits(s) < 0xFFFF_FFFF
  }

  /** The key a string names: indices are told apart from other names. */
  function StringKey(s: string): (k: Key)
    ensures k.Idx? <==> IsArrayIndex(s)
    ensures k.Name? ==> k.name == s
  {
    if IsArrayIndex(s) then Idx(ParseDigits(s)) else Name(s)
  }

  /** ToPropertyKey: the key under which `obj[p]` stores and reads. */
  function ToPropertyKey(p: Prim): Key
  {
    if p.Symbol? then SymKey(p.id) else StringKey(PrimToString(p))
  }

  /** The number 1 and the string '1' name the same property. */
  lemma NumberAndNumeralShareKey(n: nat)
    requires n < 0xFFFF_FFFF
    ensures ToPropertyKey(Num(n)) == ToPropertyKey(Str(NatDigits(n))) == Idx(n)
  {
    ParseNatDigits(n);
  }

  /** `a === b` on primitives: NaN is unequal to everything, itself included. */
  predicate StrictEquals(a: Prim, b: Prim)
  {
    a != NaN && b != NaN && a == b
  }
}
