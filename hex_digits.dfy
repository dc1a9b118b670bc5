/**
 * Hexadecimal numerals as the colour conversions use them: `parseInt(s, 16)`
 * on a run of hex digits, `n.toString(16)` (lower case, no leading zeros),
 * and a byte as the two digits `b.toString(16).padStart(2, '0')` writes.
 */
module HexDigits {
  import opened ColorGrammar

  /** The value of one hex digit, either case. */
  function HexValue(c: char): (d: nat)
    requires IsHexDigit(c)
    ensures d < 16
  {
    if '0' <= c <= '9' then (c as int) - ('0' as int)
    else if 'a' <= c <= 'f' then (c as int) - ('a' as int) + 10
    else (c as int) - ('A' as int) + 10
  }

  /** The lower-case digit of a value below 16. */
  function HexChar(d: nat): (c: char)
    requires d < 16
    ensures IsHexDigit(c) && HexValue(c) == d && !('A' <= c <= 'F')
  {
    if d < 10 then (('0' as int) + d) as char else (('a' as int) + d - 10) as char
  }

  /** A hex digit in lower case; other characters are left alone. */
  function LowerHex(c: char): char
  {
    if 'A' <= c <= 'F' then ((c as int) + 32) as char else c
  }

  function LowerAll(s: string): (t: string)
    ensures |t| == |s| && forall i :: 0 <= i < |s| ==> t[i] == LowerHex(s[i])
  {
    seq(|s|, i requires 0 <= i < |s| => LowerHex(s[i]))
  }

  function Pow16(k: nat): (p: nat)
    ensures p >= 1
  {
    if k == 0 then 1 else 16 * Pow16(k - 1)
  }

  /** `parseInt(s, 16)` on a non-empty run of hex digits. */
  function ParseHex(s: string): (v: nat)
    requires AllHex(s)
    ensures v < Pow16(|s|)
  {
    if s == [] then 0 else ParseHex(s[..|s| - 1]) * 16 + HexValue(s[|s| - 1])
  }

  /** `n.toString(16)`. */
  function NatHex(n: nat): (s: string)
    ensures |s| >= 1
    decreases n
  {
    if n < 16 then [HexChar(n)] else NatHex(n / 16) + [HexChar(n % 16)]
  }

  /** A byte as two lower-case hex digits. */
  function Byte2(x: nat): (s: string)
    requires x < 256
    ensures |s| == 2
  {
    [HexChar(x / 16), HexChar(x % 16)]
  }

  lemma ParseByte2(x: nat)
    requires x < 256
    ensures ParseHex(Byte2(x)) == x
  {
    var s := Byte2(x);
    assert s[..1][..0] == [];
    assert ParseHex(s[..1]) == x / 16;
  }

  /** Two hex digits written back from their value: the digits in lower case. */
  lemma Byte2Parse(s: string)
    requires |s| == 2 && AllHex(s)
    ensures ParseHex(s) < 256 && Byte2(ParseHex(s)) == LowerAll(s)
  {
    var hi, lo := HexValue(s[0]), HexValue(s[1]);
    HexPair(s);
    PairDigits(hi, lo);
    HexCharOfValue(s[0]);
    HexCharOfValue(s[1]);
    assert LowerAll(s) == [LowerHex(s[0]), LowerHex(s[1])];
  }

  lemma HexPair(s: string)
    requires |s| == 2 && AllHex(s)
    ensures ParseHex(s) == HexValue(s[0]) * 16 + HexValue(s[1])
  {
    assert s[..1][..0] == [];
  }

  lemma PairDigits(hi: nat, lo: nat)
    requires hi < 16 && lo < 16
    ensures (hi * 16 + lo) / 16 == hi && (hi * 16 + lo) % 16 == lo && hi * 16 + lo < 256
  {
  }

  lemma HexCharOfValue(c: char)
    requires IsHexDigit(c)
    ensures HexChar(HexValue(c)) == LowerHex(c)
  {
  }

  /** Appending a byte to a numeral: `(m * 256 + b).toString(16)` is
      `m.toString(16)` followed by the two digits of `b`. */
  lemma NatHexByte(n: nat, m: nat, b: nat)
    requires n == m * 256 + b && m >= 1 && b < 256
    ensures NatHex(n) == NatHex(m) + Byte2(b)
  {
    assert n / 16 == m * 16 + b / 16 && n % 16 == b % 16;
    var n' := m * 16 + b / 16;
    assert n' / 16 == m && n' % 16 == b / 16;
    assert NatHex(n) == NatHex(n') + [HexChar(b % 16)];
    assert NatHex(n') == NatHex(m) + [HexChar(b / 16)];
  }

  /** Reading a run of hex digits and cutting it in two: the value of the
      whole is the value of the front shifted past the back. */
  lemma {:induction false} ParseHexSplit(x: string, y: string)
    requires AllHex(x) && AllHex(y)
    ensures AllHex(x + y) && ParseHex(x + y) == ParseHex(x) * Pow16(|y|) + ParseHex(y)
    decreases |y|
  {
    if y == [] {
      assert x + y == x;
    } else {
      var y' := y[..|y| - 1];
      assert (x + y)[..|x + y| - 1] == x + y';
      ParseHexSplit(x, y');
      ShiftDigit(ParseHex(x), Pow16(|y'|), ParseHex(y'), HexValue(y[|y| - 1]));
    }
  }

  lemma ShiftDigit(a: int, p: int, b: int, d: int)
    ensures (a * p + b) * 16 + d == a * (16 * p) + (b * 16 + d)
  {
  }
}
