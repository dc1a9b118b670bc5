/**
 * `numberToChinese`: the Chinese numeral of a natural number below 10^12.
 * The loop walks the decimal digits from the left, writing a numeral and its
 * unit (十, 百, 千) for a nonzero digit, a single 零 for a run of zeros, and
 * the level (万 at position 4, 亿 at position 8) after every fourth position;
 * three rewrites then drop trailing zeros, a leading 一十 becomes 十, and a
 * zero right before a level is removed.
 *
 * The numeral is read back by `ChineseValue`, a strict reader for which 零 is
 * a place holder and a level needs a nonzero section in front of it.
 */
module NumberChinese {
  import opened JsValues

  const Zero: char := '零'

  /** `chineseNumbers`, indexed by the digit. */
  const Numerals: string := "零一二三四五六七八九"

  /** `chineseUnits[u]`. */
  function Unit(u: nat): string
    requires u < 4
  {
    ["", "十", "百", "千"][u]
  }

  /** `chineseLevels[k]`. */
  function Level(k: nat): string
    requires k < 3
  {
    ["", "万", "亿"][k]
  }

  predicate IsLevel(c: char)
  {
    c == '万' || c == '亿'
  }

  // ---------------------------------------------------------------------------
  // The loop

  /** The loop's `result`, and whether the group of four digits being written
      has a nonzero digit yet (only the corrected form looks at the latter). */
  datatype Acc = Acc(s: string, hasDigit: bool)

  /** What one digit `d` at position `pos` appends to `s`: the numeral and its
      unit, or one 零 unless `s` already ends in 零. */
  function DigitPart(s: string, d: nat, pos: nat): string
    requires d < 10
  {
    if d == 0 then (if |s| > 0 && s[|s| - 1] == Zero then "" else [Zero])
    else [Numerals[d]] + Unit(pos % 4)
  }

  /** The level written after the digit at `pos`: at a position divisible by 4
      (other than 0), except, with `skipEmpty`, after a group of four zeros. */
  function LevelPart(has: bool, pos: nat, skipEmpty: bool): string
    requires pos < 12
  {
    if pos % 4 == 0 && pos != 0 && (has || !skipEmpty) then Level(pos / 4) else ""
  }

  /** Whether the open group has a nonzero digit after the digit `d` at `pos`;
      a level starts a new group. */
  function NextHas(has: bool, d: nat, pos: nat): bool
  {
    if pos % 4 == 0 && pos != 0 then false else has || d != 0
  }

  /** One iteration of the loop. */
  function Step(a: Acc, d: nat, pos: nat, skipEmpty: bool): Acc
    requires d < 10 && pos < 12
  {
    Acc(a.s + DigitPart(a.s, d, pos) + LevelPart(a.hasDigit || d != 0, pos, skipEmpty),
        NextHas(a.hasDigit, d, pos))
  }

  /** The state of the loop after the first `i` digits of `str`. */
  function Build(str: string, i: nat, skipEmpty: bool): Acc
    requires AllDigits(str) && i <= |str| <= 12
  {
    if i == 0 then Acc("", false)
    else Step(Build(str, i - 1, skipEmpty), DigitValue(str[i - 1]), |str| - i, skipEmpty)
  }

  // ---------------------------------------------------------------------------
  // The rewrites after the loop

  /** `replace(/零+$/, '')`. */
  function StripZeros(s: string): (t: string)
    ensures t == [] || t[|t| - 1] != Zero
  {
    if s != [] && s[|s| - 1] == Zero then StripZeros(s[..|s| - 1]) else s
  }

  /** `if (startsWith('一十')) replace('一十', '十')`: the first occurrence is
      the one at the start. */
  function FixTen(s: string): string
  {
    if |s| >= 2 && s[..2] == "一十" then "十" + s[2..] else s
  }

  /** `replace(/零(万|亿)/g, '$1')`: matches are found left to right and do
      not overlap. */
  function DropZeroLevels(s: string): string
  {
    if |s| >= 2 && s[0] == Zero && IsLevel(s[1]) then [s[1]] + DropZeroLevels(s[2..])
    else if s == [] then []
    else [s[0]] + DropZeroLevels(s[1..])
  }

  function Finish(s: string): string
  {
    DropZeroLevels(FixTen(StripZeros(s)))
  }

  /** `numberToChinese(num)` as the source computes it. */
  function ChineseAsWritten(n: nat): string
    requires n < Pow10(12)
  {
    if n == 0 then [Zero]
    else
      DigitsBelow(n, 12);
      Finish(Build(NatDigits(n), |NatDigits(n)|, false).s)
  }

  /** The numeral with the level of an all-zero group left out. */
  function Chinese(n: nat): string
    requires n < Pow10(12)
  {
    if n == 0 then [Zero]
    else
      DigitsBelow(n, 12);
      Finish(Build(NatDigits(n), |NatDigits(n)|, true).s)
  }

  /** A number below 10^k has at most k digits. */
  lemma {:induction false} DigitsBelow(n: nat, k: nat)
    requires k >= 1 && n < Pow10(k)
    ensures |NatDigits(n)| <= k
    decreases n
  {
    if n >= 10 {
      assert Pow10(1) == 10;
      assert k >= 2;
      assert Pow10(k) == 10 * Pow10(k - 1);
      DigitsBelow(n / 10, k - 1);
    }
  }

  /** One pass of the loop: the digit `n` at position `pos`, then the level
      that closes its group. */
  method WriteDigit(result: string, n: nat, pos: nat, ghost has: bool) returns (r: string)
    requires n < 10 && pos < 12
    ensures r == result + DigitPart(result, n, pos) + LevelPart(has, pos, false)
  {
    r := result;
    var unit := Unit(pos % 4);
    if n == 0 {
      if |r| == 0 || r[|r| - 1] != Zero {
        r := r + [Zero];
      }
    } else {
      r := r + [Numerals[n]] + unit;
    }
    if pos % 4 == 0 && pos != 0 {
      r := r + Level(pos / 4);
    }
  }

  /** The loop of `numberToChinese`, followed by its three rewrites. */
  method NumberToChinese(num: nat) returns (r: string)
    requires num < Pow10(12)
    ensures r == ChineseAsWritten(num)
  {
    if num == 0 {
      return [Zero];
    }
    var result := "";
    var str := NatDigits(num);
    var len := |str|;
    DigitsBelow(num, 12);
    ghost var acc := Acc("", false);
    for i := 0 to len
      invariant acc == Build(str, i, false) && result == acc.s
    {
      var n := DigitValue(str[i]);
      var pos := len - i - 1;
      var next := WriteDigit(result, n, pos, acc.hasDigit || n != 0);
      LoopStep(str, i, acc, n, pos, next);
      result := next;
      acc := Acc(next, NextHas(acc.hasDigit, n, pos));
    }
    result := StripZeros(result);
    result := FixTen(result);
    result := DropZeroLevels(result);
    return result;
  }

  /** One pass of the loop moves the state to that after one more digit. */
  lemma LoopStep(str: string, i: nat, a: Acc, d: nat, pos: nat, next: string)
    requires AllDigits(str) && i < |str| <= 12 && a == Build(str, i, false)
    requires d == DigitValue(str[i]) && pos == |str| - i - 1
    requires next == a.s + DigitPart(a.s, d, pos) + LevelPart(a.hasDigit || d != 0, pos, false)
    ensures Build(str, i + 1, false) == Acc(next, NextHas(a.hasDigit, d, pos))
  {
    BuildUnfold(str, i + 1, false);
  }

  // ---------------------------------------------------------------------------
  // Reading a numeral back

  /** The reader's state: the value of the 亿 part, the 万 part, the section
      read so far, and a digit that waits for its unit. */
  datatype Reading = Reading(big: nat, mid: nat, sec: nat, dig: nat)

  /** The value of a numeral character, 10 for any other character. */
  function NumeralValue(c: char): (d: nat)
    ensures d <= 10
    ensures d < 10 ==> Numerals[d] == c
  {
    if c == '零' then 0 else if c == '一' then 1 else if c == '二' then 2
    else if c == '三' then 3 else if c == '四' then 4 else if c == '五' then 5
    else if c == '六' then 6 else if c == '七' then 7 else if c == '八' then 8
    else if c == '九' then 9 else 10
  }

  /** The value of a unit character, 0 for any other character. */
  function UnitValue(c: char): nat
  {
    if c == '十' then 10 else if c == '百' then 100 else if c == '千' then 1000 else 0
  }

  /** One character: 零 is a place holder, a numeral waits for its unit, a unit
      multiplies the waiting digit (1 when there is none, as in 十二), and a
      level closes a nonzero section. */
  function ReadChar(r: Option<Reading>, c: char): Option<Reading>
  {
    if r.None? then None
    else
      var st := r.value;
      if c == Zero then r
      else if NumeralValue(c) < 10 then Some(st.(dig := NumeralValue(c)))
      else if UnitValue(c) > 0 then
        Some(st.(sec := st.sec + (if st.dig == 0 then 1 else st.dig) * UnitValue(c), dig := 0))
      else if c == '万' then
        if st.sec + st.dig == 0 then None
        else Some(st.(mid := (st.sec + st.dig) * 10000, sec := 0, dig := 0))
      else if c == '亿' then
        if st.mid + st.sec + st.dig == 0 then None
        else Some(Reading((st.mid + st.sec + st.dig) * 100000000, 0, 0, 0))
      else None
  }

  function ReadFrom(r: Option<Reading>, s: string): Option<Reading>
  {
    if s == [] then r else ReadChar(ReadFrom(r, s[..|s| - 1]), s[|s| - 1])
  }

  const Start: Option<Reading> := Some(Reading(0, 0, 0, 0))

  /** The number a Chinese numeral denotes, or None if it is malformed. */
  function ChineseValue(s: string): Option<nat>
  {
    var r := ReadFrom(Start, s);
    if r.None? then None else Some(r.value.big + r.value.mid + r.value.sec + r.value.dig)
  }

  /** Reading is a left fold. */
  lemma {:induction false} ReadAppend(r: Option<Reading>, a: string, b: string)
    ensures ReadFrom(r, a + b) == ReadFrom(ReadFrom(r, a), b)
    decreases |b|
  {
    if b == [] {
      assert a + b == a;
    } else {
      assert (a + b)[..|a + b| - 1] == a + b[..|b| - 1];
      ReadAppend(r, a, b[..|b| - 1]);
    }
  }

  /** `s` without its 零 characters. */
  function NoZeros(s: string): string
  {
    if s == [] then [] else NoZeros(s[..|s| - 1]) + (if s[|s| - 1] == Zero then [] else [s[|s| - 1]])
  }

  lemma {:induction false} NoZerosAppend(a: string, b: string)
    ensures NoZeros(a + b) == NoZeros(a) + NoZeros(b)
    decreases |b|
  {
    if b == [] {
      assert a + b == a;
    } else {
      assert (a + b)[..|a + b| - 1] == a + b[..|b| - 1];
      NoZerosAppend(a, b[..|b| - 1]);
    }
  }

  /** 零 contributes nothing to the reading. */
  lemma {:induction false} ReadNoZeros(r: Option<Reading>, s: string)
    ensures ReadFrom(r, s) == ReadFrom(r, NoZeros(s))
    decreases |s|
  {
    if s != [] {
      var init := s[..|s| - 1];
      ReadNoZeros(r, init);
      if s[|s| - 1] != Zero {
        ReadAppend(r, NoZeros(init), [s[|s| - 1]]);
        assert NoZeros(init) + [s[|s| - 1]] == NoZeros(s);
        assert ([s[|s| - 1]])[..0] == [];
      } else {
        assert NoZeros(s) == NoZeros(init) + [];
        assert NoZeros(init) + [] == NoZeros(init);
      }
    }
  }

  lemma {:induction false} StripZerosNoZeros(s: string)
    ensures NoZeros(StripZeros(s)) == NoZeros(s)
    decreases |s|
  {
    if s != [] && s[|s| - 1] == Zero {
      StripZerosNoZeros(s[..|s| - 1]);
    }
  }

  lemma {:induction false} DropZeroLevelsNoZeros(s: string)
    ensures NoZeros(DropZeroLevels(s)) == NoZeros(s)
    decreases |s|
  {
    if |s| >= 2 && s[0] == Zero && IsLevel(s[1]) {
      DropZeroLevelsNoZeros(s[2..]);
      NoZerosAppend([s[1]], DropZeroLevels(s[2..]));
      assert s == [Zero, s[1]] + s[2..];
      NoZerosAppend([Zero, s[1]], s[2..]);
      assert NoZeros([Zero, s[1]]) == [s[1]] by {
        assert [Zero, s[1]][..1] == [Zero];
        assert [Zero][..0] == [];
      }
      assert NoZeros([s[1]]) == [s[1]] by {
        assert [s[1]][..0] == [];
      }
    } else if s != [] {
      DropZeroLevelsNoZeros(s[1..]);
      NoZerosAppend([s[0]], DropZeroLevels(s[1..]));
      assert s == [s[0]] + s[1..];
      NoZerosAppend([s[0]], s[1..]);
    }
  }

  /** 一十 and 十 read alike at the start. */
  lemma FixTenReads(s: string)
    ensures ReadFrom(Start, FixTen(s)) == ReadFrom(Start, s)
  {
    if |s| >= 2 && s[..2] == "一十" {
      assert s == "一十" + s[2..];
      ReadAppend(Start, "一十", s[2..]);
      ReadAppend(Start, "十", s[2..]);
      assert "一十"[..1] == "一";
      assert "一"[..0] == [];
      assert "十"[..0] == [];
    }
  }

  /** The rewrites after the loop do not change what the numeral reads as. */
  lemma FinishReads(s: string)
    ensures ChineseValue(Finish(s)) == ChineseValue(s)
  {
    FinishReadsFrom(s);
    SameReading(Finish(s), s);
  }

  lemma SameReading(t: string, s: string)
    requires ReadFrom(Start, t) == ReadFrom(Start, s)
    ensures ChineseValue(t) == ChineseValue(s)
  {
  }

  lemma FinishReadsFrom(s: string)
    ensures ReadFrom(Start, Finish(s)) == ReadFrom(Start, s)
  {
    var a := StripZeros(s);
    var b := FixTen(a);
    var c := DropZeroLevels(b);
    assert ReadFrom(Start, c) == ReadFrom(Start, b) by {
      ReadNoZeros(Start, c);
      DropZeroLevelsNoZeros(b);
      ReadNoZeros(Start, b);
    }
    assert ReadFrom(Start, b) == ReadFrom(Start, a) by {
      FixTenReads(a);
    }
    assert ReadFrom(Start, a) == ReadFrom(Start, s) by {
      ReadNoZeros(Start, a);
      StripZerosNoZeros(s);
      ReadNoZeros(Start, s);
    }
  }

  // ---------------------------------------------------------------------------
  // The loop writes a numeral that reads as its number

  lemma {:induction false} Pow10Add(a: nat, b: nat)
    ensures Pow10(a + b) == Pow10(a) * Pow10(b)
    decreases a
  {
    if a > 0 {
      Pow10Add(a - 1, b);
    }
  }

  /** `k` zero digits. */
  function Zeros(k: nat): (z: string)
    ensures |z| == k && AllDigits(z)
  {
    seq(k, _ => '0')
  }

  /** Appending `k` zeros multiplies a numeral's value by 10^k. */
  lemma {:induction false} PadDigits(x: string, k: nat)
    requires AllDigits(x)
    ensures AllDigits(x + Zeros(k))
    ensures ParseDigits(x + Zeros(k)) == ParseDigits(x) * Pow10(k)
    decreases k
  {
    if k > 0 {
      var y := x + Zeros(k);
      PadDigits(x, k - 1);
      assert y[..|y| - 1] == x + Zeros(k - 1);
      assert y[|y| - 1] == '0';
      MulTen(ParseDigits(x), Pow10(k - 1));
    } else {
      assert x + Zeros(k) == x;
    }
  }

  lemma MulTen(a: int, p: int)
    ensures a * p * 10 + 0 == a * (10 * p)
  {
  }

  /** The value of the digits `x` followed by `k` zeros. */
  function Padded(x: string, k: nat): nat
    requires AllDigits(x)
  {
    PadDigits(x, k);
    ParseDigits(x + Zeros(k))
  }

  /** `x` scaled to group `c`: 1, 10^4 or 10^8 times `x`. */
  function Shift(x: nat, c: nat): nat
  {
    if c == 0 then x else if c == 1 then 10000 * x else 100000000 * x
  }

  /** The digit `d` at unit `u` of its group. */
  function Place(d: nat, u: nat): nat
  {
    if u == 0 then d else if u == 1 then 10 * d else if u == 2 then 100 * d else 1000 * d
  }

  /** The group whose section is open once the digits down to position `p`
      are written. */
  function Grp(p: nat): nat
  {
    if p == 0 then 0 else (p - 1) / 4
  }

  /** After the first `i` digits, the reading holds their value at its place:
      the closed 亿 and 万 parts plus the open section scaled to its group. */
  ghost predicate Tracks(str: string, i: nat, has: bool, st: Reading)
    requires AllDigits(str) && i <= |str|
  {
    var p := |str| - i;
    var c := Grp(p);
    && st.big + st.mid + Shift(st.sec + st.dig, c) == Padded(str[..i], p)
    && (has <==> st.sec + st.dig > 0)
    && (p != 0 ==> st.dig == 0)
    && (c >= 1 ==> st.mid == 0)
    && (c == 2 ==> st.big == 0)
  }

  lemma ReadOne(r: Option<Reading>, c: char)
    ensures ReadFrom(r, [c]) == ReadChar(r, c)
  {
    assert [c][..0] == [];
  }

  lemma ReadTwo(r: Option<Reading>, c: char, e: char)
    ensures ReadFrom(r, [c, e]) == ReadChar(ReadChar(r, c), e)
  {
    assert [c, e][..1] == [c];
    ReadOne(r, c);
  }

  /** Reading what one digit appends adds the digit at its unit to the section. */
  lemma DigitReads(st: Reading, s: string, d: nat, pos: nat) returns (st': Reading)
    requires d < 10 && st.dig == 0
    ensures ReadFrom(Some(st), DigitPart(s, d, pos)) == Some(st')
    ensures st'.big == st.big && st'.mid == st.mid
    ensures st'.sec + st'.dig == st.sec + st.dig + Place(d, pos % 4)
    ensures pos % 4 != 0 ==> st'.dig == 0
  {
    var part := DigitPart(s, d, pos);
    if d == 0 {
      st' := st;
      if part != [] {
        ReadOne(Some(st), Zero);
      }
    } else {
      var u := pos % 4;
      var c := Numerals[d];
      assert NumeralValue(c) == d by {
        assert c == "零一二三四五六七八九"[d];
      }
      if u == 0 {
        assert part == [c];
        ReadOne(Some(st), c);
        st' := st.(dig := d);
      } else {
        var e := Unit(u)[0];
        assert part == [c, e];
        ReadTwo(Some(st), c, e);
        st' := st.(sec := st.sec + Place(d, u));
      }
    }
  }

  /** Reading a level closes the open section. */
  lemma LevelReads(st: Reading, k: nat) returns (st': Reading)
    requires k == 1 || k == 2
    requires st.sec + st.dig > 0
    ensures ReadFrom(Some(st), Level(k)) == Some(st')
    ensures k == 1 ==> st' == Reading(st.big, 10000 * (st.sec + st.dig), 0, 0)
    ensures k == 2 ==> st' == Reading(100000000 * (st.mid + st.sec + st.dig), 0, 0, 0)
  {
    assert Level(k) == [Level(k)[0]];
    ReadOne(Some(st), Level(k)[0]);
    if k == 1 {
      st' := Reading(st.big, 10000 * (st.sec + st.dig), 0, 0);
    } else {
      st' := Reading(100000000 * (st.mid + st.sec + st.dig), 0, 0, 0);
    }
  }

  lemma ScaleSum(sec: int, d: int, pu: int, pg: int, p: int)
    requires pu * pg == p
    ensures (sec + d * pu) * pg == sec * pg + d * p
  {
    assert (sec + d * pu) * pg == sec * pg + (d * pu) * pg;
    assert (d * pu) * pg == d * (pu * pg);
  }

  lemma ShiftDigit(v: int, d: int, p: int, p1: int)
    requires p1 == 10 * p
    ensures (v * 10 + d) * p == v * p1 + d * p
  {
    assert (v * 10 + d) * p == (v * 10) * p + d * p;
    assert (v * 10) * p == v * (10 * p);
  }

  lemma ShiftIsPow(x: nat, c: nat)
    requires c <= 2
    ensures Shift(x, c) == x * Pow10(4 * c)
  {
    assert Pow10(4) == 10000;
    Pow10Add(4, 4);
  }

  lemma PlaceIsPow(d: nat, u: nat)
    requires u < 4
    ensures Place(d, u) == d * Pow10(u)
  {
    assert Pow10(3) == 1000;
  }

  /** The place-value step on plain integers: `pu` and `pg` are the digit's
      unit and group scales, `p` its place and `p1` the place before it. */
  lemma PlaceArith(w: int, sec: int, sec': int, v: int, d: int, pu: int, pg: int, p: int, p1: int)
    requires pu * pg == p && p1 == 10 * p && sec' == sec + d * pu
    requires w + sec * pg == v * p1
    ensures w + sec' * pg == (v * 10 + d) * p
  {
    ScaleSum(sec, d, pu, pg, p);
    ShiftDigit(v, d, p, p1);
  }

  lemma PadStep(pre: string, ch: char, pos: nat)
    requires AllDigits(pre) && IsDigit(ch)
    ensures AllDigits(pre + [ch])
    ensures Padded(pre, pos + 1) == ParseDigits(pre) * Pow10(pos + 1)
    ensures Padded(pre + [ch], pos) == (ParseDigits(pre) * 10 + DigitValue(ch)) * Pow10(pos)
  {
    assert (pre + [ch])[..|pre|] == pre;
    PadDigits(pre, pos + 1);
    PadDigits(pre + [ch], pos);
  }

  /** The value equation survives writing one more digit `ch` at `pos`:
      `sec'` is the section with the digit added at its unit. */
  lemma PlaceValue(big: nat, mid: nat, sec: nat, sec': nat, pre: string, ch: char, pos: nat)
    requires AllDigits(pre) && IsDigit(ch) && pos < 12
    requires big + mid + Shift(sec, pos / 4) == Padded(pre, pos + 1)
    requires sec' == sec + Place(DigitValue(ch), pos % 4)
    ensures AllDigits(pre + [ch])
    ensures big + mid + Shift(sec', pos / 4) == Padded(pre + [ch], pos)
  {
    var d, v := DigitValue(ch), ParseDigits(pre);
    var u, g := pos % 4, 4 * (pos / 4);
    PadStep(pre, ch, pos);
    ShiftIsPow(sec, pos / 4);
    ShiftIsPow(sec', pos / 4);
    PlaceIsPow(d, u);
    Pow10Add(u, g);
    PlaceArith(big + mid, sec, sec', v, d, Pow10(u), Pow10(g), Pow10(pos), Pow10(pos + 1));
  }

  predicate Numeral(str: string)
  {
    AllDigits(str) && 1 <= |str| <= 12 && str[0] != '0'
  }

  /** A level closes the open section into the part above it; a skipped level
      leaves an empty section as it is. */
  lemma LevelTracks(st: Reading, has: bool, pos: nat, w: nat) returns (st': Reading)
    requires pos == 4 || pos == 8
    requires st.big + st.mid + Shift(st.sec + st.dig, pos / 4) == w
    requires has <==> st.sec + st.dig > 0
    requires st.mid == 0 && (pos == 8 ==> st.big == 0)
    ensures ReadFrom(Some(st), if has then Level(pos / 4) else "") == Some(st')
    ensures st'.big + st'.mid + Shift(st'.sec + st'.dig, pos / 4 - 1) == w
    ensures st'.sec == 0 && st'.dig == 0
    ensures pos == 8 ==> st'.mid == 0
  {
    if has {
      st' := LevelReads(st, pos / 4);
    } else {
      st' := st;
    }
  }

  /** Reading what the digit at `j` appends puts its value in place. */
  lemma DigitTracks(str: string, j: nat, s: string, has: bool, st: Reading, d: nat, pos: nat)
    returns (st1: Reading)
    requires Numeral(str) && j < |str| && Tracks(str, j, has, st)
    requires d == DigitValue(str[j]) && pos == |str| - j - 1
    ensures ReadFrom(Some(st), DigitPart(s, d, pos)) == Some(st1)
    ensures st1.big + st1.mid + Shift(st1.sec + st1.dig, pos / 4) == Padded(str[..j + 1], pos)
    ensures (has || d != 0) <==> st1.sec + st1.dig > 0
    ensures pos % 4 != 0 ==> st1.dig == 0
    ensures pos / 4 >= 1 ==> st1.mid == 0
    ensures pos / 4 == 2 ==> st1.big == 0
  {
    TracksSum(str, j, has, st, pos);
    st1 := DigitReads(st, s, d, pos);
    PlaceValue(st.big, st.mid, st.sec + st.dig, st1.sec + st1.dig, str[..j], str[j], pos);
    PrefixSnoc(str, j);
    PlaceZero(d, pos % 4);
  }

  lemma TracksSum(str: string, j: nat, has: bool, st: Reading, pos: nat)
    requires Numeral(str) && j < |str| && Tracks(str, j, has, st) && pos == |str| - j - 1
    ensures st.big + st.mid + Shift(st.sec + st.dig, pos / 4) == Padded(str[..j], pos + 1)
    ensures (has <==> st.sec + st.dig > 0) && st.dig == 0
    ensures pos / 4 >= 1 ==> st.mid == 0
    ensures pos / 4 == 2 ==> st.big == 0
  {
    GrpNext(pos);
  }

  lemma GrpNext(pos: nat)
    ensures Grp(pos + 1) == pos / 4
  {
  }

  lemma PrefixSnoc(str: string, j: nat)
    requires j < |str|
    ensures str[..j] + [str[j]] == str[..j + 1]
  {
  }

  lemma PlaceZero(d: nat, u: nat)
    ensures Place(d, u) == 0 <==> d == 0
  {
  }

  /** One step of the corrected loop keeps the reading in step. */
  lemma StepTracks(str: string, j: nat, s: string, has: bool, st: Reading, d: nat, pos: nat, piece: string)
    returns (st': Reading)
    requires Numeral(str) && j < |str| && Tracks(str, j, has, st)
    requires d == DigitValue(str[j]) && pos == |str| - j - 1
    requires piece == DigitPart(s, d, pos) + LevelPart(has || d != 0, pos, true)
    ensures ReadFrom(Some(st), piece) == Some(st')
    ensures Tracks(str, j + 1, NextHas(has, d, pos), st')
  {
    var st1 := DigitTracks(str, j, s, has, st, d, pos);
    var lv := LevelPart(has || d != 0, pos, true);
    ReadAppend(Some(st), DigitPart(s, d, pos), lv);
    var w := Padded(str[..j + 1], pos);
    if pos % 4 == 0 && pos != 0 {
      st' := LevelTracks(st1, has || d != 0, pos, w);
      assert Grp(pos) == pos / 4 - 1;
    } else {
      st' := st1;
      assert lv == [];
      assert Grp(pos) == pos / 4;
    }
  }

  /** One more digit of the corrected loop appends its two parts. */
  lemma BuildStep(str: string, i: nat, a: Acc, d: nat, pos: nat, piece: string)
    requires Numeral(str) && 0 < i <= |str|
    requires a == Build(str, i - 1, true) && d == DigitValue(str[i - 1]) && pos == |str| - i
    requires piece == DigitPart(a.s, d, pos) + LevelPart(a.hasDigit || d != 0, pos, true)
    ensures Build(str, i, true).s == a.s + piece
    ensures Build(str, i, true).hasDigit == NextHas(a.hasDigit, d, pos)
  {
    var x, y := DigitPart(a.s, d, pos), LevelPart(a.hasDigit || d != 0, pos, true);
    assert a.s + x + y == a.s + (x + y);
  }

  lemma ReadChain(s0: string, piece: string, s: string, st0: Reading, st: Reading)
    requires ReadFrom(Start, s0) == Some(st0) && ReadFrom(Some(st0), piece) == Some(st)
    requires s == s0 + piece
    ensures ReadFrom(Start, s) == Some(st)
  {
    ReadAppend(Start, s0, piece);
  }

  /** Before the first digit the reading is empty, and so is the value. */
  lemma TracksStart(str: string)
    requires Numeral(str)
    ensures Tracks(str, 0, false, Reading(0, 0, 0, 0))
  {
    assert str[..0] == [];
    PadDigits([], |str|);
    assert Padded(str[..0], |str|) == 0;
  }

  lemma SameTracks(str: string, i: nat, h: bool, h': bool, st: Reading)
    requires AllDigits(str) && i <= |str| && Tracks(str, i, h, st) && h == h'
    ensures Tracks(str, i, h', st)
  {
  }

  /** The corrected loop writes a numeral whose reading tracks its digits. */
  /** After `i` digits the corrected loop's numeral reads as a state that
      tracks those digits. */
  ghost predicate Built(str: string, i: nat, st: Reading)
    requires Numeral(str) && i <= |str|
  {
    && ReadFrom(Start, Build(str, i, true).s) == Some(st)
    && Tracks(str, i, Build(str, i, true).hasDigit, st)
  }

  lemma BuildTracks(str: string, n: nat) returns (st: Reading)
    requires Numeral(str) && n <= |str|
    ensures Built(str, n, st)
  {
    st := Reading(0, 0, 0, 0);
    TracksStart(str);
    var i := 0;
    while i < n
      invariant i <= n && Built(str, i, st)
    {
      st := BuildTracksStep(str, i + 1, st);
      i := i + 1;
    }
  }

  lemma BuildTracksStep(str: string, i: nat, st0: Reading) returns (st: Reading)
    requires Numeral(str) && 0 < i <= |str| && Built(str, i - 1, st0)
    ensures Built(str, i, st)
  {
    var a := Build(str, i - 1, true);
    var d, pos := DigitValue(str[i - 1]), |str| - i;
    var piece := DigitPart(a.s, d, pos) + LevelPart(a.hasDigit || d != 0, pos, true);
    st := StepTracks(str, i - 1, a.s, a.hasDigit, st0, d, pos, piece);
    BuildStep(str, i, a, d, pos, piece);
    ReadChain(a.s, piece, Build(str, i, true).s, st0, st);
    SameTracks(str, i, NextHas(a.hasDigit, d, pos), Build(str, i, true).hasDigit, st);
  }

  /** The reading after the whole corrected loop sums to the digits' value. */
  lemma BuildReads(str: string) returns (st: Reading)
    requires Numeral(str)
    ensures ReadFrom(Start, Build(str, |str|, true).s) == Some(st)
    ensures st.big + st.mid + st.sec + st.dig == ParseDigits(str)
  {
    st := BuildTracks(str, |str|);
    TracksAtEnd(str, Build(str, |str|, true).hasDigit, st);
  }

  lemma ValueOfReading(s: string, st: Reading)
    requires ReadFrom(Start, s) == Some(st)
    ensures ChineseValue(s) == Some(st.big + st.mid + st.sec + st.dig)
  {
  }

  /** With every digit read, the reading holds the value of the digits. */
  lemma TracksAtEnd(str: string, has: bool, st: Reading)
    requires AllDigits(str) && Tracks(str, |str|, has, st)
    ensures st.big + st.mid + st.sec + st.dig == ParseDigits(str)
  {
    assert str[..|str|] == str;
    assert str + Zeros(0) == str;
  }

  /** Every number below 10^12 reads back from its numeral. */
  lemma ChineseRoundTrip(n: nat)
    requires n < Pow10(12)
    ensures ChineseValue(Chinese(n)) == Some(n)
  {
    if n == 0 {
      ReadOne(Start, Zero);
    } else {
      var str := NatDigits(n);
      DigitsBelow(n, 12);
      assert str[0] != '0' by {
        if |str| == 1 {
          assert str == [DigitChar(n)];
        }
      }
      var st := BuildReads(str);
      ValueOfReading(Build(str, |str|, true).s, st);
      ParseNatDigits(n);
      FinishReads(Build(str, |str|, true).s);
    }
  }

  // ---------------------------------------------------------------------------
  // Where the two loops agree

  /** With at most eight digits the only level is 万, and its group always
      holds the leading digit, so skipping empty groups changes nothing. */
  lemma {:induction false} BuildAgrees(str: string, i: nat)
    requires Numeral(str) && |str| <= 8 && i <= |str|
    ensures Build(str, i, true) == Build(str, i, false)
    ensures 1 <= i && |str| - i > 4 ==> Build(str, i, true).hasDigit
  {
    if i > 0 {
      BuildAgrees(str, i - 1);
      var a := Build(str, i - 1, true);
      var d := DigitValue(str[i - 1]);
      var pos := |str| - i;
      LevelAgrees(a.hasDigit, d, pos, i == 1);
      StepAgrees(a, d, pos);
      BuildUnfold(str, i, true);
      BuildUnfold(str, i, false);
      var b := Build(str, i, true);
      assert b == Step(a, d, pos, true);
      assert b.hasDigit == NextHas(a.hasDigit, d, pos);
      assert pos > 4 ==> b.hasDigit;
    }
  }

  /** At or below position 7 the level is 万 at position 4, written alike by
      both loops once a digit of its group has been seen. */
  lemma LevelAgrees(has: bool, d: nat, pos: nat, leading: bool)
    requires pos < 8 && (leading ==> d != 0) && (!leading && pos + 1 > 4 ==> has)
    ensures LevelPart(has || d != 0, pos, true) == LevelPart(has || d != 0, pos, false)
    ensures pos > 4 ==> NextHas(has, d, pos)
  {
  }

  lemma BuildUnfold(str: string, i: nat, skipEmpty: bool)
    requires AllDigits(str) && 0 < i <= |str| <= 12
    ensures Build(str, i, skipEmpty) == Step(Build(str, i - 1, skipEmpty), DigitValue(str[i - 1]), |str| - i, skipEmpty)
  {
  }

  lemma StepAgrees(a: Acc, d: nat, pos: nat)
    requires d < 10 && pos < 12
    requires LevelPart(a.hasDigit || d != 0, pos, true) == LevelPart(a.hasDigit || d != 0, pos, false)
    ensures Step(a, d, pos, true) == Step(a, d, pos, false)
  {
  }

  /** Below 10^8 the source already writes the corrected numeral. */
  lemma AgreesBelow100000000(n: nat)
    requires n < 100000000
    ensures n < Pow10(12)
    ensures ChineseAsWritten(n) == Chinese(n)
  {
    assert Pow10(4) == 10000;
    Pow10Add(4, 4);
    Pow10Add(8, 4);
    if n > 0 {
      var str := NatDigits(n);
      DigitsBelow(n, 8);
      assert str[0] != '0' by {
        if |str| == 1 {
          assert str == [DigitChar(n)];
        }
      }
      BuildAgrees(str, |str|);
    }
  }

  // ---------------------------------------------------------------------------
  // Examples

  /** The digits of 10^k: a one followed by k zeros. */
  lemma {:induction false} DigitsOfPow10(k: nat)
    ensures NatDigits(Pow10(k)) == ['1'] + Zeros(k)
  {
    if k > 0 {
      DigitsOfPow10(k - 1);
      assert Pow10(k) / 10 == Pow10(k - 1) && Pow10(k) % 10 == 0;
      assert ['1'] + Zeros(k - 1) + ['0'] == ['1'] + Zeros(k);
    }
  }

  lemma DigitsOf100000000()
    ensures 100000000 < Pow10(12)
    ensures NatDigits(100000000) == "100000000"
  {
    assert Pow10(4) == 10000;
    Pow10Add(4, 4);
    Pow10Add(8, 4);
    DigitsOfPow10(8);
  }

  lemma BuildAt100000000Front(str: string)
    requires str == "100000000"
    ensures Build(str, 5, false).s == "一亿零万"
  {
    assert Build(str, 1, false).s == "一亿";
    assert Build(str, 2, false).s == "一亿零";
    assert Build(str, 3, false).s == "一亿零";
    assert Build(str, 4, false).s == "一亿零";
  }

  lemma BuildAt100000000(str: string)
    requires str == "100000000"
    ensures Build(str, 9, false).s == "一亿零万零"
  {
    BuildAt100000000Front(str);
    assert Build(str, 6, false).s == "一亿零万零";
    assert Build(str, 7, false).s == "一亿零万零";
    assert Build(str, 8, false).s == "一亿零万零";
  }

  lemma FinishAt100000000(s: string)
    requires s == "一亿零万零"
    ensures Finish(s) == "一亿万"
  {
    var t := s[..|s| - 1];
    assert t == "一亿零万";
    assert StripZeros(s) == t;
    assert t[..2] != "一十" by {
      assert t[..2][1] == '亿';
    }
    assert t[2..] == [Zero, '万'] && t[2..][2..] == [];
    assert DropZeroLevels(t[2..]) == "万";
    assert t[1..][1..] == t[2..] && t[1..][0] == '亿';
    assert DropZeroLevels(t[1..]) == "亿万";
    assert DropZeroLevels(t) == "一亿万";
  }

  /** The source writes a 万 after 亿 although the 万 group is empty. */
  lemma LevelWithoutGroup()
    ensures 100000000 < Pow10(12)
    ensures ChineseAsWritten(100000000) == "一亿万"
  {
    DigitsOf100000000();
    BuildAt100000000(NatDigits(100000000));
    FinishAt100000000("一亿零万零");
  }

  /** "一亿万" reads as no number: a 万 must close a non-empty group. */
  lemma LevelWithoutGroupUnread()
    ensures ChineseValue("一亿万") == None
  {
    ReadOne(Start, '一');
    assert "一亿万"[..2] == "一亿" && "一亿"[..1] == "一";
  }

  lemma BuildSkippingAt100000000(str: string)
    requires str == "100000000"
    ensures Build(str, 9, true).s == "一亿零"
  {
    assert Build(str, 1, true) == Acc("一亿", false);
    assert Build(str, 2, true) == Acc("一亿零", false);
    assert Build(str, 3, true) == Acc("一亿零", false);
    assert Build(str, 4, true) == Acc("一亿零", false);
    assert Build(str, 5, true) == Acc("一亿零", false);
    assert Build(str, 6, true) == Acc("一亿零", false);
    assert Build(str, 7, true) == Acc("一亿零", false);
    assert Build(str, 8, true) == Acc("一亿零", false);
  }

  lemma FinishSkippingAt100000000(s: string)
    requires s == "一亿零"
    ensures Finish(s) == "一亿"
  {
    var t := s[..|s| - 1];
    assert t == "一亿";
    assert StripZeros(s) == t;
    assert t[..2] != "一十" by {
      assert t[..2][1] == '亿';
    }
    assert t[1..][1..] == [] && t[1..][0] == '亿';
    assert DropZeroLevels(t[1..]) == "亿";
    assert DropZeroLevels(t) == "一亿";
  }

  /** The corrected loop writes 10^8 as "一亿". */
  lemma LevelSkipped()
    ensures 100000000 < Pow10(12)
    ensures Chinese(100000000) == "一亿"
  {
    DigitsOf100000000();
    BuildSkippingAt100000000(NatDigits(100000000));
    FinishSkippingAt100000000("一亿零");
  }

  lemma DropKeep(c: char, t: string)
    requires c != Zero
    ensures DropZeroLevels([c] + t) == [c] + DropZeroLevels(t)
  {
    assert ([c] + t)[1..] == t;
  }

  lemma DropLevel(l: char, t: string)
    requires IsLevel(l)
    ensures DropZeroLevels([Zero, l] + t) == [l] + DropZeroLevels(t)
  {
    assert ([Zero, l] + t)[2..] == t;
  }

  lemma DropLoneZero(t: string)
    requires t == [] || !IsLevel(t[0])
    ensures DropZeroLevels([Zero] + t) == [Zero] + DropZeroLevels(t)
  {
    assert ([Zero] + t)[1..] == t;
  }

  lemma DigitsOf12345(n: nat)
    requires n == 12345
    ensures n < Pow10(12) && NatDigits(n) == "12345"
  {
    assert Pow10(4) == 10000;
    Pow10Add(4, 4);
    Pow10Add(4, 8);
    assert NatDigits(1) == "1";
    assert NatDigits(12) == "12";
    assert NatDigits(123) == "123";
    assert NatDigits(1234) == "1234";
  }

  lemma BuildAt12345(str: string)
    requires str == "12345"
    ensures Build(str, 5, false).s == "一万二千三百四十五"
  {
    assert Build(str, 1, false).s == "一万";
    assert Build(str, 2, false).s == "一万二千";
    assert Build(str, 3, false).s == "一万二千三百";
    assert Build(str, 4, false).s == "一万二千三百四十";
  }

  /** A numeral without 零 has nothing for the last rewrite to drop. */
  lemma {:induction false} DropWithoutZeros(s: string)
    requires forall i :: 0 <= i < |s| ==> s[i] != Zero
    ensures DropZeroLevels(s) == s
    decreases |s|
  {
    if s != [] {
      DropWithoutZeros(s[1..]);
      DropKeep(s[0], s[1..]);
      assert [s[0]] + s[1..] == s;
    }
  }

  lemma FinishAt12345(s: string)
    requires s == "一万二千三百四十五"
    ensures Finish(s) == s
  {
    assert StripZeros(s) == s;
    assert s[..2] != "一十" by {
      assert s[..2][1] == '万';
    }
    DropWithoutZeros(s);
  }

  /** `numberToChinese(12345)` is '一万二千三百四十五'. */
  lemma Example12345()
    ensures 12345 < Pow10(12)
    ensures ChineseAsWritten(12345) == "一万二千三百四十五"
  {
    DigitsOf12345(12345);
    BuildAt12345(NatDigits(12345));
    FinishAt12345("一万二千三百四十五");
  }

  lemma DigitsOf100002(n: nat)
    requires n == 100002
    ensures n < Pow10(12) && NatDigits(n) == "100002"
  {
    assert Pow10(4) == 10000;
    Pow10Add(4, 4);
    Pow10Add(4, 8);
    DigitsOfPow10(4);
    assert Pow10(4) == 10000;
    assert Zeros(4) == "0000";
    assert NatDigits(10000) == "10000";
    assert NatDigits(100002) == NatDigits(10000) + ['2'];
  }

  lemma BuildAt100002(str: string)
    requires str == "100002"
    ensures Build(str, 6, false).s == "一十零万零二"
  {
    assert Build(str, 1, false).s == "一十";
    assert Build(str, 2, false).s == "一十零万";
    assert Build(str, 3, false).s == "一十零万零";
    assert Build(str, 4, false).s == "一十零万零";
    assert Build(str, 5, false).s == "一十零万零";
  }

  lemma FinishAt100002(s: string)
    requires s == "一十零万零二"
    ensures Finish(s) == "十万零二"
  {
    assert StripZeros(s) == s;
    assert s[..2] == "一十";
    var t := s[2..];
    assert FixTen(s) == ['十'] + t;
    assert t == [Zero, '万'] + t[2..] && t[2..] == [Zero] + t[3..] && t[3..] == ['二'] + [];
    DropKeep('十', t);
    DropLevel('万', t[2..]);
    DropLoneZero(t[3..]);
    DropKeep('二', []);
  }

  /** `numberToChinese(100002)` is '十万零二'. */
  lemma Example100002()
    ensures 100002 < Pow10(12)
    ensures ChineseAsWritten(100002) == "十万零二"
  {
    DigitsOf100002(100002);
    BuildAt100002(NatDigits(100002));
    FinishAt100002("一十零万零二");
  }

  lemma DigitsOf10000000(n: nat)
    requires n == 10000000
    ensures n < Pow10(12) && NatDigits(n) == "10000000"
  {
    assert Pow10(4) == 10000;
    Pow10Add(4, 4);
    Pow10Add(8, 4);
    Pow10Add(4, 3);
    assert Pow10(3) == 1000;
    DigitsOfPow10(7);
  }

  lemma BuildAt10000000Front(str: string)
    requires str == "10000000"
    ensures Build(str, 4, false).s == "一千零万"
  {
    assert Build(str, 1, false).s == "一千";
    assert Build(str, 2, false).s == "一千零";
    assert Build(str, 3, false).s == "一千零";
  }

  lemma BuildAt10000000(str: string)
    requires str == "10000000"
    ensures Build(str, 8, false).s == "一千零万零"
  {
    BuildAt10000000Front(str);
    assert Build(str, 5, false).s == "一千零万零";
    assert Build(str, 6, false).s == "一千零万零";
    assert Build(str, 7, false).s == "一千零万零";
  }

  lemma FinishAt10000000(s: string)
    requires s == "一千零万零"
    ensures Finish(s) == "一千万"
  {
    var t := s[..|s| - 1];
    assert t == "一千零万";
    assert StripZeros(s) == t;
    assert t[..2] != "一十" by {
      assert t[..2][1] == '千';
    }
    assert t == ['一'] + t[1..] && t[1..] == ['千'] + t[2..] && t[2..] == [Zero, '万'] + [];
    DropKeep('一', t[1..]);
    DropKeep('千', t[2..]);
    DropLevel('万', []);
  }

  /** `numberToChinese(10000000)` is '一千万'. */
  lemma Example10000000()
    ensures 10000000 < Pow10(12)
    ensures ChineseAsWritten(10000000) == "一千万"
  {
    DigitsOf10000000(10000000);
    BuildAt10000000(NatDigits(10000000));
    FinishAt10000000("一千零万零");
  }

  // ---------------------------------------------------------------------------
  // The shape of the result

  /** No two 零 in a row. */
  predicate SingleZeros(s: string)
  {
    forall i :: 0 < i < |s| ==> s[i - 1] != Zero || s[i] != Zero
  }

  predicate NoZeroChar(t: string)
  {
    forall i :: 0 <= i < |t| ==> t[i] != Zero
  }

  /** Not empty, not ending in 零, and no two 零 in a row. */
  predicate WellFormed(s: string)
  {
    s != [] && s[|s| - 1] != Zero && SingleZeros(s)
  }

  lemma JoinSingle(a: string, b: string)
    requires SingleZeros(a) && SingleZeros(b)
    requires a == [] || b == [] || a[|a| - 1] != Zero || b[0] != Zero
    ensures SingleZeros(a + b)
  {
    forall i | 0 < i < |a + b| ensures (a + b)[i - 1] != Zero || (a + b)[i] != Zero {
      if i < |a| {
        assert (a + b)[i - 1] == a[i - 1] && (a + b)[i] == a[i];
      } else if i == |a| {
        assert (a + b)[i - 1] == a[i - 1] && (a + b)[i] == b[0];
      } else {
        assert (a + b)[i - 1] == b[i - 1 - |a|] && (a + b)[i] == b[i - |a|];
      }
    }
  }

  lemma SuffixSingle(s: string, k: nat)
    requires SingleZeros(s) && k <= |s|
    ensures SingleZeros(s[k..])
  {
    forall i | 0 < i < |s[k..]| ensures s[k..][i - 1] != Zero || s[k..][i] != Zero {
      assert s[k..][i - 1] == s[k + i - 1] && s[k..][i] == s[k + i];
    }
  }

  lemma PrefixSingle(s: string, k: nat)
    requires SingleZeros(s) && k <= |s|
    ensures SingleZeros(s[..k])
  {
    forall i | 0 < i < k ensures s[..k][i - 1] != Zero || s[..k][i] != Zero {
      assert s[..k][i - 1] == s[i - 1] && s[..k][i] == s[i];
    }
  }

  /** A nonzero digit writes its numeral and unit, neither of them 零. */
  lemma NumeralNotZero(d: nat, u: nat)
    requires 0 < d < 10 && u < 4
    ensures NoZeroChar([Numerals[d]] + Unit(u))
  {
  }

  /** A level is one character other than 零, or nothing. */
  lemma LevelNotZero(has: bool, pos: nat, skipEmpty: bool)
    requires pos < 12
    ensures NoZeroChar(LevelPart(has, pos, skipEmpty))
  {
  }

  lemma JoinClean(a: string, t: string)
    requires SingleZeros(a) && NoZeroChar(t)
    ensures SingleZeros(a + t)
  {
    JoinSingle(a, t);
  }

  /** One iteration never writes a second 零 after a 零. */
  lemma StepSingle(a: Acc, d: nat, pos: nat, skipEmpty: bool)
    requires d < 10 && pos < 12 && SingleZeros(a.s)
    ensures SingleZeros(Step(a, d, pos, skipEmpty).s)
  {
    var p := DigitPart(a.s, d, pos);
    if d == 0 {
      JoinSingle(a.s, p);
    } else {
      NumeralNotZero(d, pos % 4);
      JoinClean(a.s, p);
    }
    LevelNotZero(a.hasDigit || d != 0, pos, skipEmpty);
    JoinClean(a.s + p, LevelPart(a.hasDigit || d != 0, pos, skipEmpty));
  }

  lemma {:induction false} BuildSingle(str: string, i: nat, skipEmpty: bool)
    requires AllDigits(str) && i <= |str| <= 12
    ensures SingleZeros(Build(str, i, skipEmpty).s)
  {
    if i > 0 {
      BuildSingle(str, i - 1, skipEmpty);
      StepSingle(Build(str, i - 1, skipEmpty), DigitValue(str[i - 1]), |str| - i, skipEmpty);
    }
  }

  /** After a leading nonzero digit the loop's string starts with its numeral. */
  lemma {:induction false} BuildFront(str: string, i: nat, skipEmpty: bool)
    requires AllDigits(str) && 1 <= i <= |str| <= 12 && str[0] != '0'
    ensures Build(str, i, skipEmpty).s != [] && Build(str, i, skipEmpty).s[0] != Zero
  {
    var a := Build(str, i - 1, skipEmpty);
    var d := DigitValue(str[i - 1]);
    var pos := |str| - i;
    var t := DigitPart(a.s, d, pos) + LevelPart(a.hasDigit || d != 0, pos, skipEmpty);
    assert Build(str, i, skipEmpty).s == a.s + t;
    if i == 1 {
      assert d != 0;
      NumeralNotZero(d, pos % 4);
      assert a.s == [];
    } else {
      BuildFront(str, i - 1, skipEmpty);
    }
  }

  /** `replace(/零+$/, '')` keeps a prefix, all of it up to the last other character. */
  lemma {:induction false} StripShape(s: string)
    ensures |StripZeros(s)| <= |s| && StripZeros(s) == s[..|StripZeros(s)|]
    ensures s != [] && s[0] != Zero ==> StripZeros(s) != []
    decreases |s|
  {
    if s != [] && s[|s| - 1] == Zero {
      StripShape(s[..|s| - 1]);
      if |s| == 1 {
        assert s[0] == Zero;
      } else {
        assert s[..|s| - 1][0] == s[0];
      }
    }
  }

  lemma FixTenShape(s: string)
    requires WellFormed(s)
    ensures WellFormed(FixTen(s))
  {
    if |s| >= 2 && s[..2] == "一十" {
      SuffixSingle(s, 2);
      assert "十"[0] != Zero;
      JoinSingle("十", s[2..]);
      if |s| > 2 {
        assert ("十" + s[2..])[|s| - 2] == s[|s| - 1];
      }
    }
  }

  /** `replace(/零(万|亿)/g, '$1')` keeps the last character and adds no 零. */
  lemma {:induction false} DropShape(s: string)
    requires SingleZeros(s)
    ensures SingleZeros(DropZeroLevels(s))
    ensures DropZeroLevels(s) != [] && DropZeroLevels(s)[0] == Zero ==> s != [] && s[0] == Zero
    ensures s != [] && s[|s| - 1] != Zero ==> DropZeroLevels(s) != [] && DropZeroLevels(s)[|DropZeroLevels(s)| - 1] != Zero
    decreases |s|
  {
    if |s| >= 2 && s[0] == Zero && IsLevel(s[1]) {
      var t := DropZeroLevels(s[2..]);
      SuffixSingle(s, 2);
      DropShape(s[2..]);
      JoinSingle([s[1]], t);
      if |s| > 2 && s[|s| - 1] != Zero {
        assert s[2..][|s| - 3] == s[|s| - 1];
        assert ([s[1]] + t)[|t|] == t[|t| - 1];
      }
    } else if s != [] {
      var t := DropZeroLevels(s[1..]);
      SuffixSingle(s, 1);
      DropShape(s[1..]);
      if t != [] && t[0] == Zero {
        assert s[1..][0] == s[1];
      }
      JoinSingle([s[0]], t);
      if |s| > 1 && s[|s| - 1] != Zero {
        assert s[1..][|s| - 2] == s[|s| - 1];
        assert ([s[0]] + t)[|t|] == t[|t| - 1];
      }
    }
  }

  /** The rewrites turn a loop string that starts with a numeral and has no
      two 零 in a row into a well-formed numeral. */
  lemma FinishShape(s: string)
    requires s != [] && s[0] != Zero && SingleZeros(s)
    ensures WellFormed(Finish(s))
  {
    var a := StripZeros(s);
    StripShape(s);
    PrefixSingle(s, |a|);
    FixTenShape(a);
    DropShape(FixTen(a));
  }

  /** The numeral of a positive number below 10^12 is not empty, does not end
      in 零 and never has two 零 in a row, as written and corrected alike. */
  lemma ResultShape(n: nat)
    requires 0 < n < Pow10(12)
    ensures WellFormed(ChineseAsWritten(n)) && WellFormed(Chinese(n))
  {
    var str := NatDigits(n);
    DigitsBelow(n, 12);
    if n < 10 {
      assert DigitValue(str[0]) == n;
    }
    BuildSingle(str, |str|, false);
    BuildFront(str, |str|, false);
    FinishShape(Build(str, |str|, false).s);
    BuildSingle(str, |str|, true);
    BuildFront(str, |str|, true);
    FinishShape(Build(str, |str|, true).s);
  }
}
