/**
 * The integer predicates and range helpers of the number utilities.  A
 * JavaScript number is modelled by the integral values and NaN, which is all
 * these functions are documented for; the remainder, comparison and bitwise
 * operators are written out with the semantics the host gives them.
 */
module Number {
  import JsValues

  /** An integral JavaScript number, or NaN. */
  datatype Number = Int(value: int) | NaN

  /** `x` is a multiple of `b` exactly when its remainder by `b` is 0. */
  lemma MultipleMod(x: int, b: int, k: int)
    requires b > 0 && x == b * k
    ensures x % b == 0
  {
    var q, r := x / b, x % b;
    var t := k - q;
    assert b * t == r;
    if t >= 1 {
      MulLe(b, 1, t);
    } else if t <= -1 {
      MulLe(b, t, -1);
    }
  }

  /** Multiplying by a natural keeps an order. */
  lemma MulLe(a: int, b: int, c: int)
    requires a >= 0 && b <= c
    ensures a * b <= a * c
  {
    assert a * c - a * b == a * (c - b);
  }

  /** Divisibility does not depend on the sign of the dividend. */
  lemma NegMod(a: int, b: int)
    requires b > 0
    ensures (-a) % b == 0 <==> a % b == 0
  {
    if (-a) % b == 0 {
      var q := (-a) / b;
      assert -a == b * q;
      assert a == b * (-q);
      MultipleMod(a, b, -q);
    }
    if a % b == 0 {
      var q := a / b;
      assert a == b * q;
      assert -a == b * (-q);
      MultipleMod(-a, b, -q);
    }
  }

  /** `a % b` on integral numbers and a positive divisor: the remainder of
      division truncated towards zero, which takes the sign of the dividend. */
  function Rem(a: int, b: int): (r: int)
    requires b > 0
    ensures a >= 0 ==> r == a % b
    ensures a < 0 ==> -b < r <= 0
    ensures r == 0 <==> a % b == 0
  {
    NegMod(a, b);
    if a >= 0 then a % b else -((-a) % b)
  }

  // ---------------------------------------------------------------------------
  // isOdd, isEven

  /** `num % 2 !== 0`: NaN leaves a NaN remainder, which is not 0. */
  function IsOdd(x: Number): (r: bool)
    ensures x.Int? ==> (r <==> x.value % 2 == 1)
    ensures x.NaN? ==> r
  {
    x.NaN? || Rem(x.value, 2) != 0
  }

  /** `num % 2 === 0`: exactly the numbers that are not odd. */
  function IsEven(x: Number): (r: bool)
    ensures r <==> !IsOdd(x)
    ensures x.Int? ==> (r <==> x.value % 2 == 0)
  {
    x.Int? && Rem(x.value, 2) == 0
  }

  /** Oddness ignores the sign and alternates between neighbours. */
  lemma OddSymmetric(n: int)
    ensures IsOdd(Int(-n)) == IsOdd(Int(n))
    ensures IsOdd(Int(n + 1)) == IsEven(Int(n))
  {
  }

  // ---------------------------------------------------------------------------
  // isPrime

  /** A natural number above 1 whose only divisors are 1 and itself. */
  predicate Prime(n: int)
  {
    n > 1 && forall d :: 1 < d < n ==> n % d != 0
  }

  /** No number from 2 below `i` divides `n`. */
  predicate NoDivisorBelow(n: int, i: int)
  {
    forall d :: 1 < d < i ==> n % d != 0
  }

  /** A multiple of a multiple of `m` is a multiple of `m`. */
  lemma DividesTrans(n: int, d: int, m: int)
    requires m > 0 && d > 0 && n % d == 0 && d % m == 0
    ensures n % m == 0
  {
    var q := n / d;
    var p := d / m;
    assert n == d * q;
    assert d == m * p;
    assert n == m * (p * q) by {
      assert d * q == (m * p) * q;
    }
    MultipleMod(n, m, p * q);
  }

  /** Stepping `i` past the six candidates `i .. i + 5` keeps the search
      complete when `i` and `i + 2` do not divide `n` and neither 2 nor 3 does. */
  lemma SkipSix(n: int, i: int)
    requires i >= 5 && i % 6 == 5 && NoDivisorBelow(n, i)
    requires n % 2 != 0 && n % 3 != 0 && n % i != 0 && n % (i + 2) != 0
    ensures NoDivisorBelow(n, i + 6)
  {
    forall d | 1 < d < i + 6
      ensures n % d != 0
    {
      if d >= i && d != i && d != i + 2 {
        if n % d == 0 {
          SixCandidates(i, d);
          if d % 3 == 0 {
            DividesTrans(n, d, 3);
          } else {
            DividesTrans(n, d, 2);
          }
        }
      }
    }
  }

  /** Of the six numbers from `i` where `i % 6 == 5`, all but `i` and
      `i + 2` are divisible by 2 or by 3. */
  lemma SixCandidates(i: int, d: int)
    requires i % 6 == 5 && i < d < i + 6 && d != i + 2
    ensures d % 2 == 0 || d % 3 == 0
  {
    var q := i / 6;
    assert i == 6 * q + 5;
    if d == i + 4 {
      MultipleMod(d, 3, 2 * q + 3);
    } else if d == i + 1 {
      MultipleMod(d, 2, 3 * q + 3);
    } else if d == i + 3 {
      MultipleMod(d, 2, 3 * q + 4);
    } else {
      MultipleMod(d, 2, 3 * q + 5);
    }
  }

  /** A divisor `d` of `n` at or above `i`, where `i * i > n`, leaves a
      cofactor `n / d` that lies strictly between 1 and `i` and divides `n`. */
  lemma Cofactor(n: int, i: int, d: int) returns (e: int)
    requires n > 1 && i > 1 && i * i > n && i <= d < n && n % d == 0
    ensures 1 < e < i && n % e == 0
  {
    e := n / d;
    assert n == d * e;
    assert e > 0;
    MulLe(e, i, d);
    assert i * e < i * i;
    if e >= i {
      MulLe(i, i, e);
    }
    MultipleMod(n, e, d);
  }

  /** Once `i * i > n`, no divisor below `i` means no divisor at all. */
  lemma CofactorBelow(n: int, i: int)
    requires n > 1 && i > 1 && i * i > n && NoDivisorBelow(n, i)
    ensures Prime(n)
  {
    forall d | 1 < d < n
      ensures n % d != 0
    {
      if n % d == 0 && d >= i {
        var e := Cofactor(n, i, d);
      }
    }
  }

  /** `isPrime(num)`: trial division by 2, 3 and the pairs `6k - 1`, `6k + 1`
      up to the square root.  For NaN every comparison is false, so control
      falls through to the final `return true`. */
  method IsPrime(x: Number) returns (r: bool)
    ensures x.Int? ==> (r <==> Prime(x.value))
    ensures x.NaN? ==> r
  {
    if x.NaN? {
      return true;
    }
    var n := x.value;
    if n <= 1 {
      return false;
    }
    if n <= 3 {
      return true;
    }
    if Rem(n, 2) == 0 || Rem(n, 3) == 0 {
      assert n % 2 == 0 || n % 3 == 0;
      return false;
    }
    var i := 5;
    while i * i <= n
      invariant i >= 5 && i % 6 == 5
      invariant NoDivisorBelow(n, i)
      decreases n - i
    {
      MulLe(i, 5, i);
      assert Rem(n, i) == n % i && Rem(n, i + 2) == n % (i + 2);
      if Rem(n, i) == 0 || Rem(n, i + 2) == 0 {
        return false;
      }
      SkipSix(n, i);
      i := i + 6;
    }
    CofactorBelow(n, i);
    return true;
  }

  /** `isPrime` with NaN rejected: true exactly for the primes. */
  method IsPrimeChecked(x: Number) returns (r: bool)
    ensures r <==> x.Int? && Prime(x.value)
  {
    if x.NaN? {
      return false;
    }
    r := IsPrime(x);
  }

  /** `isPrime(NaN)` answers true although NaN is no prime. */
  method PrimeNaN() returns (asWritten: bool, corrected: bool)
    ensures asWritten && !corrected
  {
    asWritten := IsPrime(NaN);
    corrected := IsPrimeChecked(NaN);
  }

  // ---------------------------------------------------------------------------
  // isPalindrome

  /** `num.toString()` for an integral number or NaN. */
  function ToString(x: Number): string
  {
    if x.NaN? then "NaN" else JsValues.DecimalString(x.value)
  }

  function Reversed(s: string): (t: string)
    ensures |t| == |s|
  {
    if s == [] then [] else Reversed(s[1..]) + [s[0]]
  }

  /** The `k`-th character of the reversal is the `k`-th from the end. */
  lemma {:induction false} ReversedAt(s: string, k: nat)
    requires k < |s|
    ensures Reversed(s)[k] == s[|s| - 1 - k]
  {
    if k < |s| - 1 {
      ReversedAt(s[1..], k);
    }
  }

  /** A numeral that reads the same in both directions. */
  predicate Palindromic(x: Number)
  {
    ToString(x) == Reversed(ToString(x))
  }

  /** `isPalindrome(num)`: the characters `i` and `len - 1 - i` agree for every
      `i < len / 2`. */
  method IsPalindrome(x: Number) returns (r: bool)
    ensures r <==> Palindromic(x)
  {
    r := Mirrors(ToString(x));
  }

  /** The loop of `isPalindrome` over the characters of `str`. */
  method Mirrors(str: string) returns (r: bool)
    ensures r <==> str == Reversed(str)
  {
    var len := |str|;
    var i := 0;
    while 2 * i < len
      invariant 0 <= i && 2 * i <= len + 1
      invariant forall j :: 0 <= j < i ==> str[j] == str[len - 1 - j]
    {
      if str[i] != str[len - 1 - i] {
        ReversedAt(str, i);
        return false;
      }
      i := i + 1;
    }
    Mirrored(str, i);
    return true;
  }

  /** A string whose first `i` characters mirror its last `i`, for `2 * i` at
      least its length, is its own reversal. */
  lemma Mirrored(s: string, i: nat)
    requires 2 * i >= |s| && i <= |s|
    requires forall j :: 0 <= j < i ==> s[j] == s[|s| - 1 - j]
    ensures s == Reversed(s)
  {
    forall k | 0 <= k < |s|
      ensures Reversed(s)[k] == s[k]
    {
      ReversedAt(s, k);
      if k >= i {
        var j := |s| - 1 - k;
        assert 0 <= j < i;
        assert s[j] == s[|s| - 1 - j];
      }
    }
  }

  /** A negative number is never a palindrome: its numeral starts with `-` and
      ends with a digit. */
  lemma NegativeNotPalindromic(n: int)
    requires n < 0
    ensures !Palindromic(Int(n))
  {
    var s := ToString(Int(n));
    ReversedAt(s, 0);
    assert JsValues.IsDigit(s[1..][|s| - 2]);
  }

  /** Every single digit is a palindrome. */
  lemma DigitPalindromic(n: int)
    requires 0 <= n < 10
    ensures Palindromic(Int(n))
  {
    var s := ToString(Int(n));
    assert |s| == 1;
    ReversedAt(s, 0);
  }

  // ---------------------------------------------------------------------------
  // isPowerOfTwo

  const Two32: nat := 0x1_0000_0000

  function Pow2(k: nat): (p: nat)
    ensures p >= 1
  {
    if k == 0 then 1 else 2 * Pow2(k - 1)
  }

  /** The bitwise AND of two naturals, bit by bit from the lowest. */
  function BitAnd(a: nat, b: nat): nat
  {
    if a == 0 || b == 0 then 0
    else 2 * BitAnd(a / 2, b / 2) + (if a % 2 == 1 && b % 2 == 1 then 1 else 0)
  }

  /** A number ANDed with itself is itself. */
  lemma {:induction false} BitAndSelf(a: nat)
    ensures BitAnd(a, a) == a
  {
    if a != 0 {
      BitAndSelf(a / 2);
    }
  }

  /** `n & (n - 1)` clears the lowest set bit, so it is 0 exactly for the powers of two. */
  lemma {:induction false} ClearLowestBit(n: nat)
    requires n >= 1
    ensures BitAnd(n, n - 1) == 0 <==> exists k: nat :: n == Pow2(k)
  {
    if n == 1 {
      assert BitAnd(n, n - 1) == 0;
      assert n == Pow2(0);
      assert exists k: nat :: n == Pow2(k);
    } else if n % 2 == 0 {
      ClearLowestBit(n / 2);
      BitAndEven(n);
      PowerHalf(n);
    } else {
      BitAndOdd(n);
      OddNotPower(n);
    }
  }

  lemma BitAndOdd(n: nat)
    requires n >= 3 && n % 2 == 1
    ensures BitAnd(n, n - 1) == n - 1
  {
    BitAndSelf(n / 2);
    assert (n - 1) / 2 == n / 2;
  }

  /** An odd number above 1 is no power of two. */
  lemma OddNotPower(n: nat)
    requires n >= 3 && n % 2 == 1
    ensures forall k: nat :: n != Pow2(k)
  {
    forall k: nat
      ensures n != Pow2(k)
    {
      if k > 0 {
        MultipleMod(Pow2(k), 2, Pow2(k - 1));
      }
    }
  }

  lemma BitAndEven(n: nat)
    requires n >= 2 && n % 2 == 0
    ensures BitAnd(n, n - 1) == 2 * BitAnd(n / 2, n / 2 - 1)
  {
    assert (n - 1) / 2 == n / 2 - 1;
  }

  /** An even number is a power of two exactly when its half is. */
  lemma PowerHalf(n: nat)
    requires n >= 2 && n % 2 == 0
    ensures (exists k: nat :: n == Pow2(k)) <==> (exists k: nat :: n / 2 == Pow2(k))
  {
    if exists k: nat :: n / 2 == Pow2(k) {
      var k: nat :| n / 2 == Pow2(k);
      assert n == Pow2(k + 1);
    }
    if exists k: nat :: n == Pow2(k) {
      var k: nat :| n == Pow2(k);
      assert k > 0;
      assert n / 2 == Pow2(k - 1);
    }
  }

  /** ToUint32: the low 32 bits of an integral number, which is all that the
      bitwise operators see of their operands. */
  function Low32(n: int): (r: nat)
    ensures r < Two32
    ensures 0 <= n < Two32 ==> r == n
  {
    n % Two32
  }

  /** `num > 0 && (num & (num - 1)) === 0`, with `&` applied to the 32-bit forms
      of both operands.  Whether the result is 0 does not depend on reading the
      32 bits as signed or unsigned. */
  predicate IsPowerOfTwo(x: Number)
  {
    x.Int? && x.value > 0 && BitAnd(Low32(x.value), Low32(x.value - 1)) == 0
  }

  /** The test on the whole number rather than its low 32 bits: true exactly
      for the powers of two. */
  function IsPowerOfTwoExact(x: Number): (r: bool)
    ensures r <==> x.Int? && exists k: nat :: x.value == Pow2(k)
  {
    if x.Int? && x.value > 0 then
      ClearLowestBit(x.value);
      BitAnd(x.value, x.value - 1) == 0
    else
      assert x.Int? ==> forall k: nat :: x.value != Pow2(k);
      false
  }

  /** Below 2^32 the two tests agree. */
  lemma PowerOfTwoBelow32(n: int)
    requires n < Two32
    ensures IsPowerOfTwo(Int(n)) == IsPowerOfTwoExact(Int(n))
  {
  }

  /** 2^32 + 1 is odd and above 1, yet its low 32 bits are 1 and those of its
      predecessor are 0, so `isPowerOfTwo` answers true. */
  lemma PowerOfTwoWraps()
    ensures IsPowerOfTwo(Int(Two32 + 1))
    ensures !IsPowerOfTwoExact(Int(Two32 + 1))
  {
    assert Low32(Two32 + 1) == 1;
    assert Low32(Two32) == 0;
    assert BitAnd(1, 0) == 0;
    assert BitAnd(Two32 + 1, Two32) == 2 * BitAnd(Two32 / 2, Two32 / 2);
    BitAndSelf(Two32 / 2);
  }

  // ---------------------------------------------------------------------------
  // clamp, inRange

  /** `Math.max(a, b)`: NaN when either is NaN. */
  function Max(a: Number, b: Number): (r: Number)
    ensures a.Int? && b.Int? ==> r.Int? && r.value >= a.value && r.value >= b.value
    ensures a.Int? && b.Int? ==> r == a || r == b
    ensures a.NaN? || b.NaN? ==> r.NaN?
  {
    if a.NaN? || b.NaN? then NaN else if a.value >= b.value then a else b
  }

  /** `Math.min(a, b)`: NaN when either is NaN. */
  function Min(a: Number, b: Number): (r: Number)
    ensures a.Int? && b.Int? ==> r.Int? && r.value <= a.value && r.value <= b.value
    ensures a.Int? && b.Int? ==> r == a || r == b
    ensures a.NaN? || b.NaN? ==> r.NaN?
  {
    if a.NaN? || b.NaN? then NaN else if a.value <= b.value then a else b
  }

  /** `a <= b` between numbers: false when either is NaN. */
  predicate AtMost(a: Number, b: Number)
  {
    a.Int? && b.Int? && a.value <= b.value
  }

  /** `clamp(num, min, max)` = `Math.min(Math.max(num, min), max)`: inside the
      bounds when they are ordered, the number itself when it is already
      inside, `max` when the bounds are crossed, NaN when any argument is. */
  function Clamp(x: Number, lo: Number, hi: Number): (r: Number)
    ensures x.NaN? || lo.NaN? || hi.NaN? ==> r.NaN?
    ensures x.Int? && lo.Int? && hi.Int? ==> r.Int?
    ensures AtMost(lo, hi) && x.Int? ==> AtMost(lo, r) && AtMost(r, hi)
    ensures AtMost(lo, x) && AtMost(x, hi) ==> r == x
    ensures AtMost(lo, hi) && AtMost(x, lo) ==> r == lo
    ensures AtMost(lo, hi) && AtMost(hi, x) ==> r == hi
    ensures x.Int? && lo.Int? && hi.Int? && hi.value < lo.value ==> r == hi
  {
    Min(Max(x, lo), hi)
  }

  /** `inRange(num, min, max)` = `num >= min && num <= max`. */
  function InRange(x: Number, lo: Number, hi: Number): (r: bool)
    ensures r ==> x.Int? && lo.Int? && hi.Int?
    ensures r ==> lo.value <= hi.value
    ensures x.Int? && lo.Int? && hi.Int? ==> (r <==> lo.value <= x.value <= hi.value)
  {
    AtMost(lo, x) && AtMost(x, hi)
  }

  /** With ordered bounds, clamping lands in the range, is the identity exactly
      on the range, and clamping twice is clamping once. */
  lemma ClampInRange(x: Number, lo: Number, hi: Number)
    requires x.Int? && AtMost(lo, hi)
    ensures InRange(Clamp(x, lo, hi), lo, hi)
    ensures InRange(x, lo, hi) <==> Clamp(x, lo, hi) == x
    ensures Clamp(Clamp(x, lo, hi), lo, hi) == Clamp(x, lo, hi)
  {
  }
}
