/**
 * The two checksum validators of String+Ex.swift. `isValidBankCardLocal` is the
 * Luhn formula of ISO/IEC 7812-1, Annex B; `isValidIdCardLocal` checks the
 * 18-character resident identity number of GB 11643-1999, whose last character
 * is the ISO 7064 MOD 11-2 check character.
 */
module StringChecksum {
  import Chars
  import StringTrim
  import StringIndex
  import StringNumbers
  import StringValidate
  import Gregorian

  /** What `toInteger` reads from a one-character string. */
  function DigitOrZero(c: char): (d: nat)
    ensures d < 10
    ensures Chars.IsDigit(c) ==> d == Chars.DigitValue(c)
  {
    if Chars.IsDigit(c) then Chars.DigitValue(c) else 0
  }

  /** The Luhn contribution of the character at `p`: doubled (less 9 from 10 on)
    * when its distance from the last character is odd. */
  function LuhnTerm(s: string, p: nat): (t: nat)
    requires p < |s|
    ensures t < 10
  {
    var d := DigitOrZero(s[p]);
    if (|s| - 1 - p) % 2 == 1 then (if 2 * d >= 10 then 2 * d - 9 else 2 * d) else d
  }

  /** The contributions of positions `lo` to `hi - 1`. */
  function LuhnBetween(s: string, lo: nat, hi: nat): nat
    requires lo <= hi <= |s|
    decreases hi - lo
  {
    if lo == hi then 0 else LuhnTerm(s, lo) + LuhnBetween(s, lo + 1, hi)
  }

  /** The Luhn sum of the whole string. */
  function LuhnSum(s: string): nat
  {
    LuhnBetween(s, 0, |s|)
  }

  lemma {:induction false} LuhnBetweenSnoc(s: string, lo: nat, hi: nat)
    requires lo <= hi < |s|
    ensures LuhnBetween(s, lo, hi + 1) == LuhnBetween(s, lo, hi) + LuhnTerm(s, hi)
    decreases hi - lo
  {
    if lo < hi {
      LuhnBetweenSnoc(s, lo + 1, hi);
    }
  }

  /** `substring(at: p, length: 1).kc.toInteger`: the digit at `p`, 0 for any other
    * character. */
  method ReadDigit(s: string, p: nat) returns (v: int)
    requires p < |s|
    ensures v == DigitOrZero(s[p])
  {
    var one := StringIndex.SubstringAt(s, p, 1);
    assert one == [s[p]];
    StringNumbers.IntegerValueOfChar(s[p]);
    v := StringNumbers.IntegerValue(one);
  }

  /** The source's doubling test on `count % 2` and `idx % 2` is "odd distance from
    * the last character" for the character at `idx - 1`, so its value is that
    * character's Luhn term. */
  lemma SourceTerm(s: string, idx: nat, d: int, doubled: bool)
    requires 1 <= idx < |s| && d == DigitOrZero(s[idx - 1])
    requires doubled == if |s| % 2 == 1 then idx % 2 == 0 else idx % 2 == 1
    ensures LuhnTerm(s, idx - 1) == if doubled then (if 2 * d >= 10 then 2 * d - 9 else 2 * d) else d
    ensures LuhnBetween(s, idx - 1, |s| - 1) == LuhnTerm(s, idx - 1) + LuhnBetween(s, idx, |s| - 1)
  {
    assert doubled <==> (|s| - 1 - (idx - 1)) % 2 == 1;
  }

  /** `isValidBankCardLocal`: 16 to 19 characters, and a Luhn sum divisible by 10. */
  method IsValidBankCardLocal(s: string) returns (ok: bool)
    ensures ok <==> 16 <= |s| <= 19 && LuhnSum(s) % 10 == 0
  {
    if !(16 <= |s| <= 19) {
      return false;
    }
    var n := |s|;
    var bankNo := StringIndex.SubstringTo(s, n - 1);
    assert bankNo == s;
    var evenSum, oddSum := SumsBeforeLast(bankNo);
    var lastDigit := ReadDigit(s, n - 1);
    var allSum := evenSum + oddSum + lastDigit;
    LuhnSumOfLast(s);
    ok := allSum % 10 == 0;
  }

  /** The loop of `isValidBankCardLocal` over all characters but the last, from
    * right to left: the doubled terms in `evenSum`, the others in `oddSum`. */
  method SumsBeforeLast(s: string) returns (evenSum: int, oddSum: int)
    requires |s| >= 1
    ensures evenSum + oddSum == LuhnBetween(s, 0, |s| - 1)
  {
    var n := |s|;
    evenSum, oddSum := 0, 0;
    var idx := n - 1;
    while idx >= 1
      invariant 0 <= idx <= n - 1
      invariant evenSum + oddSum == LuhnBetween(s, idx, n - 1)
    {
      var tmpValue := ReadDigit(s, idx - 1);
      var doubled := if n % 2 == 1 then idx % 2 == 0 else idx % 2 == 1;
      SourceTerm(s, idx, tmpValue, doubled);
      if doubled {
        tmpValue := tmpValue * 2;
        if tmpValue >= 10 {
          tmpValue := tmpValue - 9;
        }
        evenSum := evenSum + tmpValue;
      } else {
        oddSum := oddSum + tmpValue;
      }
      idx := idx - 1;
    }
  }

  /** The last character counts as it is. */
  lemma LuhnSumOfLast(s: string)
    requires |s| >= 1
    ensures LuhnSum(s) == LuhnBetween(s, 0, |s| - 1) + DigitOrZero(s[|s| - 1])
  {
    LuhnBetweenSnoc(s, 0, |s| - 1);
  }

  lemma {:induction false} LuhnBetweenSplit(s: string, lo: nat, mid: nat, hi: nat)
    requires lo <= mid <= hi <= |s|
    ensures LuhnBetween(s, lo, hi) == LuhnBetween(s, lo, mid) + LuhnBetween(s, mid, hi)
    decreases mid - lo
  {
    if lo < mid {
      LuhnBetweenSplit(s, lo + 1, mid, hi);
    }
  }

  lemma {:induction false} LuhnBetweenSame(s: string, t: string, lo: nat, hi: nat)
    requires |s| == |t| && lo <= hi <= |s|
    requires forall q :: lo <= q < hi ==> s[q] == t[q]
    ensures LuhnBetween(s, lo, hi) == LuhnBetween(t, lo, hi)
    decreases hi - lo
  {
    if lo < hi {
      LuhnBetweenSame(s, t, lo + 1, hi);
    }
  }

  /** The Luhn check catches every change of a single digit. */
  lemma LuhnDetectsSingleDigitError(s: string, t: string, p: nat)
    requires |s| == |t| && p < |s|
    requires forall q :: 0 <= q < |s| && q != p ==> s[q] == t[q]
    requires Chars.IsDigit(s[p]) && Chars.IsDigit(t[p]) && s[p] != t[p]
    ensures LuhnSum(s) % 10 != LuhnSum(t) % 10
  {
    var n := |s|;
    LuhnBetweenSplit(s, 0, p, n);
    LuhnBetweenSplit(t, 0, p, n);
    LuhnBetweenSame(s, t, 0, p);
    LuhnBetweenSame(s, t, p + 1, n);
    assert LuhnBetween(s, p, n) == LuhnTerm(s, p) + LuhnBetween(s, p + 1, n);
    assert LuhnBetween(t, p, n) == LuhnTerm(t, p) + LuhnBetween(t, p + 1, n);
    LuhnTermInjective(s, t, p);
    ModTenDistinct(LuhnBetween(s, 0, p) + LuhnBetween(s, p + 1, n), LuhnTerm(s, p), LuhnTerm(t, p));
  }

  lemma LuhnTermInjective(s: string, t: string, p: nat)
    requires |s| == |t| && p < |s|
    requires Chars.IsDigit(s[p]) && Chars.IsDigit(t[p]) && s[p] != t[p]
    ensures LuhnTerm(s, p) != LuhnTerm(t, p)
  {
    assert Chars.DigitValue(s[p]) != Chars.DigitValue(t[p]);
  }

  lemma ModTenDistinct(a: nat, x: nat, y: nat)
    requires x < 10 && y < 10 && x != y
    ensures (a + x) % 10 != (a + y) % 10
  {
  }

  // ---- GB 11643-1999 resident identity numbers ----

  /** Two decimal digits read as a number. */
  function TwoDigits(a: char, b: char): nat
    requires Chars.IsDigit(a) && Chars.IsDigit(b)
  {
    10 * Chars.DigitValue(a) + Chars.DigitValue(b)
  }

  /** The area part `(1[1-5]|2[1-3]|3[1-7]|4[1-6]|5[0-4]|6[1-5]|82|[7-9]1)`. */
  predicate AreaPrefix(a: char, b: char)
  {
    (a == '1' && '1' <= b <= '5') || (a == '2' && '1' <= b <= '3') || (a == '3' && '1' <= b <= '7')
    || (a == '4' && '1' <= b <= '6') || (a == '5' && '0' <= b <= '4') || (a == '6' && '1' <= b <= '5')
    || (a == '8' && b == '2') || ('7' <= a <= '9' && b == '1')
  }

  /** `(19|20)`. */
  predicate Century(a: char, b: char) { (a == '1' && b == '9') || (a == '2' && b == '0') }

  /** `(0[48]|[2468][048]|[13579][26])`: the two-digit years of a leap year. */
  predicate LeapTail(a: char, b: char)
  {
    (a == '0' && (b == '4' || b == '8')) || (a in "2468" && b in "048") || (a in "13579" && b in "26")
  }

  /** `(0[1-9]|[12][0-9]|3[01])` and its 30- and 28-day variants. */
  predicate DayUpTo(a: char, b: char, last: nat)
  {
    (a == '0' && '1' <= b <= '9') || ((a == '1' || a == '2') && Chars.IsDigit(b)
      && (a == '1' || last >= 29 || b <= '8'))
    || (last >= 30 && a == '3' && (b == '0' || (last == 31 && b == '1')))
  }

  /** `tdStr`: a month and a day, February ending at the 28th. */
  predicate MonthDay(m0: char, m1: char, d0: char, d1: char)
  {
    (((m0 == '0' && m1 in "13578") || (m0 == '1' && m1 in "02")) && DayUpTo(d0, d1, 31))
    || (((m0 == '0' && m1 in "469") || (m0 == '1' && m1 == '1')) && DayUpTo(d0, d1, 30))
    || (m0 == '0' && m1 == '2' && DayUpTo(d0, d1, 28))
  }

  /** `((year tdStr)|(leap_y 0229)|20000229)` over the eight birth-date characters. */
  predicate BirthDate(p: string)
    requires |p| == 8
  {
    (Century(p[0], p[1]) && Chars.IsDigit(p[2]) && Chars.IsDigit(p[3]) && MonthDay(p[4], p[5], p[6], p[7]))
    || (Century(p[0], p[1]) && LeapTail(p[2], p[3]) && p[4..] == "0229")
    || p == "20000229"
  }

  /** A calendar date between 1 January 1900 and 31 December 2099. */
  predicate GregorianBirthDate(y: int, m: int, d: int)
  {
    1900 <= y <= 2099 && 1 <= m <= 12 && 1 <= d <= Gregorian.DaysInMonth(y, m)
  }

  /** The day pattern bounded by `last` accepts exactly the days 1 to `last`. */
  lemma DayUpToIsRange(a: char, b: char, last: nat)
    requires Chars.IsDigit(a) && Chars.IsDigit(b) && 28 <= last <= 31
    ensures DayUpTo(a, b, last) <==> 1 <= TwoDigits(a, b) <= last
  {
  }

  /** The month-and-day pattern accepts exactly the dates of a common year. */
  lemma MonthDayIsCommonYear(m0: char, m1: char, d0: char, d1: char, y: int)
    requires Chars.IsDigit(m0) && Chars.IsDigit(m1) && Chars.IsDigit(d0) && Chars.IsDigit(d1)
    requires !Gregorian.IsLeapYear(y)
    ensures MonthDay(m0, m1, d0, d1)
      <==> (1 <= TwoDigits(m0, m1) <= 12 && 1 <= TwoDigits(d0, d1) <= Gregorian.DaysInMonth(y, TwoDigits(m0, m1)))
  {
    DayUpToIsRange(d0, d1, 28);
    DayUpToIsRange(d0, d1, 30);
    DayUpToIsRange(d0, d1, 31);
    var m := TwoDigits(m0, m1);
    if 1 <= m <= 12 {
      var n := Gregorian.DaysInMonth(y, m);
      assert ((m0 == '0' && m1 in "13578") || (m0 == '1' && m1 in "02")) <==> n == 31;
      assert ((m0 == '0' && m1 in "469") || (m0 == '1' && m1 == '1')) <==> n == 30;
      assert (m0 == '0' && m1 == '2') <==> n == 28;
    }
  }

  /** The leap-year tails are the non-zero multiples of four. */
  lemma LeapTailIsMultipleOfFour(a: char, b: char)
    requires Chars.IsDigit(a) && Chars.IsDigit(b)
    ensures LeapTail(a, b) <==> TwoDigits(a, b) % 4 == 0 && TwoDigits(a, b) != 0
  {
    LeapTailDigits(a, b);
    LeapTailValues(Chars.DigitValue(a), Chars.DigitValue(b));
  }

  /** The leap-year tail pattern on the digit values. */
  predicate LeapTailValue(x: int, y: int)
  {
    (x == 0 && (y == 4 || y == 8)) || (x % 2 == 0 && x != 0 && (y == 0 || y == 4 || y == 8))
    || (x % 2 == 1 && (y == 2 || y == 6))
  }

  lemma LeapTailDigits(a: char, b: char)
    requires Chars.IsDigit(a) && Chars.IsDigit(b)
    ensures LeapTail(a, b) <==> LeapTailValue(Chars.DigitValue(a), Chars.DigitValue(b))
  {
    assert a in "2468" <==> a == '2' || a == '4' || a == '6' || a == '8';
    assert a in "13579" <==> a == '1' || a == '3' || a == '5' || a == '7' || a == '9';
    assert b in "048" <==> b == '0' || b == '4' || b == '8';
    assert b in "26" <==> b == '2' || b == '6';
  }

  lemma LeapTailValues(x: int, y: int)
    requires 0 <= x < 10 && 0 <= y < 10
    ensures LeapTailValue(x, y) <==> (10 * x + y) % 4 == 0 && 10 * x + y != 0
  {
    if x % 2 == 0 {
      assert (10 * x + y) % 4 == y % 4 by {
        assert 10 * x + y == 4 * (5 * (x / 2)) + y;
      }
    } else {
      assert (10 * x + y) % 4 == (y + 2) % 4 by {
        assert 10 * x + y == 4 * (5 * (x / 2) + 2) + y + 2;
      }
    }
  }

  /** In 1900 to 2099 the leap years are the non-zero multiples of four within a
    * century, and 2000. */
  lemma LeapYearsOfTheTwoCenturies(c: int, v: int)
    requires (c == 19 || c == 20) && 0 <= v < 100
    ensures Gregorian.IsLeapYear(100 * c + v) <==> (v % 4 == 0 && v != 0) || (c == 20 && v == 0)
  {
    assert (100 * c + v) % 4 == v % 4 by {
      assert 100 * c + v == 4 * (25 * c) + v;
    }
  }

  /** The birth-date part of the pattern accepts exactly the Gregorian dates of
    * 1900 to 2099, written as eight digits `yyyymmdd`. */
  lemma BirthDateIsGregorian(p: string)
    requires |p| == 8 && Chars.AllDigits(p)
    ensures BirthDate(p) <==> GregorianBirthDate(
      100 * TwoDigits(p[0], p[1]) + TwoDigits(p[2], p[3]), TwoDigits(p[4], p[5]), TwoDigits(p[6], p[7]))
  {
    var c, v := TwoDigits(p[0], p[1]), TwoDigits(p[2], p[3]);
    var y, m, d := 100 * c + v, TwoDigits(p[4], p[5]), TwoDigits(p[6], p[7]);
    CenturyDigits(p[0], p[1]);
    assert Century(p[0], p[1]) <==> 1900 <= y <= 2099;
    LeapDayDigits(p);
    MonthDayIsCommonYear(p[4], p[5], p[6], p[7], 2001);
    LeapTailIsMultipleOfFour(p[2], p[3]);
    if c == 19 || c == 20 {
      LeapYearsOfTheTwoCenturies(c, v);
      if 1 <= m <= 12 {
        assert m != 2 ==> Gregorian.DaysInMonth(y, m) == Gregorian.DaysInMonth(2001, m);
      }
    }
  }

  lemma CenturyDigits(a: char, b: char)
    requires Chars.IsDigit(a) && Chars.IsDigit(b)
    ensures Century(a, b) <==> TwoDigits(a, b) == 19 || TwoDigits(a, b) == 20
  {
  }

  /** "0229" and "20000229" read as dates. */
  lemma LeapDayDigits(p: string)
    requires |p| == 8 && Chars.AllDigits(p)
    ensures p[4..] == "0229" <==> TwoDigits(p[4], p[5]) == 2 && TwoDigits(p[6], p[7]) == 29
    ensures p == "20000229" <==>
      (TwoDigits(p[0], p[1]) == 20 && TwoDigits(p[2], p[3]) == 0
       && TwoDigits(p[4], p[5]) == 2 && TwoDigits(p[6], p[7]) == 29)
  {
    assert p == p[..4] + p[4..];
    assert p[4..] == [p[4], p[5], p[6], p[7]];
    assert p[..4] == [p[0], p[1], p[2], p[3]];
  }

  /** The whole pattern `area [0-9]{4} birthdate [0-9]{3}[0-9Xx]`. */
  predicate IdCardPattern(t: string)
  {
    |t| == 18 && AreaPrefix(t[0], t[1]) && Chars.AllDigits(t[2..6]) && BirthDate(t[6..14])
    && IdCardTail(t)
  }

  /** `[0-9]{3}[0-9Xx]` at positions 14 to 17. */
  predicate IdCardTail(t: string)
    requires |t| == 18
  {
    Chars.AllDigits(t[14..17]) && (Chars.IsDigit(t[17]) || t[17] == 'X' || t[17] == 'x')
  }

  /** The check characters indexed by the weighted sum modulo 11. */
  const CheckChars: string := "10X98765432"

  /** `toInt` of the one-character string at `p` (see `IdDigitIsToInt`). */
  function IdDigit(t: string, p: nat): nat
    requires p < |t|
  {
    DigitOrZero(t[p])
  }

  /** `substring(at: p, length: 1).kc.toInt` reads exactly `IdDigit`. */
  lemma IdDigitIsToInt(t: string, p: nat)
    requires p < |t|
    ensures StringNumbers.IntegerValue(t[p..p + 1]) == IdDigit(t, p)
  {
    assert t[p..p + 1] == [t[p]];
    StringNumbers.IntegerValueOfChar(t[p]);
  }

  /** The weighted sum as the source groups it (`t1 + t2 + ... + y2`). */
  function IdGroupedSum(t: string): int
    requires |t| >= 18
  {
    (IdDigit(t, 0) + IdDigit(t, 10)) * 7 + (IdDigit(t, 1) + IdDigit(t, 11)) * 9
    + (IdDigit(t, 2) + IdDigit(t, 12)) * 10 + (IdDigit(t, 3) + IdDigit(t, 13)) * 5
    + (IdDigit(t, 4) + IdDigit(t, 14)) * 8 + (IdDigit(t, 5) + IdDigit(t, 15)) * 4
    + (IdDigit(t, 6) + IdDigit(t, 16)) * 2
    + IdDigit(t, 7) + IdDigit(t, 8) * 6 + IdDigit(t, 9) * 3
  }

  /** The last character is the check character of the weighted sum (a lower-case
    * "x" accepted for "X"). */
  predicate CheckCharMatches(t: string)
    requires |t| == 18
  {
    CheckChars[IdGroupedSum(t) % 11] == Chars.ToUpper(t[17])
  }

  /** The pattern and the check character together. */
  predicate IdCardAccepted(t: string)
  {
    IdCardPattern(t) && CheckCharMatches(t)
  }

  /** `isValidIdCardLocal`: 18 characters that, trimmed of white space and newlines,
    * match the pattern and end in the check character of their weighted sum. */
  predicate IsValidIdCardLocal(s: string)
  {
    |s| == 18 && IdCardAccepted(StringTrim.TrimEnds(s, StringTrim.WhitespacesAndNewlines))
  }

  /** The weights of GB 11643-1999 for positions 0 to 16. */
  const Weights: seq<nat> := [7, 9, 10, 5, 8, 4, 2, 1, 6, 3, 7, 9, 10, 5, 8, 4, 2]

  function Pow2(k: nat): (p: nat)
    ensures p >= 1
  {
    if k == 0 then 1 else 2 * Pow2(k - 1)
  }

  /** The weight of position p is 2^(17 - p) mod 11, as ISO 7064 MOD 11-2 defines it. */
  lemma WeightsArePowersOfTwo()
    ensures |Weights| == 17
    ensures forall p :: 0 <= p < 17 ==> Weights[p] == Pow2(17 - p) % 11
  {
    Pow2Table();
    forall p | 0 <= p < 17 ensures Weights[p] == Pow2(17 - p) % 11 {
      if p < 9 {
        WeightsLow(p);
      } else {
        WeightsHigh(p);
      }
    }
  }

  lemma Pow2Table()
    ensures Pow2(1) == 2 && Pow2(2) == 4 && Pow2(3) == 8 && Pow2(4) == 16 && Pow2(5) == 32
    ensures Pow2(6) == 64 && Pow2(7) == 128 && Pow2(8) == 256 && Pow2(9) == 512
    ensures Pow2(10) == 1024 && Pow2(11) == 2048 && Pow2(12) == 4096 && Pow2(13) == 8192
    ensures Pow2(14) == 16384 && Pow2(15) == 32768 && Pow2(16) == 65536 && Pow2(17) == 131072
  {
    assert Pow2(4) == 16;
    assert Pow2(8) == 256;
    assert Pow2(12) == 4096;
    assert Pow2(16) == 65536;
  }

  lemma WeightsLow(p: nat)
    requires p < 9
    requires Pow2(9) == 512 && Pow2(10) == 1024 && Pow2(11) == 2048 && Pow2(12) == 4096 && Pow2(13) == 8192
    requires Pow2(14) == 16384 && Pow2(15) == 32768 && Pow2(16) == 65536 && Pow2(17) == 131072
    ensures Weights[p] == Pow2(17 - p) % 11
  {
  }

  lemma WeightsHigh(p: nat)
    requires 9 <= p < 17
    requires Pow2(1) == 2 && Pow2(2) == 4 && Pow2(3) == 8 && Pow2(4) == 16 && Pow2(5) == 32
    requires Pow2(6) == 64 && Pow2(7) == 128 && Pow2(8) == 256
    ensures Weights[p] == Pow2(17 - p) % 11
  {
  }

  /** The weighted sum of the first `k` digits with the standard weights. */
  function WeightedSum(t: string, k: nat): int
    requires k <= 17 && |t| >= 17
  {
    if k == 0 then 0 else WeightedSum(t, k - 1) + Weights[k - 1] * DigitOrZero(t[k - 1])
  }

  /** The source's grouping is the weighted sum with the table above. */
  lemma GroupedSumIsWeighted(t: string)
    requires |t| >= 18
    ensures IdGroupedSum(t) == WeightedSum(t, 17)
  {
    WeightedSumLow(t);
    WeightedSumHigh(t);
  }

  /** The first nine terms of the weighted sum. */
  lemma WeightedSumLow(t: string)
    requires |t| >= 18
    ensures WeightedSum(t, 9) == 7 * IdDigit(t, 0) + 9 * IdDigit(t, 1) + 10 * IdDigit(t, 2)
      + 5 * IdDigit(t, 3) + 8 * IdDigit(t, 4) + 4 * IdDigit(t, 5) + 2 * IdDigit(t, 6)
      + IdDigit(t, 7) + 6 * IdDigit(t, 8)
  {
    assert WeightedSum(t, 1) == WeightedSum(t, 0) + 7 * IdDigit(t, 0);
    assert WeightedSum(t, 2) == WeightedSum(t, 1) + 9 * IdDigit(t, 1);
    assert WeightedSum(t, 3) == WeightedSum(t, 2) + 10 * IdDigit(t, 2);
    assert WeightedSum(t, 4) == WeightedSum(t, 3) + 5 * IdDigit(t, 3);
    assert WeightedSum(t, 5) == WeightedSum(t, 4) + 8 * IdDigit(t, 4);
    assert WeightedSum(t, 6) == WeightedSum(t, 5) + 4 * IdDigit(t, 5);
    assert WeightedSum(t, 7) == WeightedSum(t, 6) + 2 * IdDigit(t, 6);
    assert WeightedSum(t, 8) == WeightedSum(t, 7) + 1 * IdDigit(t, 7);
    assert WeightedSum(t, 9) == WeightedSum(t, 8) + 6 * IdDigit(t, 8);
  }

  /** The other eight terms. */
  lemma WeightedSumHigh(t: string)
    requires |t| >= 18
    ensures WeightedSum(t, 17) == WeightedSum(t, 9) + 3 * IdDigit(t, 9) + 7 * IdDigit(t, 10)
      + 9 * IdDigit(t, 11) + 10 * IdDigit(t, 12) + 5 * IdDigit(t, 13) + 8 * IdDigit(t, 14)
      + 4 * IdDigit(t, 15) + 2 * IdDigit(t, 16)
  {
    assert WeightedSum(t, 10) == WeightedSum(t, 9) + 3 * IdDigit(t, 9);
    assert WeightedSum(t, 11) == WeightedSum(t, 10) + 7 * IdDigit(t, 10);
    assert WeightedSum(t, 12) == WeightedSum(t, 11) + 9 * IdDigit(t, 11);
    assert WeightedSum(t, 13) == WeightedSum(t, 12) + 10 * IdDigit(t, 12);
    assert WeightedSum(t, 14) == WeightedSum(t, 13) + 5 * IdDigit(t, 13);
    assert WeightedSum(t, 15) == WeightedSum(t, 14) + 8 * IdDigit(t, 14);
    assert WeightedSum(t, 16) == WeightedSum(t, 15) + 4 * IdDigit(t, 15);
    assert WeightedSum(t, 17) == WeightedSum(t, 16) + 2 * IdDigit(t, 16);
  }

  /** The numeric value of a check character: "X" stands for 10. */
  function CheckValue(c: char): nat
  {
    if c == 'X' || c == 'x' then 10 else DigitOrZero(c)
  }

  /** Every entry of the check table completes the sum to 1 modulo 11. */
  lemma CheckTableIsMod11_2(r: nat)
    requires r < 11
    ensures (r + CheckValue(CheckChars[r])) % 11 == 1
  {
  }

  /** An 18-character string whose trimmed form still has 18 characters is its own
    * trimmed form. */
  lemma TrimmedIsWhole(s: string)
    requires |s| == 18 && |StringTrim.TrimEnds(s, StringTrim.WhitespacesAndNewlines)| == 18
    ensures StringTrim.TrimEnds(s, StringTrim.WhitespacesAndNewlines) == s
  {
    StringTrim.TrimEndsFull(s, StringTrim.WhitespacesAndNewlines);
  }

  /** What the local check establishes once the trimming is seen to change nothing. */
  lemma IdCardLocalUntrimmed(s: string)
    requires IsValidIdCardLocal(s)
    ensures StringTrim.TrimEnds(s, StringTrim.WhitespacesAndNewlines) == s
    ensures IdCardAccepted(s)
  {
    TrimmedIsWhole(s);
  }

  /** The facts of an accepted number that the lemmas below need. */
  lemma AcceptedParts(t: string)
    requires IdCardAccepted(t)
    ensures |t| == 18 && CheckCharMatches(t)
    ensures Chars.IsDigit(t[17]) || t[17] == 'X' || t[17] == 'x'
    ensures Chars.AllDigits(t[..17])
  {
    BirthDateDigits(t[6..14]);
    AreaDigits(t[0], t[1]);
    FirstSeventeenDigits(t);
  }

  /** The area part is two digits. */
  lemma AreaDigits(a: char, b: char)
    requires AreaPrefix(a, b)
    ensures Chars.IsDigit(a) && Chars.IsDigit(b)
  {
  }

  /** The birth-date part is eight digits. */
  lemma BirthDateDigits(p: string)
    requires |p| == 8 && BirthDate(p)
    ensures Chars.AllDigits(p)
  {
    if p[4..] == "0229" {
      assert forall i :: 4 <= i < 8 ==> p[i] == p[4..][i - 4];
    }
  }

  /** Digits at positions 0 to 16, read off the parts of the pattern. */
  lemma FirstSeventeenDigits(t: string)
    requires |t| == 18 && Chars.IsDigit(t[0]) && Chars.IsDigit(t[1])
    requires Chars.AllDigits(t[2..6]) && Chars.AllDigits(t[6..14]) && Chars.AllDigits(t[14..17])
    ensures Chars.AllDigits(t[..17])
  {
    forall i | 0 <= i < 17 ensures Chars.IsDigit(t[..17][i]) {
      if 2 <= i < 6 {
        assert t[i] == t[2..6][i - 2];
      } else if 6 <= i < 14 {
        assert t[i] == t[6..14][i - 6];
      } else if 14 <= i {
        assert t[i] == t[14..17][i - 14];
      }
    }
  }

  /** A check character taken from the table at `w % 11` completes `w` to 1
    * modulo 11. */
  lemma CheckCompletes(w: int, c: char)
    requires Chars.IsDigit(c) || c == 'X' || c == 'x'
    requires CheckChars[w % 11] == Chars.ToUpper(c)
    ensures (w + CheckValue(c)) % 11 == 1
  {
    var r := w % 11;
    CheckTableIsMod11_2(r);
    CheckValueOfUpper(c, CheckChars[r]);
  }

  /** ISO 7064 MOD 11-2: the weighted sum of the first 17 digits plus the check
    * value is 1 modulo 11. */
  predicate Mod11_2(t: string)
    requires |t| == 18
  {
    (WeightedSum(t, 17) + CheckValue(t[17])) % 11 == 1
  }

  /** The check character condition is ISO 7064 MOD 11-2. */
  lemma CheckCharIsMod11_2(s: string)
    requires |s| == 18 && (Chars.IsDigit(s[17]) || s[17] == 'X' || s[17] == 'x')
    requires CheckCharMatches(s)
    ensures CheckChars[WeightedSum(s, 17) % 11] == Chars.ToUpper(s[17])
    ensures Mod11_2(s)
  {
    GroupedSumIsWeighted(s);
    CheckCompletes(WeightedSum(s, 17), s[17]);
  }

  /** A number the local check accepts satisfies ISO 7064 MOD 11-2: the weighted
    * sum plus the check value is 1 modulo 11. */
  lemma IdCardLocalIsMod11_2(s: string)
    requires IsValidIdCardLocal(s)
    ensures |s| == 18 && Mod11_2(s)
  {
    IdCardLocalUntrimmed(s);
    AcceptedParts(s);
    CheckCharIsMod11_2(s);
  }

  /** Check characters that agree up to upper-casing have the same value. */
  lemma CheckValueOfUpper(c: char, k: char)
    requires Chars.IsDigit(c) || c == 'X' || c == 'x'
    requires k == Chars.ToUpper(c)
    ensures CheckValue(c) == CheckValue(k)
  {
  }

  /** ...and it also matches the plain pattern `isValidIdCard` unless it ends in "x". */
  lemma IdCardLocalMatchesPattern(s: string)
    requires IsValidIdCardLocal(s) && s[17] != 'x'
    ensures StringValidate.IsValidIdCard(s)
  {
    IdCardLocalUntrimmed(s);
    AcceptedParts(s);
  }
}
