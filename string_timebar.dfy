/**
 * Seconds and time bars in String+Ex.swift: `secondsToTimebar(style)` renders a
 * number of seconds as `hh:mm:ss`, `mm:ss` or `ss`, and `timebarToSeconds` reads
 * such a bar back (full-width colons accepted).
 */
module StringTimebar {
  import opened Wrappers
  import Chars
  import StringNumbers
  import StringSearch
  import StringValidate

  /** `String.TimebarStyle`. */
  datatype TimebarStyle = Hour | Minute | Second | Normal

  /** The full-width colon U+FF1A. */
  const WideColon: char := '\U{FF1A}'

  /** `replacingOccurrences(of: [a], with: [b])`. */
  function ReplaceChar(s: string, a: char, b: char): (r: string)
    ensures |r| == |s|
    ensures forall i :: 0 <= i < |s| ==> r[i] == if s[i] == a then b else s[i]
  {
    seq(|s|, i requires 0 <= i < |s| => if s[i] == a then b else s[i])
  }

  /** After the replacement no `a` is left, and a text without `a` is unchanged. */
  lemma ReplaceCharRemoves(s: string, a: char, b: char)
    requires a != b
    ensures a !in ReplaceChar(s, a, b)
    ensures a !in s ==> ReplaceChar(s, a, b) == s
  {
    var r := ReplaceChar(s, a, b);
    assert forall i :: 0 <= i < |r| ==> r[i] != a;
  }

  /** `String(format: "%02d", k)`: at least two digits, zero-padded; exactly two
    * below 100, a single digit getting a leading `0`. */
  function Pad2(k: nat): (r: string)
    ensures |r| >= 2 && Chars.AllDigits(r) && Chars.DigitsValue(r) == k
    ensures k < 100 ==> |r| == 2
    ensures k < 10 ==> r == ['0', Chars.DigitChar(k)]
    ensures k >= 10 ==> r == Chars.NatToDecimal(k)
  {
    Chars.DecimalRoundTrip(k);
    assert 10 <= k < 100 ==> |Chars.NatToDecimal(k)| == 2 by {
      if 10 <= k < 100 {
        Chars.NatToDecimalLength(k, 2);
      }
    }
    if k < 10 then
      var r := ['0', Chars.DigitChar(k)];
      assert r[..1] == ['0'];
      r
    else Chars.NatToDecimal(k)
  }

  /** The hours, minutes and seconds of a positive count, as the source splits it:
    * `minute = seconds / 60`, and when that reaches 60 the hours are taken out. */
  function Fields(n: int): (hms: (nat, nat, nat))
    requires n > 0
    ensures hms.1 < 60 && hms.2 < 60
    ensures 3600 * hms.0 + 60 * hms.1 + hms.2 == n
  {
    var second := n % 60;
    var minute := n / 60;
    if minute >= 60 then (minute / 60, minute - (minute / 60) * 60, second) else (0, minute, second)
  }

  /** `secondsToTimebar(style)` of the text `s` (read with `integerValue`). Zero or
    * a negative count gives "00：00" (full-width colon) whatever the style. */
  function SecondsToTimebar(s: string, style: TimebarStyle): (r: string)
    ensures StringNumbers.IntegerValue(s) <= 0 ==> r == ['0', '0', WideColon, '0', '0']
    ensures StringNumbers.IntegerValue(s) > 0 ==> (|r| >= 2
      && forall i :: 0 <= i < |r| ==> Chars.IsDigit(r[i]) || r[i] == ':')
  {
    var seconds := StringNumbers.IntegerValue(s);
    if seconds <= 0 then ['0', '0', WideColon, '0', '0']
    else
      var second := seconds % 60;
      if style == Second then Pad2(seconds)
      else if style == Minute then Pad2(seconds / 60) + ":" + Pad2(second)
      else
        var (hour, minute, _) := Fields(seconds);
        if style == Hour || hour > 0 then Pad2(hour) + ":" + Pad2(minute) + ":" + Pad2(second)
        else if minute > 0 then Pad2(minute) + ":" + Pad2(second)
        else Pad2(second)
  }

  /** In the `.hour` style a positive count `n` is `hh:mm:ss` with `mm` and `ss`
    * below 60 and `hh * 3600 + mm * 60 + ss == n`. */
  lemma HourStyleFields(n: nat) returns (hh: nat, mm: nat, ss: nat)
    requires n > 0
    ensures SecondsToTimebar(Chars.NatToDecimal(n), Hour) == Pad2(hh) + ":" + Pad2(mm) + ":" + Pad2(ss)
    ensures mm < 60 && ss < 60 && hh * 3600 + mm * 60 + ss == n
  {
    StringNumbers.IntegerValueOfDecimal(n);
    var f := Fields(n);
    hh, mm, ss := f.0, f.1, f.2;
  }

  /** Below 100 hours the `.hour` bar of a positive count is exactly eight
    * characters, `hh:mm:ss`. */
  lemma HourStyleLength(n: nat)
    requires 0 < n < 360000
    ensures |SecondsToTimebar(Chars.NatToDecimal(n), Hour)| == 8
  {
    var hh, mm, ss := HourStyleFields(n);
  }

  /** The `.normal` style drops leading zero fields: `hh:mm:ss` from an hour on,
    * `mm:ss` from a minute on, and only `ss` below that. */
  lemma NormalStyleDropsZeroFields(s: string)
    requires StringNumbers.IntegerValue(s) > 0
    ensures var n := StringNumbers.IntegerValue(s);
      (n >= 3600 ==> SecondsToTimebar(s, Normal) == SecondsToTimebar(s, Hour))
      && (60 <= n < 3600 ==> SecondsToTimebar(s, Normal) == SecondsToTimebar(s, Minute))
      && (n < 60 ==> SecondsToTimebar(s, Normal) == SecondsToTimebar(s, Second))
  {
    var n := StringNumbers.IntegerValue(s);
    var f := Fields(n);
    if n < 3600 {
      assert f.0 == 0 && f.1 == n / 60;
    }
  }

  /** What the `i`-th field adds: `w` times its value when it matches
    * `^-?[0-9]+$` and is positive, nothing otherwise (also when it is missing). */
  function Contribution(parts: seq<string>, i: nat, w: nat): (c: nat)
    ensures c > 0 ==> i < |parts| && StringValidate.IsValidInt(parts[i])
  {
    if i < |parts| && StringValidate.IsValidInt(parts[i]) then
      match StringNumbers.ParseInt(parts[i])
      case Some(v) => if v > 0 then v * w else 0
      case None => 0
    else 0
  }

  /** The number of seconds a time bar stands for. */
  function TimebarValue(s: string): nat
  {
    if s == [] then 0
    else
      var arrs := StringSearch.Split(ReplaceChar(s, WideColon, ':'), ":");
      Contribution(arrs, 0, 3600) + Contribution(arrs, 1, 60) + Contribution(arrs, 2, 1)
  }

  /** `timebarToSeconds`: hours, minutes and seconds of the colon-separated fields
    * added up and rendered in decimal. */
  method TimebarToSeconds(s: string) returns (r: string)
    ensures r == Chars.NatToDecimal(TimebarValue(s))
  {
    if s == [] {
      return "0";
    }
    var seconds: nat := 0;
    var arrs := StringSearch.Split(ReplaceChar(s, WideColon, ':'), ":");
    if |arrs| > 0 && StringValidate.IsValidInt(arrs[0]) {
      var h := StringNumbers.ParseInt(arrs[0]);
      if h.Some? && h.value > 0 {
        seconds := seconds + h.value * 60 * 60;
      }
    }
    assert seconds == Contribution(arrs, 0, 3600);
    if |arrs| > 1 && StringValidate.IsValidInt(arrs[1]) {
      var m := StringNumbers.ParseInt(arrs[1]);
      if m.Some? && m.value > 0 {
        seconds := seconds + m.value * 60;
      }
    }
    assert seconds == Contribution(arrs, 0, 3600) + Contribution(arrs, 1, 60);
    if |arrs| > 2 && StringValidate.IsValidInt(arrs[2]) {
      var sec := StringNumbers.ParseInt(arrs[2]);
      if sec.Some? && sec.value > 0 {
        seconds := seconds + sec.value;
      }
    }
    return Chars.NatToDecimal(seconds);
  }

  /** A zero-padded field is a valid integer and contributes its value. */
  lemma PaddedContribution(parts: seq<string>, i: nat, k: nat, w: nat)
    requires i < |parts| && parts[i] == Pad2(k)
    ensures Contribution(parts, i, w) == k * w
  {
    assert StringNumbers.ParseInt(parts[i]) == Some(k);
  }

  /** "00：00" reads back as no seconds at all. */
  lemma ZeroBarIsZero()
    ensures TimebarValue(['0', '0', WideColon, '0', '0']) == 0
  {
    var t := ReplaceChar(['0', '0', WideColon, '0', '0'], WideColon, ':');
    assert t == "00" + [':'] + "00";
    StringSearch.SplitAfterCharFree("00", ':', "00");
    StringSearch.SplitOnAbsentChar("00", ':');
    PaddedContribution(["00", "00"], 0, 0, 3600);
    PaddedContribution(["00", "00"], 1, 0, 60);
  }

  /** Round trip: reading back the `.hour` bar of `n` seconds gives `n`. */
  lemma TimebarRoundTrip(n: nat)
    ensures TimebarValue(SecondsToTimebar(Chars.NatToDecimal(n), Hour)) == n
  {
    if n == 0 {
      StringNumbers.IntegerValueOfDecimal(0);
      ZeroBarIsZero();
    } else {
      var hh, mm, ss := HourStyleFields(n);
      var bar := Pad2(hh) + ":" + Pad2(mm) + ":" + Pad2(ss);
      assert WideColon !in bar && ':' !in Pad2(hh) && ':' !in Pad2(mm) && ':' !in Pad2(ss);
      ReplaceCharRemoves(bar, WideColon, ':');
      StringSearch.SplitThree(Pad2(hh), Pad2(mm), Pad2(ss), ':');
      var parts := [Pad2(hh), Pad2(mm), Pad2(ss)];
      PaddedContribution(parts, 0, hh, 3600);
      PaddedContribution(parts, 1, mm, 60);
      PaddedContribution(parts, 2, ss, 1);
    }
  }
}
