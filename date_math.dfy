/**
 * The calendar arithmetic of Date+Ex.swift that does not depend on Calendar
 * internals: month and year rollover of `currentMonthDate`, `previousMonthDate`
 * and `nextMonthDate`; the seven-day week of `weeksNumber` and
 * `weeksDetailNumber`; `dateWeekday`; `timestampToDate`; and the "time ago"
 * buckets of `dateToCommentBar`.
 *
 * A date is handled in one of three forms: its `[.year, .month, .day]`
 * components (`YMD`); a day number counted from 1970-01-01 in the calendar's
 * time zone, where the week functions only ever move by whole days and keep
 * only the day components of their results; or a time interval in seconds.
 * The weekday of a day number is the Gregorian one (1970-01-01 was a Thursday).
 */
module DateMath {
  import opened Wrappers
  import Gregorian
  import Chars
  import Arith

  // ---------------------------------------------------------------------------
  // Month rollover
  // ---------------------------------------------------------------------------

  /** The `[.year, .month, .day]` components of a date. */
  datatype YMD = YMD(year: int, month: int, day: int)

  /** Components that name a day of the Gregorian calendar. */
  predicate ValidDate(c: YMD)
  {
    1 <= c.month <= 12 && 1 <= c.day <= Gregorian.DaysInMonth(c.year, c.month)
  }

  /** The months of all years on one line: consecutive months are one apart. */
  function MonthNumber(year: int, month: int): int
  {
    year * 12 + (month - 1)
  }

  /** A month number belongs to exactly one (year, month). */
  lemma MonthNumberInjective(y1: int, m1: int, y2: int, m2: int)
    requires 1 <= m1 <= 12 && 1 <= m2 <= 12
    requires MonthNumber(y1, m1) == MonthNumber(y2, m2)
    ensures y1 == y2 && m1 == m2
  {
    var v := MonthNumber(y1, m1);
    Arith.DivModUnique(v, 12, y1, m1 - 1);
    Arith.DivModUnique(v, 12, y2, m2 - 1);
  }

  /** The month before: January rolls back to December of the previous year. */
  function PreviousMonth(year: int, month: int): (r: (int, int))
    requires 1 <= month <= 12
    ensures 1 <= r.1 <= 12
    ensures MonthNumber(r.0, r.1) == MonthNumber(year, month) - 1
  {
    if month == 1 then (year - 1, 12) else (year, month - 1)
  }

  /** The month after: December rolls over to January of the next year. */
  function NextMonth(year: int, month: int): (r: (int, int))
    requires 1 <= month <= 12
    ensures 1 <= r.1 <= 12
    ensures MonthNumber(r.0, r.1) == MonthNumber(year, month) + 1
  {
    if month == 12 then (year + 1, 1) else (year, month + 1)
  }

  /** Stepping one month back and one forward, in either order, returns to the
    * same month. */
  lemma {:induction false} MonthStepsInverse(year: int, month: int)
    requires 1 <= month <= 12
    ensures var p := PreviousMonth(year, month); NextMonth(p.0, p.1) == (year, month)
    ensures var n := NextMonth(year, month); PreviousMonth(n.0, n.1) == (year, month)
  {
    var p := PreviousMonth(year, month);
    var pn := NextMonth(p.0, p.1);
    MonthNumberInjective(pn.0, pn.1, year, month);
    var n := NextMonth(year, month);
    var np := PreviousMonth(n.0, n.1);
    MonthNumberInjective(np.0, np.1, year, month);
  }

  /** `calendar.date(from:)` on components whose day may run past the end of
    * the month (up to day 31): the excess days carry into the next month, as
    * the lenient Gregorian calendar does. */
  function DateFrom(c: YMD): (d: YMD)
    requires 1 <= c.month <= 12 && 1 <= c.day <= 31
    ensures ValidDate(d)
    ensures ValidDate(c) ==> d == c
    ensures !ValidDate(c) ==> (d.year, d.month) == NextMonth(c.year, c.month)
    ensures !ValidDate(c) ==> d.day + Gregorian.DaysInMonth(c.year, c.month) == c.day
  {
    var n := Gregorian.DaysInMonth(c.year, c.month);
    if c.day <= n then c
    else
      var next := NextMonth(c.year, c.month);
      YMD(next.0, next.1, c.day - n)
  }

  /** The day is the last of its month. */
  predicate IsMonthEnd(d: YMD)
    requires 1 <= d.month <= 12
  {
    d.day == Gregorian.DaysInMonth(d.year, d.month)
  }

  /** `currentMonthDate(_:)`: the first day of the date's month, or with `isEnd`
    * its last day. */
  method CurrentMonthDate(base: YMD, isEnd: bool) returns (date: YMD)
    requires ValidDate(base)
    ensures ValidDate(date)
    ensures date.year == base.year && date.month == base.month
    ensures !isEnd ==> date.day == 1
    ensures isEnd ==> IsMonthEnd(date)
  {
    var components := base;
    components := components.(day := if isEnd then Gregorian.DaysInMonth(base.year, base.month) else 1);
    date := DateFrom(components);
  }

  /** `previousMonthDate(_:)` as written: the components move to the previous
    * month, but the month-end day is the length of the receiver's own month. */
  method PreviousMonthDateAsWritten(base: YMD, isEnd: bool) returns (date: YMD)
    requires ValidDate(base)
    ensures ValidDate(date)
    ensures var p := PreviousMonth(base.year, base.month);
      date == DateFrom(YMD(p.0, p.1, if isEnd then Gregorian.DaysInMonth(base.year, base.month) else 1))
  {
    var components := base;
    if components.month == 1 {
      components := components.(month := 12);
      components := components.(year := components.year - 1);
    } else {
      components := components.(month := components.month - 1);
    }
    components := components.(day := if isEnd then Gregorian.DaysInMonth(base.year, base.month) else 1);
    date := DateFrom(components);
  }

  /** `nextMonthDate(_:)` as written, with the same month-end day. */
  method NextMonthDateAsWritten(base: YMD, isEnd: bool) returns (date: YMD)
    requires ValidDate(base)
    ensures ValidDate(date)
    ensures var n := NextMonth(base.year, base.month);
      date == DateFrom(YMD(n.0, n.1, if isEnd then Gregorian.DaysInMonth(base.year, base.month) else 1))
  {
    var components := base;
    if components.month == 12 {
      components := components.(month := 1);
      components := components.(year := components.year + 1);
    } else {
      components := components.(month := components.month + 1);
    }
    components := components.(day := if isEnd then Gregorian.DaysInMonth(base.year, base.month) else 1);
    date := DateFrom(components);
  }

  /** The month-end day of the receiver's month overruns a shorter target month,
    * so the resulting date falls in the month after the target. */
  lemma MonthEndAsWrittenOverruns(base: YMD, target: (int, int))
    requires ValidDate(base) && 1 <= target.1 <= 12
    requires Gregorian.DaysInMonth(target.0, target.1) < Gregorian.DaysInMonth(base.year, base.month)
    ensures var d := DateFrom(YMD(target.0, target.1, Gregorian.DaysInMonth(base.year, base.month)));
      (d.year, d.month) == NextMonth(target.0, target.1) && d.day >= 1
  {
  }

  /** So `previousMonthDate(true)` from a month longer than the one before it
    * (March, May, July, October, December) stays in the receiver's own month:
    * from 2023-03-15 it gives 2023-03-03 instead of 2023-02-28. */
  lemma PreviousMonthEndAsWrittenStaysInMonth(base: YMD)
    requires ValidDate(base)
    requires var p := PreviousMonth(base.year, base.month);
      Gregorian.DaysInMonth(p.0, p.1) < Gregorian.DaysInMonth(base.year, base.month)
    ensures var p := PreviousMonth(base.year, base.month);
      var d := DateFrom(YMD(p.0, p.1, Gregorian.DaysInMonth(base.year, base.month)));
      d.year == base.year && d.month == base.month
  {
    MonthStepsInverse(base.year, base.month);
  }

  /** From 2023-03-15, the as-written components are 2023-02-31, which the
    * calendar reads as 2023-03-03. */
  lemma PreviousMonthEndAsWrittenExample()
    ensures DateFrom(YMD(2023, 2, Gregorian.DaysInMonth(2023, 3))) == YMD(2023, 3, 3)
  {
  }

  /** `previousMonthDate(_:)` as its documentation intends: the first or the
    * last day of the previous month. */
  method PreviousMonthDate(base: YMD, isEnd: bool) returns (date: YMD)
    requires ValidDate(base)
    ensures ValidDate(date)
    ensures (date.year, date.month) == PreviousMonth(base.year, base.month)
    ensures !isEnd ==> date.day == 1
    ensures isEnd ==> IsMonthEnd(date)
  {
    var components := base;
    if components.month == 1 {
      components := components.(month := 12);
      components := components.(year := components.year - 1);
    } else {
      components := components.(month := components.month - 1);
    }
    components := components.(day := if isEnd then Gregorian.DaysInMonth(components.year, components.month) else 1);
    date := DateFrom(components);
  }

  /** `nextMonthDate(_:)` as its documentation intends: the first or the last
    * day of the next month. */
  method NextMonthDate(base: YMD, isEnd: bool) returns (date: YMD)
    requires ValidDate(base)
    ensures ValidDate(date)
    ensures (date.year, date.month) == NextMonth(base.year, base.month)
    ensures !isEnd ==> date.day == 1
    ensures isEnd ==> IsMonthEnd(date)
  {
    var components := base;
    if components.month == 12 {
      components := components.(month := 1);
      components := components.(year := components.year + 1);
    } else {
      components := components.(month := components.month + 1);
    }
    components := components.(day := if isEnd then Gregorian.DaysInMonth(components.year, components.month) else 1);
    date := DateFrom(components);
  }

  // ---------------------------------------------------------------------------
  // Weeks
  // ---------------------------------------------------------------------------

  /** `Calendar`'s `.weekday` of a day number: 1 for Sunday up to 7 for
    * Saturday. */
  function Weekday(day: int): (w: int)
    ensures 1 <= w <= 7
  {
    (day + 4) % 7 + 1
  }

  /** `k` days later the weekday has moved `k` places round the week. */
  lemma WeekdayStep(day: int, k: int)
    ensures Weekday(day + k) == (Weekday(day) - 1 + k) % 7 + 1
  {
    var a := (day + 4) % 7;
    var q := (day + 4) / 7;
    assert day + 4 == q * 7 + a;
    var b := (a + k) % 7;
    var q' := (a + k) / 7;
    assert a + k == q' * 7 + b;
    Arith.DivModUnique(day + k + 4, 7, q + q', b);
  }

  /** `dateWeekday`: 0 for Sunday up to 6 for Saturday, repeating every seven
    * days. */
  function DateWeekday(day: int): (w: int)
    ensures 0 <= w <= 6
    ensures w == (day + 4) % 7
  {
    Weekday(day) - 1
  }

  lemma DateWeekdayPeriodic(day: int)
    ensures DateWeekday(day + 7) == DateWeekday(day)
    ensures DateWeekday(day + 1) == (DateWeekday(day) + 1) % 7
  {
    WeekdayStep(day, 7);
    WeekdayStep(day, 1);
  }

  /** `weeksNumber(_:firstWeekday:format:)` on day numbers: the first and the
    * last day of the week that holds the day `num` weeks after `base`, weeks
    * starting on `firstWeekday` (0 for Sunday). The offsets come from the
    * weekday of that day less `calendar.firstWeekday`, which is
    * `firstWeekday + 1`. */
  function WeeksNumber(base: int, num: int, firstWeekday: int): (r: (int, int))
    ensures r.1 - r.0 == 6
    ensures 0 <= firstWeekday <= 6 ==> Weekday(r.0) == firstWeekday + 1
    ensures 0 <= firstWeekday <= 6 ==>
      (r.0 <= base + 7 * num <= r.1 <==> Weekday(base + 7 * num) >= firstWeekday + 1)
  {
    var date := base + 7 * num;
    var first := firstWeekday + 1;
    var weekday := Weekday(date);
    var r := (date - (weekday - first), date + (6 - (weekday - first)));
    WeekStart(date, first);
    r
  }

  /** Going back `weekday - first` days lands on the weekday `first`. */
  lemma WeekStart(date: int, first: int)
    ensures 1 <= first <= 7 ==> Weekday(date - (Weekday(date) - first)) == first
  {
    if 1 <= first <= 7 {
      WeekdayStep(date, -(Weekday(date) - first));
      assert (Weekday(date) - 1 - (Weekday(date) - first)) % 7 == first - 1;
    }
  }

  /** When the day's weekday comes before the first weekday (a Sunday with weeks
    * starting on Monday), `weeksNumber` gives the week after the day. */
  lemma WeeksNumberSkipsAhead(base: int, num: int, firstWeekday: int)
    requires Weekday(base + 7 * num) < firstWeekday + 1
    ensures base + 7 * num < WeeksNumber(base, num, firstWeekday).0
  {
  }

  /** `weeksDetailNumber(_:firstWeekday:format:)` on day numbers: every day from
    * `startDay` to `endDay` days after the day `num` weeks from `base`. */
  method WeeksDetailNumber(base: int, num: int, firstWeekday: int) returns (items: seq<int>)
    ensures |items| == 7
    ensures forall k :: 0 <= k < 7 ==> items[k] == WeeksNumber(base, num, firstWeekday).0 + k
    ensures items[0] == WeeksNumber(base, num, firstWeekday).0
    ensures items[6] == WeeksNumber(base, num, firstWeekday).1
  {
    var date := base + 7 * num;
    var first := firstWeekday + 1;
    var weekday := Weekday(date);
    var startDay := first - weekday;
    var endDay := 6 - (weekday - first);
    items := [];
    var idx := startDay;
    while idx <= endDay
      invariant startDay <= idx <= endDay + 1
      invariant |items| == idx - startDay
      invariant forall k :: 0 <= k < |items| ==> items[k] == date + startDay + k
      decreases endDay - idx
    {
      items := items + [date + idx];
      idx := idx + 1;
    }
  }

  /** The seven days of a detailed week run through the weekdays in order,
    * starting on `firstWeekday`. */
  lemma WeekDetailWeekdays(base: int, num: int, firstWeekday: int, k: int)
    requires 0 <= firstWeekday <= 6 && 0 <= k < 7
    ensures Weekday(WeeksNumber(base, num, firstWeekday).0 + k) == (firstWeekday + k) % 7 + 1
  {
    WeekdayStep(WeeksNumber(base, num, firstWeekday).0, k);
  }

  // ---------------------------------------------------------------------------
  // Timestamps and the comment bar
  // ---------------------------------------------------------------------------

  /** `timestampToDate(_:)`, as seconds since 1970: ten characters are seconds,
    * thirteen are milliseconds. `doubleValue` is what `NSString.doubleValue`
    * reads from the text. `None` is the length error (the DEBUG build's
    * `fatalError`). */
  function TimestampToDate(timestamp: string, doubleValue: real): (d: Option<real>)
    ensures d == None <==> |timestamp| != 10 && |timestamp| != 13
    ensures d.Some? && |timestamp| == 10 ==> d.value == doubleValue
    ensures d.Some? && |timestamp| == 13 ==> d.value * 1000.0 == doubleValue
  {
    if |timestamp| != 10 && |timestamp| != 13 then None
    else Some(if |timestamp| == 10 then doubleValue else doubleValue / 1000.0)
  }

  /** A ten-digit second count printed by `"\(n)"` reads back as itself. */
  lemma TimestampSecondsRoundTrip(seconds: nat)
    requires Chars.Pow10(9) <= seconds < Chars.Pow10(10)
    ensures var s := Chars.NatToDecimal(seconds);
      TimestampToDate(s, Chars.DigitsValue(s) as real) == Some(seconds as real)
  {
    Chars.NatToDecimalLength(seconds, 10);
    Chars.DecimalRoundTrip(seconds);
  }

  /** A thirteen-digit millisecond count reads back as that many thousandths of
    * a second. */
  lemma TimestampMillisecondsRoundTrip(millis: nat)
    requires Chars.Pow10(12) <= millis < Chars.Pow10(13)
    ensures var s := Chars.NatToDecimal(millis);
      TimestampToDate(s, Chars.DigitsValue(s) as real) == Some(millis as real / 1000.0)
  {
    Chars.NatToDecimalLength(millis, 13);
    Chars.DecimalRoundTrip(millis);
  }

  /** The buckets of `dateToCommentBar(_:)`, each with its whole count of
    * units. */
  datatype CommentBar =
    | JustNow
    | MinutesAgo(n: nat)
    | HoursAgo(n: nat)
    | DaysAgo(n: nat)
    | MonthsAgo(n: nat)
    | YearsAgo(n: nat)

  const Minute: real := 60.0
  const Hour: real := 3600.0
  const Day: real := 86400.0
  /** A month of 30 days. */
  const Month: real := 2592000.0
  /** A year of 12 such months. */
  const Year: real := 31104000.0

  /** `n` whole units fit in `interval`, and `n + 1` do not. */
  predicate WholeUnits(interval: real, unit: real, n: nat)
  {
    n as real * unit <= interval < (n + 1) as real * unit
  }

  /** `NSNumber(value:).intValue` of a non-negative `Double`: its integer part. */
  function IntValue(x: real): (n: nat)
    requires x >= 0.0
    ensures n as real <= x < n as real + 1.0
  {
    x.Floor
  }

  /** The count of `unit`s in `interval`, as `dateToCommentBar` computes it. */
  function Units(interval: real, unit: real): (n: nat)
    requires interval >= 0.0 && unit > 0.0
    ensures WholeUnits(interval, unit, n)
  {
    var n := IntValue(interval / unit);
    UnitsOf(interval, unit, n);
    n
  }

  lemma UnitsOf(interval: real, unit: real, n: nat)
    requires unit > 0.0 && n as real <= interval / unit < n as real + 1.0
    ensures WholeUnits(interval, unit, n)
  {
    assert interval / unit * unit == interval;
  }

  /** `dateToCommentBar(_:)` on `interval`, the seconds from the date to now:
    * a negative interval or less than a minute is "just now"; then whole
    * minutes below an hour, whole hours below a day, whole days below 30 days,
    * whole 30-day months below 360 days, and whole 360-day years. */
  function CommentBucket(interval: real): (b: CommentBar)
    ensures b == JustNow <==> interval < Minute
    ensures b.MinutesAgo? <==> Minute <= interval < Hour
    ensures b.HoursAgo? <==> Hour <= interval < Day
    ensures b.DaysAgo? <==> Day <= interval < Month
    ensures b.MonthsAgo? <==> Month <= interval < Year
    ensures b.YearsAgo? <==> Year <= interval
    ensures b.MinutesAgo? ==> 1 <= b.n < 60 && WholeUnits(interval, Minute, b.n)
    ensures b.HoursAgo? ==> 1 <= b.n < 24 && WholeUnits(interval, Hour, b.n)
    ensures b.DaysAgo? ==> 1 <= b.n < 30 && WholeUnits(interval, Day, b.n)
    ensures b.MonthsAgo? ==> 1 <= b.n < 12 && WholeUnits(interval, Month, b.n)
    ensures b.YearsAgo? ==> 1 <= b.n && WholeUnits(interval, Year, b.n)
  {
    if interval < 0.0 then JustNow
    else if interval / Hour < 1.0 then
      var m := Units(interval, Minute);
      if m == 0 then JustNow else MinutesAgo(m)
    else if interval / Day < 1.0 then HoursAgo(Units(interval, Hour))
    else if interval / Month < 1.0 then DaysAgo(Units(interval, Day))
    else if interval / Year < 1.0 then MonthsAgo(Units(interval, Month))
    else YearsAgo(Units(interval, Year))
  }

  /** The words `dateToCommentBar(_:)` writes: "just now", and the unit words
    * after a count ("minutes ago", "hours ago", "days ago", "months ago",
    * "years ago"). */
  const JustNowText: string := "\U{521A}\U{521A}"
  const MinutesAgoWord: string := "\U{5206}\U{949F}\U{524D}"
  const HoursAgoWord: string := "\U{5C0F}\U{65F6}\U{524D}"
  const DaysAgoWord: string := "\U{5929}\U{524D}"
  const MonthsAgoWord: string := "\U{4E2A}\U{6708}\U{524D}"
  const YearsAgoWord: string := "\U{5E74}\U{524D}"

  /** The text `dateToCommentBar(_:)` returns: "just now" exactly below a
    * minute, otherwise the bucket's count followed by its unit word. */
  function CommentBarText(interval: real): (s: string)
    ensures s == JustNowText <==> interval < Minute
    ensures var b := CommentBucket(interval);
      && (b.MinutesAgo? ==> s == Counted(b.n, MinutesAgoWord))
      && (b.HoursAgo? ==> s == Counted(b.n, HoursAgoWord))
      && (b.DaysAgo? ==> s == Counted(b.n, DaysAgoWord))
      && (b.MonthsAgo? ==> s == Counted(b.n, MonthsAgoWord))
      && (b.YearsAgo? ==> s == Counted(b.n, YearsAgoWord))
  {
    match CommentBucket(interval)
    case JustNow => JustNowText
    case MinutesAgo(n) => Counted(n, MinutesAgoWord)
    case HoursAgo(n) => Counted(n, HoursAgoWord)
    case DaysAgo(n) => Counted(n, DaysAgoWord)
    case MonthsAgo(n) => Counted(n, MonthsAgoWord)
    case YearsAgo(n) => Counted(n, YearsAgoWord)
  }

  /** `"\(n)"` followed by the unit word: decimal digits that read back as `n`,
    * then the unit word. */
  function Counted(n: nat, unit: string): (s: string)
    ensures |s| > |unit| && Chars.IsDigit(s[0])
    ensures Chars.AllDigits(s[..|s| - |unit|]) && Chars.DigitsValue(s[..|s| - |unit|]) == n
    ensures s[|s| - |unit|..] == unit
  {
    var d := Chars.NatToDecimal(n);
    Chars.DecimalRoundTrip(n);
    assert (d + unit)[..|d|] == d;
    d + unit
  }

  /** Five minutes ago reads "5 minutes ago", two hours ago "2 hours ago". */
  lemma CommentBarTextExamples()
    ensures CommentBarText(300.0) == "5" + MinutesAgoWord
    ensures CommentBarText(7200.0) == "2" + HoursAgoWord
  {
    assert Units(300.0, Minute) == 5 by {
      assert WholeUnits(300.0, Minute, 5);
    }
    assert Units(7200.0, Hour) == 2 by {
      assert WholeUnits(7200.0, Hour, 2);
    }
  }
}
