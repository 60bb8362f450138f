/** The Gregorian calendar facts that the date and ID-card models rely on. */
module Gregorian {

  predicate IsLeapYear(y: int)
  {
    y % 4 == 0 && (y % 100 != 0 || y % 400 == 0)
  }

  /** The number of days of month `m` (1 to 12) of year `y`. */
  function DaysInMonth(y: int, m: int): (d: nat)
    requires 1 <= m <= 12
    ensures 28 <= d <= 31
    ensures d == 31 <==> m in {1, 3, 5, 7, 8, 10, 12}
    ensures d == 30 <==> m in {4, 6, 9, 11}
    ensures d == 29 <==> m == 2 && IsLeapYear(y)
  {
    if m == 2 then (if IsLeapYear(y) then 29 else 28)
    else if m == 4 || m == 6 || m == 9 || m == 11 then 30
    else 31
  }
}
