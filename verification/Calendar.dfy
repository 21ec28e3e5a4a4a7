/**
 * The Gregorian calendar as the reference for date conversion: days counted from 1970-01-01
 * one year and one month at a time, and the date a day number stands for.
 */
module Calendar {
  predicate Leap(y: int) {
    y % 4 == 0 && (y % 100 != 0 || y % 400 == 0)
  }

  function YearLength(y: int): int {
    if Leap(y) then 366 else 365
  }

  /** Days from 1970-01-01 to the first day of year `y`. */
  function YearStart(y: int): int
    decreases if y < 1970 then 1970 - y else y - 1970
  {
    if y == 1970 then 0
    else if y > 1970 then YearStart(y - 1) + YearLength(y - 1)
    else YearStart(y + 1) - YearLength(y)
  }

  /** The lengths of the months of year `y`. */
  function DaysIn(y: int): (r: seq<int>)
    ensures |r| == 12 && forall m :: 0 <= m < 12 ==> 28 <= r[m] <= 31
  {
    [31, if Leap(y) then 29 else 28, 31, 30, 31, 30, 31, 31, 30, 31, 30, 31]
  }

  /** Days before month `m` (January is 0) in year `y`. */
  function MonthStart(y: int, m: nat): int
    requires m <= 12
  {
    if m == 0 then 0 else MonthStart(y, m - 1) + DaysIn(y)[m - 1]
  }

  datatype Date = Date(year: int, month: int, day: int)

  predicate ValidDate(d: Date) {
    0 <= d.month < 12 && 1 <= d.day <= DaysIn(d.year)[d.month]
  }

  function DayNumber(d: Date): int
    requires ValidDate(d)
  {
    YearStart(d.year) + MonthStart(d.year, d.month) + d.day - 1
  }

  predicate Earlier(a: Date, b: Date) {
    a.year < b.year || (a.year == b.year && (a.month < b.month || (a.month == b.month && a.day < b.day)))
  }

  // ---------------------------------------------------------------- order

  lemma MonthStartsInOrder(y: int, m: nat, n: nat)
    requires m < n <= 12
    ensures MonthStart(y, m) + DaysIn(y)[m] <= MonthStart(y, n)
  {
    if n > m + 1 {
      MonthStartsInOrder(y, m, n - 1);
    }
  }

  lemma MonthsFillYear(y: int)
    ensures MonthStart(y, 12) == YearLength(y)
  {
    var february := DaysIn(y)[1];
    assert MonthStart(y, 1) == 31 && MonthStart(y, 2) == 31 + february;
    assert MonthStart(y, 4) == 92 + february;
    assert MonthStart(y, 6) == 153 + february;
    assert MonthStart(y, 8) == 215 + february;
    assert MonthStart(y, 10) == 276 + february;
  }

  lemma YearStartsInOrder(y: int, z: int)
    requires y < z
    ensures YearStart(y) + YearLength(y) <= YearStart(z)
    decreases z - y
  {
    assert YearStart(y + 1) == YearStart(y) + YearLength(y);
    if z > y + 1 {
      YearStartsInOrder(y + 1, z);
    }
  }

  lemma InsideYear(d: Date)
    requires ValidDate(d)
    ensures YearStart(d.year) <= DayNumber(d) < YearStart(d.year) + YearLength(d.year)
  {
    MonthsFillYear(d.year);
    MonthStartsInOrder(d.year, d.month, 12);
    if d.month > 0 {
      MonthStartsInOrder(d.year, 0, d.month);
    }
  }

  /** Day numbers keep the order of dates. */
  lemma DayNumbersInOrder(a: Date, b: Date)
    requires ValidDate(a) && ValidDate(b) && Earlier(a, b)
    ensures DayNumber(a) < DayNumber(b)
  {
    if a.year < b.year {
      InsideYear(a);
      InsideYear(b);
      YearStartsInOrder(a.year, b.year);
    } else if a.month < b.month {
      MonthStartsInOrder(a.year, a.month, b.month);
    }
  }

  lemma DayNumberIsUnique(a: Date, b: Date)
    requires ValidDate(a) && ValidDate(b) && DayNumber(a) == DayNumber(b)
    ensures a == b
  {
    if Earlier(a, b) {
      DayNumbersInOrder(a, b);
    } else if Earlier(b, a) {
      DayNumbersInOrder(b, a);
    }
  }

  // ---------------------------------------------------------------- the date of a day

  function YearFrom(y: int, day: int): (r: int)
    requires YearStart(y) <= day
    ensures YearStart(r) <= day < YearStart(r + 1)
    decreases day - YearStart(y)
  {
    if day < YearStart(y + 1) then y else YearFrom(y + 1, day)
  }

  lemma {:induction false} YearStartBounds(n: nat)
    ensures YearStart(1970 + n) <= 366 * n && YearStart(1970 - n) <= -365 * n
  {
    if n > 0 {
      YearStartBounds(n - 1);
    }
  }

  /** A year starting no later than `day`. */
  function EarlyYear(day: int): (y: int)
    ensures YearStart(y) <= day
  {
    if day >= 0 then
      YearStartBounds(day / 366);
      1970 + day / 366
    else
      YearStartBounds(-(day / 365));
      1970 + day / 365
  }

  function MonthFrom(y: int, m: nat, day: int): (r: nat)
    requires m < 12 && MonthStart(y, m) <= day < YearLength(y)
    ensures r < 12 && MonthStart(y, r) <= day < MonthStart(y, r + 1)
    decreases 12 - m
  {
    MonthsFillYear(y);
    if day < MonthStart(y, m + 1) then m else MonthFrom(y, m + 1, day)
  }

  function DateOf(day: int): (d: Date)
    ensures ValidDate(d) && DayNumber(d) == day
  {
    var y := YearFrom(EarlyYear(day), day);
    var m := MonthFrom(y, 0, day - YearStart(y));
    Date(y, m, day - YearStart(y) - MonthStart(y, m) + 1)
  }

  /** Every date is the date of its day number. */
  lemma DateOfDayNumber(d: Date)
    requires ValidDate(d)
    ensures DateOf(DayNumber(d)) == d
  {
    DayNumberIsUnique(DateOf(DayNumber(d)), d);
  }

  // ---------------------------------------------------------------- closed form

  /** Until 2106 every fourth year is a leap year but 2100. */
  lemma {:induction false} YearStartClosed(y: int)
    requires 1970 <= y <= 2106
    ensures YearStart(y) == 365 * (y - 1970) + (y - 1) / 4 - 492 - (if y > 2100 then 1 else 0)
  {
    if y > 1970 {
      YearStartClosed(y - 1);
      LeapUntil2106(y - 1);
    }
  }

  lemma LeapUntil2106(y: int)
    requires 1970 <= y <= 2106
    ensures Leap(y) <==> y % 4 == 0 && y != 2100
  {
    assert y % 100 == 0 <==> y == 2000 || y == 2100;
  }

  // ---------------------------------------------------------------- the Gregorian calendar by arithmetic

  /** How many years before `y` are multiples of `n`. */
  function Every(y: int, n: int): int
    requires n > 0
  {
    (y - 1) / n
  }

  /** How many years before `y`, counted from the year 1, are leap years. */
  function LeapDays(y: int): int {
    Every(y, 4) - Every(y, 100) + Every(y, 400)
  }

  function LeapDay(y: int): int {
    if (y % 4 == 0 && y % 100 != 0) || y % 400 == 0 then 1 else 0
  }

  /** Days before month `m` of year `y`: from March on the months run 31, 30, 31, 30, 31 over and over. */
  function DaysBefore(y: int, m: int): int {
    if m <= 1 then 31 * m else 59 + LeapDay(y) + (153 * (m - 2) + 2) / 5
  }

  lemma MonthLength(y: int, m: nat)
    requires m < 12
    ensures DaysIn(y)[m] == if m == 1 then 28 + LeapDay(y) else if m in {3, 5, 8, 10} then 30 else 31
  {
  }

  lemma NextMonth(y: int, m: nat)
    requires m < 12
    ensures DaysBefore(y, m + 1) == DaysBefore(y, m) + DaysIn(y)[m]
  {
    hide DaysIn, LeapDay;
    MonthLength(y, m);
    if m >= 2 {
      MonthLengths(m);
    }
  }

  /** From March on. */
  lemma MonthLengths(m: nat)
    requires 2 <= m < 12
    ensures (153 * (m - 1) + 2) / 5 - (153 * (m - 2) + 2) / 5 == if m in {3, 5, 8, 10} then 30 else 31
  {
  }

  lemma MonthStartIs(y: int, m: nat)
    requires m <= 12
    ensures MonthStart(y, m) == DaysBefore(y, m)
  {
    if m > 0 {
      MonthStartIs(y, m - 1);
      NextMonth(y, m - 1);
      hide DaysBefore, DaysIn;
    }
  }

  /** A date exists exactly if its day is within the month. */
  lemma ValidDateMeans(d: Date)
    ensures ValidDate(d) <==>
      0 <= d.month < 12 && 1 <= d.day <= DaysBefore(d.year, d.month + 1) - DaysBefore(d.year, d.month)
  {
    hide DaysBefore, DaysIn;
    if 0 <= d.month < 12 {
      MonthStartIs(d.year, d.month);
      MonthStartIs(d.year, d.month + 1);
    }
  }

  function IsMultiple(y: int, n: int): int
    requires n > 0
  {
    if y % n == 0 then 1 else 0
  }

  lemma EveryNext(y: int)
    ensures Every(y + 1, 4) == Every(y, 4) + IsMultiple(y, 4)
    ensures Every(y + 1, 100) == Every(y, 100) + IsMultiple(y, 100)
    ensures Every(y + 1, 400) == Every(y, 400) + IsMultiple(y, 400)
  {
    EveryFourth(y);
    EveryHundredth(y);
    EveryFourHundredth(y);
  }

  lemma EveryFourth(y: int)
    ensures Every(y + 1, 4) == Every(y, 4) + IsMultiple(y, 4)
  {
  }

  lemma EveryHundredth(y: int)
    ensures Every(y + 1, 100) == Every(y, 100) + IsMultiple(y, 100)
  {
  }

  lemma EveryFourHundredth(y: int)
    ensures Every(y + 1, 400) == Every(y, 400) + IsMultiple(y, 400)
  {
  }

  lemma OfFourHundred(y: int)
    requires y % 400 == 0
    ensures y % 100 == 0
  {
    var q := y / 400;
    assert y == 100 * (4 * q);
  }

  lemma OfHundred(y: int)
    requires y % 100 == 0
    ensures y % 4 == 0
  {
    var q := y / 100;
    assert y == 4 * (25 * q);
  }

  lemma LeapDayIs(y: int)
    ensures LeapDay(y) == IsMultiple(y, 4) - IsMultiple(y, 100) + IsMultiple(y, 400)
  {
    if y % 400 == 0 {
      OfFourHundred(y);
    }
    if y % 100 == 0 {
      OfHundred(y);
    }
  }

  lemma LeapDaysNext(y: int)
    ensures LeapDays(y + 1) == LeapDays(y) + LeapDay(y)
  {
    hide Every, IsMultiple, LeapDay;
    EveryNext(y);
    LeapDayIs(y);
  }

  lemma {:induction false} YearStartIs(y: int)
    ensures YearStart(y) == 365 * (y - 1970) + LeapDays(y) - 477
    decreases if y < 1970 then 1970 - y else y - 1970
  {
    hide LeapDays, LeapDay;
    if y > 1970 {
      YearStartIs(y - 1);
      LeapDaysNext(y - 1);
      YearLengthIs(y - 1);
    } else if y < 1970 {
      YearStartIs(y + 1);
      LeapDaysNext(y);
      YearLengthIs(y);
    } else {
      LeapDaysUntil1970();
    }
  }

  lemma LeapDaysUntil1970()
    ensures LeapDays(1970) == 477
  {
  }

  lemma YearLengthIs(y: int)
    ensures YearLength(y) == 365 + LeapDay(y)
  {
  }

  /** The day number of a date, by arithmetic. */
  lemma DayNumberIs(d: Date)
    requires ValidDate(d)
    ensures DayNumber(d) == 365 * (d.year - 1970) + LeapDays(d.year) - 477 + DaysBefore(d.year, d.month) + d.day - 1
  {
    hide YearStart, MonthStart, LeapDays, DaysBefore, DaysIn;
    YearStartIs(d.year);
    MonthStartIs(d.year, d.month);
  }
}
