/**
 * Date conversion and local time, in a zone of fixed offset.
 *
 * Words are 64 bits wide where the arithmetic wraps.
 */
module DateConvert {
  import opened Calendar
  import opened Options

  // ---------------------------------------------------------------- 64-bit words

  const HALF: int := 0x8000_0000_0000_0000
  const WHOLE: int := 0x1_0000_0000_0000_0000

  predicate Fits(x: int) {
    -HALF <= x < HALF
  }

  function Wrap(x: int): (r: int)
    ensures Fits(r) && (Fits(x) ==> r == x)
  {
    (x + HALF) % WHOLE - HALF
  }

  /** How many times a number goes round 64 bits. */
  function Rounds(x: int): int {
    (x + HALF) / WHOLE
  }

  /** Whole turns make no difference. */
  lemma WrapTurns(x: int, turns: int)
    ensures Wrap(x - turns * WHOLE) == Wrap(x)
  {
  }

  /** A word is its number less whole turns. */
  lemma WrapIs(x: int)
    ensures Wrap(x) == x - Rounds(x) * WHOLE
  {
  }

  /** Wrapping early or late makes no difference to a sum. */
  lemma WrapSum(a: int, b: int)
    ensures Wrap(Wrap(a) + b) == Wrap(a + b) && Wrap(a + Wrap(b)) == Wrap(a + b)
  {
    WrapIs(a);
    WrapIs(b);
    WrapTurns(a + b, Rounds(a));
    WrapTurns(a + b, Rounds(b));
    hide Wrap, Rounds;
  }

  /** Nor to a negation. */
  lemma NegatedWrap(x: int)
    ensures Wrap(-Wrap(x)) == Wrap(-x)
  {
    WrapIs(x);
    WrapTurns(-x, -Rounds(x));
    hide Wrap, Rounds;
  }

  /** Division and remainder that truncate toward zero. */
  function Quotient(a: int, b: nat): int
    requires b > 0
  {
    if a >= 0 then a / b else -(-a / b)
  }

  function Remainder(a: int, b: nat): int
    requires b > 0
  {
    a - b * Quotient(a, b)
  }

  // ---------------------------------------------------------------- local time

  /** A zone of fixed offset, and the times the calendar library can represent. */
  datatype Zone = Zone(east: int, first: int, last: int)

  /**
   * The offset is less than a day, the years 1970 to 2099 are representable, and a day more than what
   * is representable still fits a word.
   */
  predicate Ordinary(z: Zone) {
    && -86400 < z.east < 86400
    && -HALF + 86400 <= z.first <= -86400
    && 4102531200 <= z.last < HALF - 86400
  }

  datatype Tm = Tm(year: int, mon: int, mday: int, hour: int, min: int, sec: int, wday: int, isdst: bool)

  /** The second of a day, broken down; `mon` counts from 0, `year` from 1900, `wday` from Sunday. */
  function TmOf(day: int, second: int): Tm {
    var d := DateOf(day);
    Tm(d.year - 1900, d.month, d.day, second / 3600, second / 60 % 60, second % 60, (day + 4) % 7, false)
  }

  function LocalTime(t: int, z: Zone): Option<Tm> {
    if z.first <= t <= z.last then Some(TmOf((t + z.east) / 86400, (t + z.east) % 86400)) else None
  }

  // ---------------------------------------------------------------- conversion

  datatype Meridian = Am | Pm | H24
  datatype DstMode = On | Off | Maybe
  datatype Moment = Moment(month: int, day: int, year: int, hour: int, minutes: int, seconds: int)

  function ToSeconds(h: int, m: int, s: int, mer: Meridian): Option<int> {
    if !(0 <= m <= 59) || !(0 <= s <= 59) then None
    else
      match mer
      case H24 => if 0 <= h <= 23 then Some((h * 60 + m) * 60 + s) else None
      case Am => if 1 <= h <= 12 then Some((h * 60 + m) * 60 + s) else None
      case Pm => if 1 <= h <= 12 then Some(((h + 12) * 60 + m) * 60 + s) else None
  }

  /** The year meant: a sign is dropped, and a year below 1900 counts from 1900. */
  function FullYear(year: int): int {
    var y := if year < 0 then -year else year;
    if y < 1900 then y + 1900 else y
  }

  function DateAt(at: Moment): Date {
    Date(FullYear(at.year), at.month - 1, at.day)
  }

  /** How many days the count of years is off. */
  function Drift(year: int): int {
    if year < 2100 then 0 else if year == 2100 then -32 else 1
  }

  predicate Convertible(at: Moment, mer: Meridian) {
    && 1970 <= FullYear(at.year) <= 2106
    && ValidDate(DateAt(at))
    && ToSeconds(at.hour, at.minutes, at.seconds, mer).Some?
  }

  /** The Gregorian instant of `at`, `timezone` minutes west, in seconds from the epoch. */
  function Instant(at: Moment, mer: Meridian, timezone: int): int
    requires Convertible(at, mer)
  {
    86400 * DayNumber(DateAt(at)) + 60 * timezone + ToSeconds(at.hour, at.minutes, at.seconds, mer).value
  }

  function DstAdjusted(t: int, dst: DstMode, z: Zone): Option<int> {
    match dst
    case On => Some(Wrap(t - 3600))
    case Off => Some(t)
    case Maybe =>
      match LocalTime(t, z)
      case None => None
      case Some(tm) => Some(if tm.isdst then Wrap(t - 3600) else t)
  }

  /** What the conversion returns: the instant, off by the drift of its year. */
  function Converted(at: Moment, mer: Meridian, dst: DstMode, timezone: int, z: Zone): Option<int> {
    if !Convertible(at, mer) then None
    else DstAdjusted(Wrap(Instant(at, mer, timezone) + 86400 * Drift(FullYear(at.year))), dst, z)
  }

  method CountDays(year: int, within: int) returns (julian: int)
    requires 1970 <= year <= 2106
    ensures julian == within + YearStart(year) + Drift(year)
  {
    julian := within;
    var i := 1970;
    while i < year
      invariant 1970 <= i <= year
      invariant julian == within + 365 * (i - 1970) + (if year == 2100 then 0 else (i - 1) / 4 - 492)
    {
      CenturyUntil2106(year);
      julian := julian + 365 + (if i % 4 == 0 && (year % 100 != 0 || year % 400 == 0) then 1 else 0);
      i := i + 1;
    }
    YearStartClosed(year);
  }

  lemma CenturyUntil2106(year: int)
    requires 1970 <= year <= 2106
    ensures year % 100 != 0 || year % 400 == 0 <==> year != 2100
  {
  }

  /** Days, minutes west and seconds, added up as 64-bit words. */
  function Added(days: int, timezone: int, seconds: int): (r: int)
    ensures r == Wrap(86400 * days + 60 * timezone + seconds)
  {
    WrapSum(86400 * days, timezone * 60);
    WrapSum(86400 * days + timezone * 60, seconds);
    Wrap(Wrap(days * 86400 + Wrap(timezone * 60)) + seconds)
  }

  method ConvertDate(at: Moment) returns (days: Option<int>)
    ensures days == if 1970 <= FullYear(at.year) <= 2106 && ValidDate(DateAt(at))
                    then Some(DayNumber(DateAt(at)) + Drift(FullYear(at.year))) else None
  {
    var year := if at.year < 0 then -at.year else at.year;
    if year < 1900 {
      year := year + 1900;
    }
    var daysIn := DaysIn(year);
    if !(1970 <= year <= 2106) || !(1 <= at.month <= 12) {
      return None;
    }
    var mon := at.month - 1;
    if at.day < 1 || at.day > daysIn[mon] {
      return None;
    }
    var julian := CountDays(year, at.day - 1 + MonthStart(year, mon));
    return Some(julian);
  }

  /** The conversion counts years one by one, testing the target year for the century rule. */
  method Convert(at: Moment, mer: Meridian, dst: DstMode, timezone: int, z: Zone) returns (r: Option<int>)
    ensures r == Converted(at, mer, dst, timezone, z)
  {
    var days := ConvertDate(at);
    var seconds := ToSeconds(at.hour, at.minutes, at.seconds, mer);
    if days.None? || seconds.None? {
      return None;
    }
    r := DstAdjusted(Added(days.value, timezone, seconds.value), dst, z);
  }

  // ---------------------------------------------------------------- correctness of the conversion

  /** The conversion is the Gregorian one exactly up to 2099. */
  lemma ExactUntil2099(at: Moment, mer: Meridian, timezone: int, z: Zone)
    requires Convertible(at, mer)
    ensures Converted(at, mer, Off, timezone, z) == Some(Wrap(Instant(at, mer, timezone)))
       <==> FullYear(at.year) <= 2099
  {
    WrapDiffers(Instant(at, mer, timezone), 86400 * Drift(FullYear(at.year)));
  }

  lemma WrapDiffers(x: int, d: int)
    requires -HALF < d < HALF
    ensures Wrap(x + d) == Wrap(x) <==> d == 0
  {
    var j, k := (x + HALF) / WHOLE, (x + d + HALF) / WHOLE;
    assert Wrap(x) == x - j * WHOLE && Wrap(x + d) == x + d - k * WHOLE;
  }

  /** The time of day a twelve-hour clock shows: twelve comes before one. */
  function ClockHour(h: int, mer: Meridian): int {
    match mer
    case H24 => h
    case Am => h % 12
    case Pm => h % 12 + 12
  }

  /** The hour is read right except at twelve, am or pm, which is taken twelve hours late. */
  lemma TwelveIsLate(h: int, m: int, s: int, mer: Meridian)
    requires ToSeconds(h, m, s, mer).Some?
    ensures ToSeconds(h, m, s, mer).value == (ClockHour(h, mer) * 60 + m) * 60 + s <==> mer == H24 || h != 12
    ensures mer != H24 && h == 12 ==>
      ToSeconds(h, m, s, mer).value == ((ClockHour(h, mer) + 12) * 60 + m) * 60 + s
  {
  }

  /** In 2100 the conversion gives again the times of the last month of 2099. */
  lemma NewYear2100Collides(timezone: int, z: Zone)
    ensures Converted(Moment(1, 1, 2100, 0, 0, 0), H24, Off, timezone, z)
         == Converted(Moment(11, 30, 2099, 0, 0, 0), H24, Off, timezone, z)
  {
    hide Wrap, DstAdjusted, YearStart, MonthStart;
    NovemberBefore2100();
  }

  lemma NovemberBefore2100()
    ensures ValidDate(Date(2100, 0, 1)) && ValidDate(Date(2099, 10, 30))
    ensures DayNumber(Date(2100, 0, 1)) == DayNumber(Date(2099, 10, 30)) + 32
  {
    assert YearStart(2100) == YearStart(2099) + 365;
    MonthsFillYear(2099);
    assert MonthStart(2099, 12) == MonthStart(2099, 10) + 61;
  }

  predicate Before(a: Moment, b: Moment) {
    || Earlier(DateAt(a), DateAt(b))
    || (DateAt(a) == DateAt(b) && (a.hour < b.hour || (a.hour == b.hour &&
         (a.minutes < b.minutes || (a.minutes == b.minutes && a.seconds < b.seconds)))))
  }

  lemma SecondsInOrder(a: Moment, b: Moment)
    requires ToSeconds(a.hour, a.minutes, a.seconds, H24).Some? && ToSeconds(b.hour, b.minutes, b.seconds, H24).Some?
    ensures 0 <= ToSeconds(a.hour, a.minutes, a.seconds, H24).value < 86400
    ensures DateAt(a) == DateAt(b) && Before(a, b) ==>
      ToSeconds(a.hour, a.minutes, a.seconds, H24).value < ToSeconds(b.hour, b.minutes, b.seconds, H24).value
  {
  }

  lemma WrapInOrder(x: int, y: int)
    requires x < y < x + WHOLE
    ensures Wrap(x) < Wrap(y) <==> Rounds(x) == Rounds(y)
  {
    WrapIs(x);
    WrapIs(y);
    assert Rounds(y) == Rounds(x) || Rounds(y) == Rounds(x) + 1;
  }

  lemma DaysUntil2099(d: Date)
    requires ValidDate(d) && 1970 <= d.year <= 2099
    ensures 0 <= DayNumber(d) < 47500
  {
    InsideYear(d);
    YearStartClosed(d.year);
  }

  /**
   * From 1970 to 2099 later moments convert to later times, exactly unless a zone moves one of them
   * round the 64-bit word and not the other.
   */
  lemma ConversionInOrder(a: Moment, b: Moment, timezone: int, z: Zone)
    requires Convertible(a, H24) && Convertible(b, H24) && Before(a, b)
    requires FullYear(b.year) <= 2099
    ensures Converted(a, H24, Off, timezone, z).value < Converted(b, H24, Off, timezone, z).value
       <==> Rounds(Instant(a, H24, timezone)) == Rounds(Instant(b, H24, timezone))
  {
    hide Wrap, Rounds, DayNumber, ValidDate;
    SecondsInOrder(a, b);
    SecondsInOrder(b, a);
    DaysUntil2099(DateAt(a));
    DaysUntil2099(DateAt(b));
    if Earlier(DateAt(a), DateAt(b)) {
      DayNumbersInOrder(DateAt(a), DateAt(b));
    }
    WrapInOrder(Instant(a, H24, timezone), Instant(b, H24, timezone));
  }

  // ---------------------------------------------------------------- conversion and local time

  /** The moment a local time shows. */
  function MomentOf(tm: Tm): Moment {
    Moment(tm.mon + 1, tm.mday, tm.year, tm.hour, tm.min, tm.sec)
  }

  function TimeOfDay(tm: Tm): int {
    (tm.hour * 60 + tm.min) * 60 + tm.sec
  }

  lemma ClockOf(h: int, m: int, s: int)
    requires 0 <= h <= 23 && 0 <= m <= 59 && 0 <= s <= 59
    ensures var second := (h * 60 + m) * 60 + s;
      0 <= second < 86400 && second / 3600 == h && second / 60 % 60 == m && second % 60 == s
  {
    var second := (h * 60 + m) * 60 + s;
    assert second / 60 == h * 60 + m;
  }

  lemma ClockReads(second: int)
    requires 0 <= second < 86400
    ensures 0 <= second / 3600 <= 23
    ensures (second / 3600 * 60 + second / 60 % 60) * 60 + second % 60 == second
  {
    assert second / 60 / 60 == second / 3600;
  }

  lemma DayAndSecond(day: int, second: int)
    requires 0 <= second < 86400
    ensures (86400 * day + second) / 86400 == day && (86400 * day + second) % 86400 == second
  {
  }

  lemma TmAt(d: Date, h: int, m: int, s: int)
    requires ValidDate(d) && 0 <= h <= 23 && 0 <= m <= 59 && 0 <= s <= 59
    ensures TmOf(DayNumber(d), (h * 60 + m) * 60 + s)
         == Tm(d.year - 1900, d.month, d.day, h, m, s, (DayNumber(d) + 4) % 7, false)
  {
    ClockOf(h, m, s);
    DateOfDayNumber(d);
  }

  /** The local time at a given time of a given day. */
  lemma LocalTimeAt(t: int, d: Date, h: int, m: int, s: int, z: Zone)
    requires ValidDate(d) && 0 <= h <= 23 && 0 <= m <= 59 && 0 <= s <= 59
    requires z.first <= t <= z.last && t + z.east == 86400 * DayNumber(d) + ((h * 60 + m) * 60 + s)
    ensures LocalTime(t, z) == Some(Tm(d.year - 1900, d.month, d.day, h, m, s, (DayNumber(d) + 4) % 7, false))
  {
    hide TmOf, DayNumber, ValidDate;
    DayAndSecond(DayNumber(d), (h * 60 + m) * 60 + s);
    ClockOf(h, m, s);
    TmAt(d, h, m, s);
  }

  /** The date a local time shows. */
  function DateIn(tm: Tm): Date {
    Date(tm.year + 1900, tm.mon, tm.mday)
  }

  predicate ValidTm(tm: Tm) {
    && ValidDate(DateIn(tm)) && tm.wday == (DayNumber(DateIn(tm)) + 4) % 7 && !tm.isdst
    && 0 <= tm.hour <= 23 && 0 <= tm.min <= 59 && 0 <= tm.sec <= 59
  }

  lemma TmReads(day: int, second: int)
    requires 0 <= second < 86400
    ensures ValidTm(TmOf(day, second)) && DayNumber(DateIn(TmOf(day, second))) == day
    ensures TimeOfDay(TmOf(day, second)) == second
  {
    ClockReads(second);
  }

  /** A local time gives back its day and its second. */
  lemma LocalTimeReads(t: int, z: Zone)
    requires LocalTime(t, z).Some?
    ensures ValidTm(LocalTime(t, z).value)
    ensures t + z.east == 86400 * DayNumber(DateIn(LocalTime(t, z).value)) + TimeOfDay(LocalTime(t, z).value)
  {
    hide TmOf, DayNumber, ValidTm, TimeOfDay;
    TmReads((t + z.east) / 86400, (t + z.east) % 86400);
  }

  // ---------------------------------------------------------------- conversion by arithmetic

  /** The year a number stands for: without its sign, and counted from 1900 if it is less. */
  lemma FullYearMeans(y: int)
    requires y >= 0
    ensures FullYear(y) == FullYear(-y) == if y < 1900 then 1900 + y else y
  {
  }

  /**
   * What is converted, and to what, by arithmetic alone: a date that exists from 1970 to 2106 and a
   * time of day on the 24-hour clock; right up to 2099, 32 days low in 2100 and a day high after.
   */
  lemma ConvertedMeans(at: Moment, timezone: int, z: Zone)
    ensures var y, m := FullYear(at.year), at.month - 1;
      Converted(at, H24, Off, timezone, z)
      == if 1970 <= y <= 2106 && 1 <= at.month <= 12 && 1 <= at.day <= DaysBefore(y, m + 1) - DaysBefore(y, m)
            && 0 <= at.hour <= 23 && 0 <= at.minutes <= 59 && 0 <= at.seconds <= 59
         then
           var days := 365 * (y - 1970) + LeapDays(y) - 477 + DaysBefore(y, m) + at.day - 1;
           var off := if y < 2100 then 0 else if y == 2100 then -32 else 1;
           Some(Wrap(86400 * (days + off) + 60 * timezone + 3600 * at.hour + 60 * at.minutes + at.seconds))
         else None
  {
    hide DayNumber, ValidDate, DaysBefore, LeapDays, Wrap, FullYear;
    ValidDateMeans(DateAt(at));
    if ValidDate(DateAt(at)) {
      DayNumberIs(DateAt(at));
    }
  }

  lemma LocalWeekday(t: int, z: Zone)
    requires LocalTime(t, z).Some?
    ensures LocalTime(t, z).value.wday == ((t + z.east) / 86400 + 4) % 7
  {
    hide DateOf;
  }

  lemma IsLocal(t: int, z: Zone)
    requires z.first <= t <= z.last
    ensures LocalTime(t, z).Some?
  {
    hide TmOf;
  }

  lemma NextWeekday(d: int)
    ensures (d + 1 + 4) % 7 == ((d + 4) % 7 + 1) % 7
  {
  }

  lemma NextDay(x: int)
    ensures (x + 86400) / 86400 == x / 86400 + 1
  {
  }

  /** The epoch was a Thursday, and a day later is the next day of the week. */
  lemma EpochIsThursday(t: int, z: Zone)
    requires z.first <= t && t + 86400 <= z.last
    ensures LocalTime(t, z).Some? && LocalTime(t + 86400, z).Some?
    ensures 0 <= t + z.east < 86400 ==> LocalTime(t, z).value.wday == 4
    ensures LocalTime(t + 86400, z).value.wday == (LocalTime(t, z).value.wday + 1) % 7
  {
    hide LocalTime;
    IsLocal(t, z);
    IsLocal(t + 86400, z);
    LocalWeekday(t, z);
    LocalWeekday(t + 86400, z);
    NextDay(t + z.east);
    NextWeekday((t + z.east) / 86400);
  }
}
