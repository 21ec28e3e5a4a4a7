/**
 * Shifts of a time by months and by weekdays, in a zone of fixed offset.
 */
module DateShift {
  import opened Calendar
  import opened DateConvert
  import opened Options

  // ---------------------------------------------------------------- the shifts

  /** The distance from `start` to `future`, corrected for a change of the local hour. */
  function DstCorrect(start: int, future: int, z: Zone): Option<int> {
    match (LocalTime(start, z), LocalTime(future, z))
    case (Some(s), Some(f)) => Some(future - start + ((s.hour + 1) % 24 - (f.hour + 1) % 24) * 60 * 60)
    case _ => None
  }

  function RelativeMonth(start: int, months: int, timezone: int, z: Zone): Option<int> {
    if months == 0 then Some(0)
    else
      match LocalTime(start, z)
      case None => None
      case Some(tm) =>
        var month := Wrap(12 * tm.year + tm.mon + months);
        var at := Moment(Remainder(month, 12) + 1, tm.mday, Quotient(month, 12), tm.hour, tm.min, tm.sec);
        match Converted(at, H24, Maybe, timezone, z)
        case None => None
        case Some(t) => DstCorrect(start, t, z)
  }

  function RelativeDate(start: int, ordinal: int, number: int, z: Zone): Option<int> {
    match LocalTime(start, z)
    case None => None
    case Some(tm) =>
      var now := Wrap(start + Wrap(86400 * Remainder(number - tm.wday + 7, 7)));
      var weeks := if ordinal <= 0 then ordinal else ordinal - 1;
      DstCorrect(start, Wrap(now + Wrap(7 * 86400 * weeks)), z)
  }

  // ---------------------------------------------------------------- the shift by months

  /** The same day `months` months later, whether or not that month has it. */
  function SameDay(tm: Tm, months: int): Date {
    var month := 12 * tm.year + tm.mon + months;
    Date(1900 + month / 12, month % 12, tm.mday)
  }

  /** A local time with the date `d` and the same time of day. */
  function OnDate(tm: Tm, d: Date): Tm
    requires ValidDate(d)
  {
    Tm(d.year - 1900, d.month, d.day, tm.hour, tm.min, tm.sec, (DayNumber(d) + 4) % 7, false)
  }

  /** A time of day on a date in the years 1970 to 2099 is representable. */
  lemma InRange(d: Date, second: int, z: Zone)
    requires Ordinary(z) && ValidDate(d) && 1970 <= d.year <= 2099 && 0 <= second < 86400
    ensures z.first <= 86400 * DayNumber(d) + second - z.east <= z.last
  {
    InsideYear(d);
    YearStartClosed(d.year);
  }

  /** Two times whose local hours agree are not corrected. */
  lemma SameHour(start: int, future: int, z: Zone)
    requires LocalTime(start, z).Some? && LocalTime(future, z).Some?
    requires LocalTime(start, z).value.hour == LocalTime(future, z).value.hour
    ensures DstCorrect(start, future, z) == Some(future - start)
  {
    hide LocalTime;
  }

  lemma NeverAdjusted(t: int, z: Zone)
    requires LocalTime(t, z).Some?
    ensures DstAdjusted(t, Maybe, z) == Some(t)
  {
  }

  /** The time of day of `tm` on the date `d`, west of Greenwich by `west` minutes. */
  function Then(tm: Tm, d: Date, west: int): int
    requires ValidDate(d)
  {
    86400 * DayNumber(d) + TimeOfDay(tm) + 60 * west
  }

  function MomentOn(tm: Tm, d: Date): Moment {
    Moment(d.month + 1, d.day, d.year - 1900, tm.hour, tm.min, tm.sec)
  }

  predicate Matches(z: Zone, west: int) {
    Ordinary(z) && z.east == -60 * west
  }

  lemma LocalTimeThen(tm: Tm, d: Date, west: int, z: Zone)
    requires Matches(z, west) && ValidTm(tm) && ValidDate(d) && 1970 <= d.year <= 2099
    ensures LocalTime(Then(tm, d, west), z) == Some(OnDate(tm, d)) && Fits(Then(tm, d, west))
  {
    hide LocalTime, DayNumber, ValidDate;
    ClockOf(tm.hour, tm.min, tm.sec);
    InRange(d, TimeOfDay(tm), z);
    LocalTimeAt(Then(tm, d, west), d, tm.hour, tm.min, tm.sec, z);
  }

  lemma InstantOn(tm: Tm, d: Date, west: int)
    requires ValidTm(tm) && 1970 <= d.year <= 2099
    ensures Convertible(MomentOn(tm, d), H24) <==> ValidDate(d)
    ensures ValidDate(d) ==> Instant(MomentOn(tm, d), H24, west) == Then(tm, d, west)
    ensures Drift(FullYear(MomentOn(tm, d).year)) == 0
  {
    assert DateAt(MomentOn(tm, d)) == d;
  }

  /** Converting the time of day of `tm` on the date `d`. */
  lemma ConvertedOn(tm: Tm, d: Date, west: int, z: Zone)
    requires Matches(z, west) && ValidTm(tm) && 1970 <= d.year <= 2099
    ensures Converted(MomentOn(tm, d), H24, Maybe, west, z)
         == if ValidDate(d) then Some(Then(tm, d, west)) else None
  {
    InstantOn(tm, d, west);
    if ValidDate(d) {
      LocalTimeThen(tm, d, west, z);
      NeverAdjusted(Then(tm, d, west), z);
    }
  }

  /** From 1970 to 2099, converting a local time gives back the time it was taken from. */
  lemma ConversionUndoesLocalTime(t: int, west: int, z: Zone)
    requires Matches(z, west) && LocalTime(t, z).Some? && 70 <= LocalTime(t, z).value.year <= 199
    ensures Converted(MomentOf(LocalTime(t, z).value), H24, Maybe, west, z) == Some(t)
  {
    hide LocalTime, DayNumber, ValidDate, Converted;
    var tm := LocalTime(t, z).value;
    LocalTimeReads(t, z);
    ConvertedOn(tm, DateIn(tm), west, z);
    assert MomentOn(tm, DateIn(tm)) == MomentOf(tm);
  }

  /** From 1970 to 2099, the local time of a converted moment shows that moment. */
  lemma LocalTimeUndoesConversion(at: Moment, west: int, z: Zone)
    requires Matches(z, west) && Convertible(at, H24) && FullYear(at.year) <= 2099
    ensures var r := Converted(at, H24, Maybe, west, z);
      && r.Some? && LocalTime(r.value, z).Some?
      && MomentOf(LocalTime(r.value, z).value) == at.(year := FullYear(at.year) - 1900)
  {
    var d := DateAt(at);
    var tm := Tm(d.year - 1900, d.month, d.day, at.hour, at.minutes, at.seconds, (DayNumber(d) + 4) % 7, false);
    ConvertedOn(tm, d, west, z);
    LocalTimeThen(tm, d, west, z);
    SameMoment(at, MomentOn(tm, d), west, z);
  }

  /** Only the full year counts. */
  lemma SameMoment(a: Moment, b: Moment, west: int, z: Zone)
    requires FullYear(a.year) == FullYear(b.year) && a == b.(year := a.year)
    ensures Converted(a, H24, Maybe, west, z) == Converted(b, H24, Maybe, west, z)
  {
    hide Wrap, DstAdjusted, DayNumber, ValidDate, ToSeconds;
    assert DateAt(a) == DateAt(b);
    assert Convertible(a, H24) == Convertible(b, H24);
    if Convertible(a, H24) {
      assert Instant(a, H24, west) == Instant(b, H24, west);
    }
  }

  lemma TruncatedMonths(tm: Tm, months: int)
    requires ValidTm(tm) && 840 <= 12 * tm.year + tm.mon + months < 2400
    ensures var month := Wrap(12 * tm.year + tm.mon + months);
      Moment(Remainder(month, 12) + 1, tm.mday, Quotient(month, 12), tm.hour, tm.min, tm.sec)
      == MomentOn(tm, SameDay(tm, months))
    ensures 1970 <= SameDay(tm, months).year <= 2099
  {
  }

  lemma MonthShiftConverts(start: int, tm: Tm, months: int, west: int, z: Zone)
    requires LocalTime(start, z) == Some(tm) && ValidTm(tm) && months != 0
    requires 840 <= 12 * tm.year + tm.mon + months < 2400
    ensures RelativeMonth(start, months, west, z)
         == match Converted(MomentOn(tm, SameDay(tm, months)), H24, Maybe, west, z)
            case None => None
            case Some(t) => DstCorrect(start, t, z)
  {
    hide LocalTime, Converted, DstCorrect, Wrap, Quotient, Remainder;
    TruncatedMonths(tm, months);
  }

  /**
   * A shift by months lands on the same day and time that many months away, and fails exactly when
   * the month landed on has no such day.
   */
  lemma MonthShiftLands(start: int, tm: Tm, months: int, west: int, z: Zone)
    requires Matches(z, west) && LocalTime(start, z) == Some(tm)
    requires 840 <= 12 * tm.year + tm.mon + months < 2400
    ensures var target := SameDay(tm, months);
      if ValidDate(target) then
        && RelativeMonth(start, months, west, z) == Some(Then(tm, target, west) - start)
        && LocalTime(Then(tm, target, west), z) == Some(OnDate(tm, target))
      else
        RelativeMonth(start, months, west, z).None?
  {
    hide LocalTime, Converted;
    var target := SameDay(tm, months);
    LocalTimeReads(start, z);
    TruncatedMonths(tm, months);
    if ValidDate(target) {
      LocalTimeThen(tm, target, west, z);
    }
    if months == 0 {
      assert target == DateIn(tm);
    } else {
      ConvertedOn(tm, target, west, z);
      MonthShiftConverts(start, tm, months, west, z);
      if ValidDate(target) {
        SameHour(start, Then(tm, target, west), z);
      }
    }
  }

  /** Shifting back by as many months returns to the start. */
  lemma MonthShiftReturns(start: int, tm: Tm, months: int, west: int, z: Zone)
    requires Matches(z, west) && LocalTime(start, z) == Some(tm)
    requires 70 <= tm.year <= 199 && 840 <= 12 * tm.year + tm.mon + months < 2400
    requires ValidDate(SameDay(tm, months))
    ensures var there := Then(tm, SameDay(tm, months), west);
      && RelativeMonth(start, months, west, z) == Some(there - start)
      && RelativeMonth(there, -months, west, z) == Some(start - there)
  {
    hide LocalTime, RelativeMonth, SameDay;
    var target := SameDay(tm, months);
    MonthShiftLands(start, tm, months, west, z);
    LocalTimeReads(start, z);
    SameDayBack(tm, months);
    MonthShiftLands(Then(tm, target, west), OnDate(tm, target), -months, west, z);
  }

  lemma SameDayBack(tm: Tm, months: int)
    requires ValidTm(tm) && ValidDate(SameDay(tm, months))
    ensures var there := OnDate(tm, SameDay(tm, months));
      12 * there.year + there.mon == 12 * tm.year + tm.mon + months && SameDay(there, -months) == DateIn(tm)
  {
  }

  // ---------------------------------------------------------------- months outside 1970 to 2099

  /** The moment converted for a shift by months. */
  function Asked(tm: Tm, months: int): Moment {
    var month := Wrap(12 * tm.year + tm.mon + months);
    Moment(Remainder(month, 12) + 1, tm.mday, Quotient(month, 12), tm.hour, tm.min, tm.sec)
  }

  /** Outside those years the moment is in another year, or in one whose days are miscounted. */
  lemma AskedYear(tm: Tm, months: int)
    requires ValidTm(tm) && Convertible(Asked(tm, months), H24) && !(1970 <= SameDay(tm, months).year <= 2099)
    ensures var target, year := SameDay(tm, months), FullYear(Asked(tm, months).year);
      || (target == DateAt(Asked(tm, months)) && year >= 2100)
      || target.year < 1970 || target.year >= 2108
  {
    var month := 12 * tm.year + tm.mon + months;
    if Fits(month) && month >= 0 && month / 12 < 1900 {
      assert Asked(tm, months).year == month / 12;
    }
  }

  lemma OtherYears(d: Date, target: Date)
    requires ValidDate(d) && ValidDate(target) && 1970 <= d.year <= 2106
    requires target.year < 1970 || target.year >= 2108
    ensures DayNumber(d) + Drift(d.year) != DayNumber(target)
  {
    hide DayNumber, YearLength, YearStart;
    InsideYear(d);
    InsideYear(target);
    YearStartClosed(d.year);
    YearStartClosed(1970);
    if target.year < 1970 {
      YearStartsInOrder(target.year, 1970);
    } else {
      YearStartsInOrder(d.year, 2107);
      YearStartsInOrder(2107, target.year);
      LongYears(2107);
    }
  }

  lemma LongYears(y: int)
    ensures YearLength(y) >= 365
  {
  }

  lemma AskedElsewhere(tm: Tm, months: int)
    requires ValidTm(tm) && Convertible(Asked(tm, months), H24)
    requires ValidDate(SameDay(tm, months)) && !(1970 <= SameDay(tm, months).year <= 2099)
    ensures var d := DateAt(Asked(tm, months));
      DayNumber(d) + Drift(d.year) != DayNumber(SameDay(tm, months))
  {
    hide DayNumber, SameDay, Asked;
    AskedYear(tm, months);
    var d, target := DateAt(Asked(tm, months)), SameDay(tm, months);
    if target.year < 1970 || target.year >= 2108 {
      OtherYears(d, target);
    }
  }

  /** A day counted from the epoch, at the time of day of `tm`. */
  function AtDay(tm: Tm, day: int, west: int): int {
    86400 * day + TimeOfDay(tm) + 60 * west
  }

  lemma CountedDays(d: Date)
    requires ValidDate(d) && 1970 <= d.year <= 2106
    ensures 0 <= DayNumber(d) + Drift(d.year) < 50100
  {
    hide DayNumber, YearStart;
    InsideYear(d);
    YearStartClosed(d.year);
  }

  lemma AskedConverts(tm: Tm, months: int, west: int, z: Zone)
    requires Matches(z, west) && ValidTm(tm) && Convertible(Asked(tm, months), H24)
    ensures var d := DateAt(Asked(tm, months));
      var t := AtDay(tm, DayNumber(d) + Drift(d.year), west);
      Converted(Asked(tm, months), H24, Maybe, west, z) == if LocalTime(t, z).Some? then Some(t) else None
  {
    hide LocalTime, DayNumber, ValidDate;
    var at := Asked(tm, months);
    assert at.hour == tm.hour && at.minutes == tm.min && at.seconds == tm.sec;
    hide Asked;
    var d := DateAt(at);
    CountedDays(d);
    var t := AtDay(tm, DayNumber(d) + Drift(d.year), west);
    assert Instant(at, H24, west) + 86400 * Drift(d.year) == t;
    ClockOf(tm.hour, tm.min, tm.sec);
    assert Fits(t);
    if LocalTime(t, z).Some? {
      NeverAdjusted(t, z);
    }
  }

  lemma LocalHour(t: int, z: Zone)
    requires LocalTime(t, z).Some?
    ensures LocalTime(t, z).value.hour == (t + z.east) % 86400 / 3600
  {
    hide DateOf;
  }

  /** At the same time of day nothing is corrected. */
  lemma SameTimeOfDay(start: int, tm: Tm, day: int, west: int, z: Zone)
    requires Matches(z, west) && LocalTime(start, z) == Some(tm) && ValidTm(tm)
    requires LocalTime(AtDay(tm, day, west), z).Some?
    ensures DstCorrect(start, AtDay(tm, day, west), z) == Some(AtDay(tm, day, west) - start)
  {
    hide LocalTime, DayNumber, ValidDate, DstCorrect;
    var t := AtDay(tm, day, west);
    ClockOf(tm.hour, tm.min, tm.sec);
    DayAndSecond(day, TimeOfDay(tm));
    LocalHour(t, z);
    assert t + z.east == 86400 * day + TimeOfDay(tm);
    SameHour(start, t, z);
  }

  /**
   * A shift by months to a day that exists lands there if and only if its year is one of 1970 to
   * 2099: other years are refused, miscounted or taken for one of these.
   */
  lemma MonthShiftExact(start: int, tm: Tm, months: int, west: int, z: Zone)
    requires Matches(z, west) && LocalTime(start, z) == Some(tm) && months != 0 && ValidDate(SameDay(tm, months))
    ensures RelativeMonth(start, months, west, z) == Some(Then(tm, SameDay(tm, months), west) - start)
       <==> 1970 <= SameDay(tm, months).year <= 2099
  {
    hide LocalTime, Converted, DayNumber, DstCorrect;
    LocalTimeReads(start, z);
    if 1970 <= SameDay(tm, months).year <= 2099 {
      MonthShiftLands(start, tm, months, west, z);
    } else {
      var day := MonthShiftMisses(start, tm, months, west, z);
    }
  }

  lemma ShiftAsks(start: int, tm: Tm, months: int, west: int, z: Zone)
    requires LocalTime(start, z) == Some(tm) && months != 0
    ensures var t := Converted(Asked(tm, months), H24, Maybe, west, z);
      RelativeMonth(start, months, west, z) == if t.Some? then DstCorrect(start, t.value, z) else None
  {
    hide LocalTime, Converted, DstCorrect, Wrap, Remainder, Quotient;
  }

  /** The day landed on outside those years, if any. */
  lemma MonthShiftMisses(start: int, tm: Tm, months: int, west: int, z: Zone) returns (day: int)
    requires Matches(z, west) && LocalTime(start, z) == Some(tm) && ValidTm(tm) && months != 0
    requires ValidDate(SameDay(tm, months)) && !(1970 <= SameDay(tm, months).year <= 2099)
    ensures day != DayNumber(SameDay(tm, months))
    ensures var r := RelativeMonth(start, months, west, z);
      r.None? || (r == Some(AtDay(tm, day, west) - start) && LocalTime(AtDay(tm, day, west), z).Some?)
  {
    hide LocalTime, Converted, DayNumber, DstCorrect, SameDay, Asked, Convertible, RelativeMonth, ValidTm;
    var at := Asked(tm, months);
    ShiftAsks(start, tm, months, west, z);
    NotConverted(at, west, z);
    if Convertible(at, H24) {
      AskedElsewhere(tm, months);
      AskedConverts(tm, months, west, z);
      var d := DateAt(at);
      day := DayNumber(d) + Drift(d.year);
      if LocalTime(AtDay(tm, day, west), z).Some? {
        SameTimeOfDay(start, tm, day, west, z);
      }
    } else {
      day := DayNumber(SameDay(tm, months)) + 1;
    }
  }

  lemma NotConverted(at: Moment, west: int, z: Zone)
    ensures !Convertible(at, H24) ==> Converted(at, H24, Maybe, west, z).None?
    ensures Convertible(at, H24) ==> ValidDate(DateAt(at))
  {
  }

  // ---------------------------------------------------------------- months under another zone

  /** So many seconds are whole hours, and those do not lead past 23 o'clock. */
  predicate HoursOnly(seconds: int, hour: int) {
    seconds % 3600 == 0 && 0 <= (hour + 1) % 24 + seconds / 3600 < 24
  }

  lemma HourLater(h: int, r: int, k: int)
    requires 0 <= h < 24 && 0 <= r < 3600
    ensures (3600 * (h + k) + r) % 86400 / 3600 == (h + k) % 24
  {
    var q := (h + k) / 24;
    assert 3600 * (h + k) + r == 86400 * q + (3600 * ((h + k) % 24) + r);
    DayAndSecond(q, 3600 * ((h + k) % 24) + r);
  }

  lemma NextHour(h: int, k: int)
    requires 0 <= h < 24 && 0 <= (h + 1) % 24 + k < 24
    ensures ((h + k) % 24 + 1) % 24 == (h + 1) % 24 + k
  {
  }

  lemma HoursApart(h: int, r: int, seconds: int)
    requires 0 <= h < 24 && 0 <= r < 3600
    ensures var f := (3600 * h + r + seconds) % 86400 / 3600;
      seconds + ((h + 1) % 24 - (f + 1) % 24) * 60 * 60 == 0 <==> HoursOnly(seconds, h)
  {
    if seconds % 3600 == 0 {
      var k := seconds / 3600;
      HourLater(h, r, k);
      if HoursOnly(seconds, h) {
        NextHour(h, k);
      }
    }
  }

  lemma SameSecond(day: int, second: int)
    ensures (86400 * day + second) % 86400 == second % 86400
  {
  }

  /** Only whole hours are put right. */
  lemma CorrectedHours(start: int, tm: Tm, t: int, day: int, here: int, z: Zone)
    requires Matches(z, here) && LocalTime(start, z) == Some(tm) && ValidTm(tm) && LocalTime(t, z).Some?
    ensures DstCorrect(start, t, z) == Some(AtDay(tm, day, here) - start)
       <==> HoursOnly(t - AtDay(tm, day, here), tm.hour)
  {
    hide LocalTime, HoursOnly, DayNumber, ValidDate;
    var there, r := AtDay(tm, day, here), tm.min * 60 + tm.sec;
    var shifted := 3600 * tm.hour + r + (t - there);
    assert t + z.east == 86400 * day + shifted;
    hide AtDay, ValidTm;
    SameSecond(day, shifted);
    LocalHour(t, z);
    HoursApart(tm.hour, r, t - there);
  }

  /**
   * Counted in the zone `west`, the moment asked for converts to a time so many whole hours from the
   * right one.
   */
  predicate LandsRight(tm: Tm, months: int, west: int, here: int, z: Zone)
    requires ValidDate(SameDay(tm, months))
  {
    var t := Converted(Asked(tm, months), H24, Maybe, west, z);
    t.Some? && HoursOnly(t.value - Then(tm, SameDay(tm, months), here), tm.hour)
  }

  /**
   * In whatever zone its months are counted, a shift reads the local clock as if it were in that zone
   * and puts only the hour right. To a day that exists it lands on the same local day and time if and
   * only if the converted time is whole hours away and those do not lead past 23 o'clock.
   */
  lemma ForeignMonthShift(start: int, tm: Tm, months: int, west: int, here: int, z: Zone)
    requires Matches(z, here) && LocalTime(start, z) == Some(tm) && months != 0 && ValidDate(SameDay(tm, months))
    ensures RelativeMonth(start, months, west, z) == Some(Then(tm, SameDay(tm, months), here) - start)
       <==> LandsRight(tm, months, west, here, z)
  {
    hide LocalTime, DayNumber, Converted, DstCorrect, HoursOnly, RelativeMonth, Asked, SameDay;
    LocalTimeReads(start, z);
    ShiftAsks(start, tm, months, west, z);
    var t, target := Converted(Asked(tm, months), H24, Maybe, west, z), SameDay(tm, months);
    if t.Some? {
      ConvertedIsLocal(Asked(tm, months), west, z);
      assert Then(tm, target, here) == AtDay(tm, DayNumber(target), here);
      CorrectedHours(start, tm, t.value, DayNumber(target), here, z);
    }
  }

  lemma ConvertedIsLocal(at: Moment, west: int, z: Zone)
    ensures var t := Converted(at, H24, Maybe, west, z); t.Some? ==> LocalTime(t.value, z).Some?
  {
    hide LocalTime, Instant, Convertible;
    if Convertible(at, H24) {
      var t := Wrap(Instant(at, H24, west) + 86400 * Drift(FullYear(at.year)));
      if LocalTime(t, z).Some? {
        LocalTimeReads(t, z);
      }
    }
  }

  /** Counted in the local zone it lands right in the years 1970 to 2099 only. */
  lemma LocalLandsRight(start: int, tm: Tm, months: int, here: int, z: Zone)
    requires Matches(z, here) && LocalTime(start, z) == Some(tm) && months != 0 && ValidDate(SameDay(tm, months))
    ensures LandsRight(tm, months, here, here, z) <==> 1970 <= SameDay(tm, months).year <= 2099
  {
    hide LandsRight, LocalTime, RelativeMonth, SameDay, Then;
    ForeignMonthShift(start, tm, months, here, here, z);
    MonthShiftExact(start, tm, months, here, z);
  }

  /**
   * In the years 1970 to 2099 it lands right if and only if the time read in the zone is representable,
   * the zones are whole hours apart and those do not lead past 23 o'clock.
   */
  lemma ZoneLandsRight(tm: Tm, months: int, west: int, here: int, z: Zone)
    requires ValidTm(tm) && ValidDate(SameDay(tm, months)) && 1970 <= SameDay(tm, months).year <= 2099
    requires Fits(Then(tm, SameDay(tm, months), west))
    ensures LandsRight(tm, months, west, here, z) <==>
      && z.first <= Then(tm, SameDay(tm, months), west) <= z.last
      && HoursOnly(60 * (west - here), tm.hour)
  {
    hide DayNumber, Converted, HoursOnly, LocalTime, Convertible;
    var target := SameDay(tm, months);
    TruncatedMonths(tm, months);
    assert Asked(tm, months) == MomentOn(tm, target);
    hide SameDay, Asked, ValidTm, ValidDate;
    ConvertedIn(tm, target, west, z);
  }

  lemma ConvertedIn(tm: Tm, d: Date, west: int, z: Zone)
    requires ValidTm(tm) && ValidDate(d) && 1970 <= d.year <= 2099 && Fits(Then(tm, d, west))
    ensures Converted(MomentOn(tm, d), H24, Maybe, west, z)
         == if z.first <= Then(tm, d, west) <= z.last then Some(Then(tm, d, west)) else None
  {
    InstantOn(tm, d, west);
    hide DayNumber, Instant, Convertible;
    if z.first <= Then(tm, d, west) <= z.last {
      NeverAdjusted(Then(tm, d, west), z);
    } else {
      NotLocal(Then(tm, d, west), z);
    }
  }

  // ---------------------------------------------------------------- shifts that miss

  /** The local time of an hour on the fifteenth of a month. */
  function Fifteenth(year: int, month: int, hour: int): Tm
    requires 0 <= month < 12
  {
    var d := Date(year, month, 15);
    Tm(year - 1900, month, 15, hour, 0, 0, (DayNumber(d) + 4) % 7, false)
  }

  lemma FifteenthIsLocal(year: int, month: int, hour: int, here: int, z: Zone)
    requires Matches(z, here) && 1970 <= year <= 2099 && 0 <= month < 12 && 0 <= hour <= 23
    ensures var tm := Fifteenth(year, month, hour);
      ValidTm(tm) && LocalTime(Then(tm, Date(year, month, 15), here), z) == Some(tm)
  {
    LocalTimeThen(Fifteenth(year, month, hour), Date(year, month, 15), here, z);
  }

  lemma MonthLater(year: int, month: int, hour: int)
    requires 0 <= month < 12
    ensures SameDay(Fifteenth(year, month, hour), 1) == Date(year + (month + 1) / 12, (month + 1) % 12, 15)
    ensures ValidDate(SameDay(Fifteenth(year, month, hour), 1))
  {
    hide DayNumber;
    var m := 12 * (year - 1900) + month + 1;
    assert m / 12 == year - 1900 + (month + 1) / 12 && m % 12 == (month + 1) % 12;
  }

  /** A month after the fifteenth of December 2099 is not found. */
  lemma JanuaryIsMissed(here: int, z: Zone)
    requires Matches(z, here)
    ensures var tm := Fifteenth(2099, 11, 12);
      var start := Then(tm, Date(2099, 11, 15), here);
      && LocalTime(start, z) == Some(tm) && ValidDate(SameDay(tm, 1))
      && RelativeMonth(start, 1, here, z) != Some(Then(tm, SameDay(tm, 1), here) - start)
  {
    hide LocalTime, RelativeMonth, DayNumber, Fifteenth, SameDay, Then, ValidTm, Matches;
    var tm := Fifteenth(2099, 11, 12);
    FifteenthIsLocal(2099, 11, 12, here, z);
    MonthLater(2099, 11, 12);
    MonthShiftExact(Then(tm, Date(2099, 11, 15), here), tm, 1, here, z);
  }

  lemma FiveHoursFromEight(year: int, month: int)
    requires 0 <= month < 12
    ensures !HoursOnly(60 * 300, Fifteenth(year, month, 20).hour)
  {
    hide DayNumber;
  }

  lemma ThenFits(tm: Tm, d: Date, west: int)
    requires ValidTm(tm) && ValidDate(d) && 1970 <= d.year <= 2099 && -10000 < west < 10000
    ensures Fits(Then(tm, d, west))
  {
    hide DayNumber;
    DaysUntil2099(d);
    ClockOf(tm.hour, tm.min, tm.sec);
  }

  /** In the evening a month counted five hours further west is not found either. */
  lemma EveningIsMissed(here: int, z: Zone)
    requires Matches(z, here)
    ensures var tm := Fifteenth(2020, 0, 20);
      var start := Then(tm, Date(2020, 0, 15), here);
      && LocalTime(start, z) == Some(tm) && ValidDate(SameDay(tm, 1))
      && RelativeMonth(start, 1, here + 300, z) != Some(Then(tm, SameDay(tm, 1), here) - start)
  {
    hide LocalTime, RelativeMonth, DayNumber, HoursOnly, LandsRight, Fifteenth, SameDay, Then, ValidTm;
    var tm := Fifteenth(2020, 0, 20);
    FifteenthIsLocal(2020, 0, 20, here, z);
    MonthLater(2020, 0, 20);
    FiveHoursFromEight(2020, 0);
    ThenFits(tm, SameDay(tm, 1), here + 300);
    ZoneLandsRight(tm, 1, here + 300, here, z);
    ForeignMonthShift(Then(tm, Date(2020, 0, 15), here), tm, 1, here + 300, here, z);
  }

  // ---------------------------------------------------------------- the shift by weekdays

  /** The days from `tm` to the `ordinal`-th weekday `number`; 1 counts from the day itself. */
  function DaysUntil(tm: Tm, ordinal: int, number: int): int {
    (number - tm.wday) % 7 + 7 * (if ordinal <= 0 then ordinal else ordinal - 1)
  }

  /** The weekday and the week landed in. */
  lemma DaysUntilLands(day: int, tm: Tm, ordinal: int, number: int)
    requires tm.wday == (day + 4) % 7 && 0 <= number <= 6
    ensures var days := DaysUntil(tm, ordinal, number);
      && (day + days + 4) % 7 == number
      && (ordinal > 0 ==> 7 * (ordinal - 1) <= days < 7 * ordinal)
      && (ordinal <= 0 ==> 7 * ordinal <= days < 7 * (ordinal + 1))
  {
  }

  lemma DaysLater(t: int, tm: Tm, days: int, z: Zone)
    requires LocalTime(t, z) == Some(tm) && ValidTm(tm) && z.first <= t + 86400 * days <= z.last
    ensures LocalTime(t + 86400 * days, z) == Some(OnDate(tm, DateOf(DayNumber(DateIn(tm)) + days)))
  {
    hide LocalTime, DateOf, DayNumber;
    LocalTimeReads(t, z);
    LocalTimeAt(t + 86400 * days, DateOf(DayNumber(DateIn(tm)) + days), tm.hour, tm.min, tm.sec, z);
  }

  lemma SumOfWraps(a: int, b: int, c: int)
    ensures Wrap(Wrap(a + Wrap(b)) + Wrap(c)) == Wrap(a + b + c)
  {
    hide Wrap;
    WrapSum(a, b);
    WrapSum(a + b, c);
    WrapSum(Wrap(a + b), c);
  }

  lemma RemainderOfWeek(number: int, wday: int)
    requires 0 <= number <= 6 && 0 <= wday <= 6
    ensures Remainder(number - wday + 7, 7) == (number - wday) % 7
  {
  }

  lemma WeekdayShiftCorrects(start: int, tm: Tm, ordinal: int, number: int, z: Zone)
    requires LocalTime(start, z) == Some(tm) && 0 <= tm.wday <= 6 && 0 <= number <= 6
    ensures RelativeDate(start, ordinal, number, z)
         == DstCorrect(start, Wrap(start + 86400 * DaysUntil(tm, ordinal, number)), z)
  {
    hide LocalTime, Wrap, Remainder, DstCorrect;
    var weeks := if ordinal <= 0 then ordinal else ordinal - 1;
    RemainderOfWeek(number, tm.wday);
    SumOfWraps(start, 86400 * ((number - tm.wday) % 7), 7 * 86400 * weeks);
  }

  /**
   * A shift to a weekday lands on that weekday, in the week asked for, at the same time of day, if
   * and only if that time can be represented; otherwise it fails, or has gone round the 64-bit word.
   */
  lemma WeekdayShiftLands(start: int, tm: Tm, ordinal: int, number: int, z: Zone)
    requires Ordinary(z) && LocalTime(start, z) == Some(tm) && 0 <= number <= 6
    ensures var days := DaysUntil(tm, ordinal, number);
      var there := start + 86400 * days;
      && (RelativeDate(start, ordinal, number, z) == Some(there - start) <==> z.first <= there <= z.last)
      && (z.first <= there <= z.last ==>
        && LocalTime(there, z).Some? && LocalTime(there, z).value.wday == number
        && TimeOfDay(LocalTime(there, z).value) == TimeOfDay(tm)
        && (ordinal > 0 ==> 7 * (ordinal - 1) <= days < 7 * ordinal)
        && (ordinal <= 0 ==> 7 * ordinal <= days < 7 * (ordinal + 1)))
      && (!(z.first <= there <= z.last) && Fits(there) ==> RelativeDate(start, ordinal, number, z).None?)
  {
    hide LocalTime, DateOf, DayNumber, DaysUntil, RelativeDate, Wrap;
    var days := DaysUntil(tm, ordinal, number);
    var there := start + 86400 * days;
    LocalTimeReads(start, z);
    WeekdayShiftCorrects(start, tm, ordinal, number, z);
    if z.first <= there <= z.last {
      DaysLater(start, tm, days, z);
      DaysUntilLands(DayNumber(DateIn(tm)), tm, ordinal, number);
      SameHour(start, there, z);
    } else if Fits(there) {
      NotLocal(there, z);
    } else {
      GoneRound(start, there, z);
    }
  }

  lemma GoneRound(start: int, there: int, z: Zone)
    requires Ordinary(z) && LocalTime(start, z).Some? && !Fits(there)
    ensures DstCorrect(start, Wrap(there), z) != Some(there - start)
  {
    var k := (there + HALF) / WHOLE;
    assert Wrap(there) == there - k * WHOLE && k != 0;
  }

  lemma NotLocal(t: int, z: Zone)
    requires !(z.first <= t <= z.last)
    ensures LocalTime(t, z).None?
  {
  }
}
