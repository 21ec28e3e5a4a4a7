/**
 * A date specification relative to now, from its tokens to a time.
 */
module GetDate {
  import opened Calendar
  import opened DateConvert
  import opened DateParse
  import opened DateShift
  import opened DateWords
  import opened Options

  function MinutesWestOf(z: Zone): int {
    -Quotient(z.east, 60)
  }

  function FieldsAt(tm: Tm, west: int): Fields {
    Fields(Maybe, 0, 0, Counts(0, 0, 0, 0, 0), west, Moment(tm.mon + 1, tm.mday, tm.year, 0, 0, 0), H24, 0, 0)
  }

  /** The time the absolute items say; without any, now, or midnight where nothing is said. */
  function Start(f: Fields, tm: Tm, now: int, z: Zone): Option<int> {
    if f.have.date > 0 || f.have.time > 0 || f.have.day > 0 then
      match Converted(f.at, f.meridian, f.dst, f.timezone, z)
      case None => None
      case Some(t) => if t < 0 then None else Some(t)
    else if f.have.rel == 0 then Some(now - TimeOfDay(tm))
    else Some(now)
  }

  /** The shift to a weekday, where no date was given. */
  function Weekday(f: Fields, start: int, z: Zone): Option<int> {
    if f.have.day > 0 && f.have.date == 0 then
      match RelativeDate(start, f.dayOrdinal, f.dayNumber, z)
      case None => None
      case Some(delta) => Some(Wrap(start + delta))
    else Some(start)
  }

  function Shifted(f: Fields, start: int, z: Zone): Option<int> {
    match RelativeMonth(start, f.relMonth, f.timezone, z)
    case None => None
    case Some(delta) => if delta == -1 then None else Weekday(f, Wrap(start + delta), z)
  }

  function GetDateRel(toks: seq<Tok>, now: int, z: Zone): Option<int> {
    match LocalTime(now, z)
    case None => None
    case Some(tm) =>
      match Parsed(toks, FieldsAt(tm, MinutesWestOf(z)))
      case None => None
      case Some(f) =>
        if f.have.time > 1 || f.have.zone > 1 || f.have.date > 1 || f.have.day > 1 then None
        else
          match Start(f, tm, now, z)
          case None => None
          case Some(start) =>
            match Shifted(f, Wrap(start + f.relSeconds), z)
            case None => None
            case Some(t) => Some(if t == -1 then 0 else t)
  }

  // ---------------------------------------------------------------- what the items say

  predicate IsDate(item: Item) {
    item.OnDay?
  }

  predicate IsDated(item: Item) {
    item.OnDay? && item.year.Some?
  }

  predicate IsClock(item: Item) {
    item.Clock? || item.ClockOffset?
  }

  predicate IsWeekday(item: Item) {
    item.OnWeekday?
  }

  predicate IsZone(item: Item) {
    item.InZone?
  }

  predicate SaysZone(item: Item) {
    item.InZone? || item.ClockOffset?
  }

  predicate IsRelative(item: Item) {
    item.Relative?
  }

  /** The last item of a kind. */
  function Last(p: Item -> bool, items: seq<Item>): (r: Option<Item>)
    ensures r.Some? ==> p(r.value)
  {
    if items == [] then None
    else if p(items[|items| - 1]) then Some(items[|items| - 1])
    else Last(p, items[..|items| - 1])
  }

  function Count(p: Item -> bool, items: seq<Item>): nat {
    if items == [] then 0 else Count(p, items[..|items| - 1]) + (if p(items[|items| - 1]) then 1 else 0)
  }

  function MomentSaid(items: seq<Item>, at: Moment): Moment {
    var date, dated, clock := Last(IsDate, items), Last(IsDated, items), Last(IsClock, items);
    var day := if date.Some? then at.(month := date.value.month, day := date.value.day) else at;
    var full := if dated.Some? then day.(year := dated.value.year.value) else day;
    match clock
    case None => full
    case Some(c) => full.(hour := c.hour, minutes := c.minutes, seconds := c.seconds)
  }

  function MeridianSaid(items: seq<Item>, mer: Meridian): Meridian {
    match Last(IsClock, items)
    case None => mer
    case Some(c) => if c.Clock? then c.meridian else H24
  }

  function WestSaid(items: seq<Item>, west: int): int {
    match Last(SaysZone, items)
    case None => west
    case Some(i) => if i.InZone? then i.timezone else MinutesWest(i.offset)
  }

  function DstSaid(items: seq<Item>, dst: DstMode): DstMode {
    match Last(SaysZone, items)
    case None => dst
    case Some(i) => if i.InZone? then i.dst else Off
  }

  function CountsSaid(items: seq<Item>, have: Counts): Counts {
    Counts(have.date + Count(IsDate, items), have.day + Count(IsWeekday, items), have.rel + Count(IsRelative, items),
           have.time + Count(IsClock, items), have.zone + Count(IsZone, items))
  }

  /** The fields the items leave, each as the last item said that says anything of it. */
  function Said(items: seq<Item>, f: Fields): Fields {
    var day := Last(IsWeekday, items);
    Fields(DstSaid(items, f.dst), if day.Some? then day.value.ordinal else f.dayOrdinal,
           if day.Some? then day.value.number else f.dayNumber, CountsSaid(items, f.have), WestSaid(items, f.timezone),
           MomentSaid(items, f.at), MeridianSaid(items, f.meridian),
           Wrap(Total(Months, items)), Wrap(Total(Span, items)))
  }

  lemma {:induction false} ApplyLast(items: seq<Item>, x: Item, f: Fields)
    ensures ApplyAll(items + [x], f) == Apply(x, ApplyAll(items, f))
  {
    hide Apply;
    if items == [] {
      assert items + [x] == [x] && [x][1..] == [];
    } else {
      assert (items + [x])[1..] == items[1..] + [x];
      ApplyLast(items[1..], x, Apply(items[0], f));
    }
  }

  /** The same but for the relative amounts. */
  predicate Alike(f: Fields, g: Fields) {
    f == g.(relSeconds := f.relSeconds, relMonth := f.relMonth)
  }

  lemma AppliedAlike(x: Item, f: Fields, g: Fields)
    requires Alike(f, g)
    ensures Alike(Apply(x, f), Apply(x, g))
  {
    hide MinutesWest, Wrap;
  }

  lemma MomentNext(items: seq<Item>, at: Moment)
    requires items != []
    ensures var n := |items| - 1;
      var x, before := items[n], MomentSaid(items[..n], at);
      MomentSaid(items, at)
      == if x.OnDay? then
           before.(month := x.month, day := x.day, year := if x.year.Some? then x.year.value else before.year)
         else if IsClock(x) then before.(hour := x.hour, minutes := x.minutes, seconds := x.seconds)
         else before
  {
  }

  lemma SaidNext(items: seq<Item>, f: Fields)
    requires items != []
    ensures var n := |items| - 1; Alike(Apply(items[n], Said(items[..n], f)), Said(items, f))
  {
    hide MinutesWest, Wrap, Total, MomentSaid;
    MomentNext(items, f.at);
  }

  lemma {:induction false} AppliedIsSaid(items: seq<Item>, f: Fields)
    ensures Alike(ApplyAll(items, f), Said(items, f))
  {
    hide Apply, Total, Wrap;
    if items != [] {
      var n := |items| - 1;
      AppliedIsSaid(items[..n], f);
      assert items == items[..n] + [items[n]];
      ApplyLast(items[..n], items[n], f);
      hide Said, ApplyAll;
      SaidNext(items, f);
      AppliedAlike(items[n], ApplyAll(items[..n], f), Said(items[..n], f));
    }
  }

  lemma TotalsApplied(items: seq<Item>, f: Fields)
    requires f.relSeconds == 0 && f.relMonth == 0
    ensures var g := ApplyAll(items, f);
      g.relSeconds == Wrap(Total(Span, items)) && g.relMonth == Wrap(Total(Months, items))
  {
    assert Fits(f.relSeconds) && Fits(f.relMonth);
    RelativeTotals(items, f);
    assert Signed(0, Agos(items)) == 0;
    hide Wrap, Total, Agos, ApplyAll;
  }

  /** The items follow a leading `never`, if there is one. */
  function FirstItem(toks: seq<Tok>): nat {
    if At(toks, 0) == Never then 1 else 0
  }

  /** The fields before the first item. */
  function Opening(toks: seq<Tok>, tm: Tm, west: int): Fields {
    if At(toks, 0) == Never then AtEpoch(FieldsAt(tm, west)) else FieldsAt(tm, west)
  }

  lemma ParsedIsSaid(toks: seq<Tok>, items: seq<Item>, tm: Tm, west: int)
    requires Items(toks, FirstItem(toks)) == Some(items)
    ensures Parsed(toks, FieldsAt(tm, west)) == Some(Said(items, Opening(toks, tm, west)))
  {
    hide Items, ApplyAll, Total;
    var f := Opening(toks, tm, west);
    AppliedIsSaid(items, f);
    TotalsApplied(items, f);
  }

  // ---------------------------------------------------------------- moved by months

  /** The start moved by months, counted in the zone `west`. */
  function MovedBy(start: int, months: int, west: int, z: Zone): Option<int> {
    match RelativeMonth(start, months, west, z)
    case None => None
    case Some(delta) => if delta == -1 then None else Some(Wrap(start + delta))
  }

  /**
   * What `start` moved by months is: itself for none, nothing where the local time is not
   * representable, and otherwise the same local day and time exactly where the shift lands right.
   */
  ghost predicate MovedTo(moved: Option<int>, start: int, months: int, west: int, here: int, z: Zone) {
    if months == 0 then moved == Some(start)
    else if LocalTime(start, z).None? then moved.None?
    else
      var tm := LocalTime(start, z).value;
      var target := SameDay(tm, months);
      if ValidDate(target) then
        && (moved == Some(Then(tm, target, here)) <==> LandsRight(tm, months, west, here, z))
        && (west == here ==> (LandsRight(tm, months, west, here, z) <==> 1970 <= target.year <= 2099))
      else
        1970 <= target.year <= 2099 ==> moved.None?
  }

  lemma LocalFits(t: int, z: Zone)
    requires Ordinary(z) && LocalTime(t, z).Some?
    ensures Fits(t) && -HALF + 86400 <= t < HALF - 86400
  {
  }

  lemma ByFours(start: int, n: int, hours: int)
    requires -HALF + 86400 <= Wrap(start + 60 * n) < HALF - 86400 && -24 < hours < 24
    ensures var delta := Wrap(start + 60 * n) - start + hours * 60 * 60;
      delta != -1 && Fits(start + delta)
  {
    WrapIs(start + 60 * n);
    assert WHOLE == 4 * 0x4000_0000_0000_0000;
    hide Wrap;
  }

  /** A converted moment is a whole number of minutes, modulo words, from any time of the same clock. */
  lemma WholeMinutes(start: int, tm: Tm, at: Moment, west: int, here: int, z: Zone) returns (n: int)
    requires Matches(z, here) && LocalTime(start, z) == Some(tm) && Convertible(at, H24)
    requires at.hour == tm.hour && at.minutes == tm.min && at.seconds == tm.sec
    ensures Wrap(Instant(at, H24, west) + 86400 * Drift(FullYear(at.year))) == Wrap(start + 60 * n)
  {
    hide LocalTime, DayNumber, ValidDate, Wrap;
    LocalTimeReads(start, z);
    n := 1440 * (DayNumber(DateAt(at)) + Drift(FullYear(at.year)) - DayNumber(DateIn(tm))) + west - here;
    assert Instant(at, H24, west) + 86400 * Drift(FullYear(at.year)) == start + 60 * n;
  }

  lemma AskedClock(tm: Tm, months: int)
    ensures var at := Asked(tm, months); at.hour == tm.hour && at.minutes == tm.min && at.seconds == tm.sec
  {
  }

  lemma MinutesAway(start: int, tm: Tm, at: Moment, west: int, here: int, z: Zone) returns (n: int)
    requires Matches(z, here) && LocalTime(start, z) == Some(tm) && Converted(at, H24, Maybe, west, z).Some?
    requires at.hour == tm.hour && at.minutes == tm.min && at.seconds == tm.sec
    ensures var t := Converted(at, H24, Maybe, west, z).value;
      t == Wrap(start + 60 * n) && LocalTime(t, z).Some? && -HALF + 86400 <= t < HALF - 86400
  {
    hide LocalTime, Instant, Convertible, Wrap;
    ConvertedIsLocal(at, west, z);
    ConvertedIsSaid(at, H24, Maybe, west, z);
    n := WholeMinutes(start, tm, at, west, here, z);
    LocalFits(Converted(at, H24, Maybe, west, z).value, z);
  }

  /** A shift is never by one second, and its end fits a word. */
  lemma ShiftFits(start: int, tm: Tm, months: int, west: int, here: int, z: Zone)
    requires Matches(z, here) && LocalTime(start, z) == Some(tm) && months != 0
    ensures var delta := RelativeMonth(start, months, west, z);
      delta.Some? ==> delta.value != -1 && Fits(start + delta.value)
  {
    hide LocalTime, Converted, Asked, RelativeMonth, Wrap, ValidDate, DayNumber;
    ShiftAsks(start, tm, months, west, z);
    var at := Asked(tm, months);
    AskedClock(tm, months);
    if RelativeMonth(start, months, west, z).Some? {
      var n := MinutesAway(start, tm, at, west, here, z);
      var t := Converted(at, H24, Maybe, west, z).value;
      LocalTimeReads(start, z);
      LocalTimeReads(t, z);
      ByFours(start, n, (tm.hour + 1) % 24 - (LocalTime(t, z).value.hour + 1) % 24);
    }
  }

  lemma NotMoved(start: int, months: int, west: int, z: Zone)
    requires Fits(start)
    ensures months == 0 ==> MovedBy(start, months, west, z) == Some(start)
    ensures months != 0 && LocalTime(start, z).None? ==> MovedBy(start, months, west, z).None?
  {
    hide LocalTime, Converted, DstCorrect;
  }

  /** What moving by months does, in every zone. */
  lemma MovedByMonths(start: int, months: int, west: int, here: int, z: Zone)
    requires Matches(z, here) && Fits(start)
    ensures MovedTo(MovedBy(start, months, west, z), start, months, west, here, z)
  {
    hide LocalTime, RelativeMonth, SameDay, Then, LandsRight, Wrap;
    NotMoved(start, months, west, z);
    if months != 0 && LocalTime(start, z).Some? {
      var tm := LocalTime(start, z).value;
      ShiftFits(start, tm, months, west, here, z);
      if ValidDate(SameDay(tm, months)) {
        ForeignMonthShift(start, tm, months, west, here, z);
        LocalLandsRight(start, tm, months, here, z);
      } else if 1970 <= SameDay(tm, months).year <= 2099 {
        NoSuchDay(start, tm, months, west, z);
      }
    }
  }

  /** In the years 1970 to 2099 a day that does not exist is refused in every zone. */
  lemma NoSuchDay(start: int, tm: Tm, months: int, west: int, z: Zone)
    requires LocalTime(start, z) == Some(tm) && months != 0
    requires !ValidDate(SameDay(tm, months)) && 1970 <= SameDay(tm, months).year <= 2099
    ensures RelativeMonth(start, months, west, z).None?
  {
    hide LocalTime, DstCorrect, DayNumber, RelativeMonth;
    LocalTimeReads(start, z);
    TruncatedMonths(tm, months);
    InstantOn(tm, SameDay(tm, months), west);
    ShiftAsks(start, tm, months, west, z);
    hide SameDay, Convertible, Instant;
    NotConverted(Asked(tm, months), west, z);
  }

  // ---------------------------------------------------------------- moved to a weekday

  /** One second before the epoch is not returned. */
  function Kept(t: int): int {
    if t == -1 then 0 else t
  }

  /** The answer for a time moved by months: it, or the weekday said where no date was. */
  function Answer(f: Fields, moved: Option<int>, z: Zone): Option<int> {
    match moved
    case None => None
    case Some(t) =>
      match Weekday(f, t, z)
      case None => None
      case Some(there) => Some(Kept(there))
  }

  /**
   * The answer is `t` moved to the `ordinal`-th weekday from its day, at the same time of day, where
   * that can be represented; what does not fit a word apart, it is refused elsewhere.
   */
  ghost predicate LandedOn(r: Option<int>, t: int, ordinal: int, number: int, z: Zone) {
    if LocalTime(t, z).None? then r.None?
    else
      var tm := LocalTime(t, z).value;
      var days := DaysUntil(tm, ordinal, number);
      var there := t + 86400 * days;
      if z.first <= there <= z.last then
        && r == Some(Kept(there)) && LocalTime(there, z).Some? && LocalTime(there, z).value.wday == number
        && TimeOfDay(LocalTime(there, z).value) == TimeOfDay(tm)
        && (ordinal > 0 ==> 7 * (ordinal - 1) <= days < 7 * ordinal)
        && (ordinal <= 0 ==> 7 * ordinal <= days < 7 * (ordinal + 1))
      else Fits(there) ==> r.None?
  }

  lemma NotLanded(t: int, ordinal: int, number: int, z: Zone)
    requires LocalTime(t, z).None?
    ensures RelativeDate(t, ordinal, number, z).None?
  {
    hide DstCorrect;
  }

  lemma WeekdayLands(t: int, ordinal: int, number: int, z: Zone)
    requires Ordinary(z) && Fits(t) && 0 <= number <= 6
    ensures var delta := RelativeDate(t, ordinal, number, z);
      LandedOn(if delta.None? then None else Some(Kept(Wrap(t + delta.value))), t, ordinal, number, z)
  {
    hide DaysUntil, TimeOfDay, LocalTime, RelativeDate;
    if LocalTime(t, z).None? {
      NotLanded(t, ordinal, number, z);
    } else {
      WeekdayShiftLands(t, LocalTime(t, z).value, ordinal, number, z);
    }
  }

  /** Where `start` leads: by months, and then, where no date is said, to the weekday. */
  ghost predicate Follows(r: Option<int>, f: Fields, start: int, here: int, z: Zone) {
    var moved := MovedBy(start, f.relMonth, f.timezone, z);
    && MovedTo(moved, start, f.relMonth, f.timezone, here, z)
    && if moved.None? then r.None?
       else if f.have.day > 0 && f.have.date == 0 then
         0 <= f.dayNumber <= 6 ==> LandedOn(r, moved.value, f.dayOrdinal, f.dayNumber, z)
       else r == Some(Kept(moved.value))
  }

  lemma AnswerFollows(f: Fields, start: int, here: int, z: Zone)
    requires Matches(z, here) && Fits(start)
    ensures Follows(Answer(f, MovedBy(start, f.relMonth, f.timezone, z), z), f, start, here, z)
  {
    hide MovedTo, LandedOn, RelativeMonth, RelativeDate, Wrap, Kept;
    MovedByMonths(start, f.relMonth, f.timezone, here, z);
    var moved := MovedBy(start, f.relMonth, f.timezone, z);
    if moved.Some? && 0 <= f.dayNumber <= 6 {
      WeekdayLands(moved.value, f.dayOrdinal, f.dayNumber, z);
    }
  }

  // ---------------------------------------------------------------- the whole

  /** The time said, counted as the conversion counts it; summer time is an hour earlier. */
  function TimeSaid(at: Moment, mer: Meridian, dst: DstMode, west: int): (t: int)
    requires Convertible(at, mer)
    ensures Fits(t)
  {
    Wrap(Instant(at, mer, west) + 86400 * Drift(FullYear(at.year)) - (if dst == On then 3600 else 0))
  }

  lemma ConvertedIsSaid(at: Moment, mer: Meridian, dst: DstMode, west: int, z: Zone)
    ensures Converted(at, mer, dst, west, z)
         == if Convertible(at, mer) && (dst == Maybe ==> LocalTime(TimeSaid(at, mer, dst, west), z).Some?)
            then Some(TimeSaid(at, mer, dst, west)) else None
  {
    hide LocalTime, Instant, Convertible, Wrap, FullYear, Drift;
    if Convertible(at, mer) {
      var t := Instant(at, mer, west) + 86400 * Drift(FullYear(at.year));
      WrapSum(t, -3600);
      if LocalTime(Wrap(t), z).Some? {
        LocalTimeReads(Wrap(t), z);
      }
    }
  }

  /** Some kind of item, a leading `never` counting as a date, is said twice. */
  predicate Repeats(have: Counts) {
    have.time > 1 || have.zone > 1 || have.date > 1 || have.day > 1
  }

  /** A date, a time of day or a weekday is said. */
  predicate SaysWhen(have: Counts) {
    have.date > 0 || have.time > 0 || have.day > 0
  }

  /** The time from which relative items count, if there is one. */
  function From(f: Fields, tm: Tm, now: int, z: Zone): Option<int> {
    if !SaysWhen(f.have) then Some(if f.have.rel == 0 then now - TimeOfDay(tm) else now)
    else if !Convertible(f.at, f.meridian) then None
    else
      var t := TimeSaid(f.at, f.meridian, f.dst, f.timezone);
      if t < 0 || (f.dst == Maybe && LocalTime(t, z).None?) then None else Some(t)
  }

  lemma StartIsFrom(f: Fields, tm: Tm, now: int, z: Zone)
    ensures Start(f, tm, now, z) == From(f, tm, now, z)
  {
    hide LocalTime, Convertible, TimeSaid, Converted;
    ConvertedIsSaid(f.at, f.meridian, f.dst, f.timezone, z);
  }

  lemma ShiftedIs(f: Fields, start: int, z: Zone)
    ensures var shifted := Shifted(f, start, z);
      Answer(f, MovedBy(start, f.relMonth, f.timezone, z), z)
      == if shifted.None? then None else Some(Kept(shifted.value))
  {
    hide RelativeMonth, Weekday, Wrap;
  }

  lemma Evaluated(toks: seq<Tok>, f: Fields, now: int, here: int, tm: Tm, z: Zone)
    requires Matches(z, here) && LocalTime(now, z) == Some(tm) && Parsed(toks, FieldsAt(tm, here)) == Some(f)
    ensures var from := From(f, tm, now, z);
      GetDateRel(toks, now, z)
      == if Repeats(f.have) || from.None? then None
         else Answer(f, MovedBy(Wrap(from.value + f.relSeconds), f.relMonth, f.timezone, z), z)
  {
    hide LocalTime, Parsed, From, Start, Shifted, MovedBy, Answer, Wrap;
    LocalMinutesWest(z, here);
    StartIsFrom(f, tm, now, z);
    var from := From(f, tm, now, z);
    if from.Some? {
      ShiftedIs(f, Wrap(from.value + f.relSeconds), z);
    }
  }

  /**
   * Every specification: refused where a kind of item is repeated, or where the time said cannot be
   * converted or lies before the epoch; otherwise from the time said, or now, or midnight today, it is
   * moved by the seconds the relative items total, then by the months, and then to the weekday said.
   */
  lemma Specification(toks: seq<Tok>, items: seq<Item>, now: int, here: int, z: Zone)
    requires Matches(z, here) && LocalTime(now, z).Some? && Items(toks, FirstItem(toks)) == Some(items)
    ensures var r, tm := GetDateRel(toks, now, z), LocalTime(now, z).value;
      var f := Said(items, Opening(toks, tm, here));
      var from := From(f, tm, now, z);
      if Repeats(f.have) || from.None? then r.None?
      else Follows(r, f, Wrap(from.value + Total(Span, items)), here, z)
  {
    hide LocalTime, Items, Parsed, From, MovedBy, Answer, Total, Wrap, Follows, GetDateRel;
    var tm := LocalTime(now, z).value;
    var f := Said(items, Opening(toks, tm, here));
    assert f.relSeconds == Wrap(Total(Span, items));
    hide Said, Opening;
    ParsedIsSaid(toks, items, tm, here);
    Evaluated(toks, f, now, here, tm, z);
    var from := From(f, tm, now, z);
    if from.Some? {
      WrapSum(from.value, Total(Span, items));
      AnswerFollows(f, Wrap(from.value + Total(Span, items)), here, z);
    }
  }

  lemma LocalMinutesWest(z: Zone, west: int)
    requires z.east == -60 * west
    ensures MinutesWestOf(z) == west
  {
  }

  // ---------------------------------------------------------------- what the clock shows

  lemma ShownExceptAtTwelve(at: Moment, mer: Meridian, west: int, z: Zone)
    requires Matches(z, west) && Convertible(at, mer) && FullYear(at.year) <= 2099 && (mer == H24 || at.hour != 12)
    ensures var shown := LocalTime(TimeSaid(at, mer, Maybe, west), z);
      && shown.Some?
      && MomentOf(shown.value) == at.(year := FullYear(at.year) - 1900, hour := ClockHour(at.hour, mer))
  {
    hide Convertible, Instant, TimeSaid, ClockHour, LocalTime, Converted;
    var shown := at.(hour := ClockHour(at.hour, mer));
    ShownIsConvertible(at, mer, west);
    LocalTimeUndoesConversion(shown, west, z);
    ConvertedIsInstant(shown, west, z);
  }

  lemma NotShownAtTwelve(at: Moment, mer: Meridian, west: int, z: Zone)
    requires Matches(z, west) && Convertible(at, mer) && FullYear(at.year) <= 2099 && mer != H24 && at.hour == 12
    requires LocalTime(TimeSaid(at, mer, Maybe, west), z).Some?
    ensures MomentOf(LocalTime(TimeSaid(at, mer, Maybe, west), z).value)
         != at.(year := FullYear(at.year) - 1900, hour := ClockHour(at.hour, mer))
  {
    assert 1970 <= FullYear(at.year);
    hide Convertible, Instant, TimeSaid, ClockHour, LocalTime, Converted;
    var t, shown := TimeSaid(at, mer, Maybe, west), at.(hour := ClockHour(at.hour, mer));
    ShownIsConvertible(at, mer, west);
    ConvertedIsInstant(shown, west, z);
    var tm := LocalTime(t, z).value;
    if MomentOf(tm) == shown.(year := FullYear(at.year) - 1900) {
      ConversionUndoesLocalTime(t, west, z);
      SameMoment(MomentOf(tm), shown, west, z);
    }
  }

  /** From 1970 to 2099 the local clock shows the time said, unless it was twelve o'clock, am or pm. */
  lemma ClockShowsSaid(at: Moment, mer: Meridian, west: int, z: Zone)
    requires Matches(z, west) && Convertible(at, mer) && FullYear(at.year) <= 2099
    requires LocalTime(TimeSaid(at, mer, Maybe, west), z).Some?
    ensures MomentOf(LocalTime(TimeSaid(at, mer, Maybe, west), z).value)
         == at.(year := FullYear(at.year) - 1900, hour := ClockHour(at.hour, mer))
       <==> mer == H24 || at.hour != 12
  {
    hide Convertible, TimeSaid, ClockHour, LocalTime;
    if mer == H24 || at.hour != 12 {
      ShownExceptAtTwelve(at, mer, west, z);
    } else {
      NotShownAtTwelve(at, mer, west, z);
    }
  }

  /** The moment the clock should show, and how far off the time said is. */
  lemma ShownIsConvertible(at: Moment, mer: Meridian, west: int)
    requires Convertible(at, mer) && FullYear(at.year) <= 2099
    ensures var shown := at.(hour := ClockHour(at.hour, mer));
      && Convertible(shown, H24)
      && TimeSaid(at, mer, Maybe, west)
         == Wrap(Instant(shown, H24, west) + (if mer == H24 || at.hour != 12 then 0 else 43200))
  {
    hide Wrap, DayNumber, ValidDate;
    TwelveIsLate(at.hour, at.minutes, at.seconds, mer);
  }

  lemma ConvertedIsInstant(at: Moment, west: int, z: Zone)
    requires Matches(z, west) && Convertible(at, H24) && FullYear(at.year) <= 2099
    ensures Converted(at, H24, Maybe, west, z) == Some(Instant(at, H24, west))
    ensures -100000 < Instant(at, H24, west) < 5000000000
  {
    LocalTimeUndoesConversion(at, west, z);
    SecondsInOrder(at, at);
    DaysUntil2099(DateAt(at));
    hide LocalTime, DayNumber, ValidDate, ToSeconds;
  }

  // ---------------------------------------------------------------- a date and a time, a weekday, never

  function DateSaid(at: Moment): Item {
    OnDay(at.month, at.day, Some(at.year))
  }

  function ClockSaid(at: Moment, mer: Meridian): Item {
    Clock(at.hour, at.minutes, at.seconds, mer)
  }

  lemma OfTwo(p: Item -> bool, a: Item, b: Item)
    ensures Last(p, [a, b]) == if p(b) then Some(b) else if p(a) then Some(a) else None
    ensures Count(p, [a, b]) == (if p(a) then 1 else 0) + (if p(b) then 1 else 0)
  {
    assert [a, b][..1] == [a];
    OfOne(p, a);
  }

  lemma OfOne(p: Item -> bool, a: Item)
    ensures Last(p, [a]) == if p(a) then Some(a) else None
    ensures Count(p, [a]) == if p(a) then 1 else 0
  {
    assert [a][..0] == [];
  }

  /** A date and a time of day alone. */
  lemma DateAndTimeSaid(at: Moment, mer: Meridian, f: Fields)
    ensures var items := [DateSaid(at), ClockSaid(at, mer)];
      && Said(items, f) == f.(at := at, meridian := mer, relSeconds := 0, relMonth := 0,
                              have := f.have.(date := f.have.date + 1, time := f.have.time + 1))
      && Total(Span, items) == 0 && Total(Months, items) == 0
  {
    var date, clock := DateSaid(at), ClockSaid(at, mer);
    NoAmounts(date, clock);
    hide Total, Last, Count;
    OfTwo(IsDate, date, clock);
    OfTwo(IsDated, date, clock);
    OfTwo(IsClock, date, clock);
    OfTwo(IsWeekday, date, clock);
    OfTwo(IsZone, date, clock);
    OfTwo(SaysZone, date, clock);
    OfTwo(IsRelative, date, clock);
  }

  lemma NoAmounts(a: Item, b: Item)
    requires !a.Relative? && !b.Relative?
    ensures Total(Span, [a, b]) == 0 && Total(Months, [a, b]) == 0
    ensures Total(Span, [b]) == 0 && Total(Months, [b]) == 0
  {
    assert [a, b][1..] == [b] && [b][1..] == [];
    assert Total(Span, []) == 0 && Total(Months, []) == 0;
    assert Agos([]) == 0 && Agos([b]) == 0 && Agos([a, b]) == 0;
    assert Total(Span, [b]) == Signed(Span(b), Agos([b])) + Total(Span, []);
    assert Total(Months, [b]) == Signed(Months(b), Agos([b])) + Total(Months, []);
  }

  /** A weekday alone. */
  lemma WeekdaySaid(ordinal: int, number: int, f: Fields)
    ensures var items := [OnWeekday(ordinal, number)];
      && Said(items, f) == f.(dayOrdinal := ordinal, dayNumber := number, relSeconds := 0, relMonth := 0,
                              have := f.have.(day := f.have.day + 1))
      && Total(Span, items) == 0 && Total(Months, items) == 0
  {
    var item := OnWeekday(ordinal, number);
    NoAmounts(item, item);
    hide Total, Last, Count;
    OfOne(IsDate, item);
    OfOne(IsDated, item);
    OfOne(IsClock, item);
    OfOne(IsWeekday, item);
    OfOne(IsZone, item);
    OfOne(SaysZone, item);
    OfOne(IsRelative, item);
  }

  lemma FromDateAndTime(at: Moment, mer: Meridian, now: int, tm: Tm, here: int, z: Zone)
    ensures From(Said([DateSaid(at), ClockSaid(at, mer)], FieldsAt(tm, here)), tm, now, z)
         == if !Convertible(at, mer) then None
            else
              var t := TimeSaid(at, mer, Maybe, here);
              if t < 0 || LocalTime(t, z).None? then None else Some(t)
  {
    hide LocalTime, Said, Convertible, TimeSaid;
    DateAndTimeSaid(at, mer, FieldsAt(tm, here));
  }

  /** Without months and without a weekday. */
  lemma FollowsAtOnce(r: Option<int>, f: Fields, start: int, here: int, z: Zone)
    requires Follows(r, f, start, here, z) && f.relMonth == 0 && f.have.day == 0
    ensures r == Some(Kept(start))
  {
    hide LandedOn, MovedBy;
  }

  /** A date and a time of day alone, on either clock, are the time said. */
  lemma DateAndTimeSpecification(toks: seq<Tok>, at: Moment, mer: Meridian, now: int, here: int, z: Zone)
    requires Matches(z, here) && LocalTime(now, z).Some?
    requires Items(toks, 0) == Some([DateSaid(at), ClockSaid(at, mer)])
    ensures GetDateRel(toks, now, z)
         == if !Convertible(at, mer) then None
            else
              var t := TimeSaid(at, mer, Maybe, here);
              if t < 0 || LocalTime(t, z).None? then None else Some(t)
  {
    hide LocalTime, Items, GetDateRel, Said, From, Follows, Total, Convertible, TimeSaid;
    NotNever(toks);
    var tm, items := LocalTime(now, z).value, [DateSaid(at), ClockSaid(at, mer)];
    var f := Said(items, FieldsAt(tm, here));
    DateAndTimeSaid(at, mer, FieldsAt(tm, here));
    Specification(toks, items, now, here, z);
    FromDateAndTime(at, mer, now, tm, here, z);
    var from := From(f, tm, now, z);
    if from.Some? {
      FollowsAtOnce(GetDateRel(toks, now, z), f, from.value, here, z);
    }
  }

  lemma MidnightToday(now: int, tm: Tm, west: int, z: Zone)
    requires Matches(z, west) && LocalTime(now, z) == Some(tm) && 70 <= tm.year <= 199
    ensures var midnight, at := now - TimeOfDay(tm), FieldsAt(tm, west).at;
      && Converted(at, H24, Maybe, west, z) == Some(midnight) && LocalTime(midnight, z).Some?
      && LocalTime(midnight, z).value.wday == tm.wday && TimeOfDay(LocalTime(midnight, z).value) == 0
  {
    hide LocalTime, DayNumber, Converted;
    LocalTimeReads(now, z);
    var early := tm.(hour := 0, min := 0, sec := 0);
    ConvertedOn(early, DateIn(tm), west, z);
    LocalTimeThen(early, DateIn(tm), west, z);
    assert MomentOn(early, DateIn(tm)) == FieldsAt(tm, west).at;
  }

  lemma FromMidnight(ordinal: int, number: int, now: int, tm: Tm, west: int, z: Zone)
    requires Matches(z, west) && LocalTime(now, z) == Some(tm) && 70 <= tm.year <= 199
    ensures var midnight := now - TimeOfDay(tm);
      From(Said([OnWeekday(ordinal, number)], FieldsAt(tm, west)), tm, now, z)
      == if midnight < 0 then None else Some(midnight)
  {
    hide LocalTime, Converted, TimeOfDay, Said, Convertible, TimeSaid;
    var f := FieldsAt(tm, west);
    WeekdaySaid(ordinal, number, f);
    MidnightToday(now, tm, west, z);
    ConvertedIsSaid(f.at, H24, Maybe, west, z);
  }

  /** Without months, and with a weekday and no date said. */
  lemma FollowsToWeekday(r: Option<int>, f: Fields, start: int, here: int, z: Zone)
    requires Follows(r, f, start, here, z) && f.relMonth == 0 && f.have.day > 0 && f.have.date == 0
    requires 0 <= f.dayNumber <= 6
    ensures LandedOn(r, start, f.dayOrdinal, f.dayNumber, z)
  {
    hide LandedOn, MovedBy;
  }

  /** A weekday said alone is midnight of that day, counted from today. */
  lemma WeekdaySpecification(toks: seq<Tok>, ordinal: int, number: int, now: int, tm: Tm, west: int, z: Zone)
    requires Matches(z, west) && LocalTime(now, z) == Some(tm) && 70 <= tm.year <= 199 && 0 <= number <= 6
    requires Items(toks, 0) == Some([OnWeekday(ordinal, number)])
    ensures var r, midnight := GetDateRel(toks, now, z), now - TimeOfDay(tm);
      if midnight < 0 then r.None? else LandedOn(r, midnight, ordinal, number, z)
    ensures var midnight := LocalTime(now - TimeOfDay(tm), z);
      midnight.Some? && midnight.value.wday == tm.wday && TimeOfDay(midnight.value) == 0
  {
    hide LocalTime, Items, GetDateRel, Converted, TimeOfDay, Said, From, Follows, LandedOn, Total;
    NotNever(toks);
    var items, midnight := [OnWeekday(ordinal, number)], now - TimeOfDay(tm);
    var f := Said(items, FieldsAt(tm, west));
    WeekdaySaid(ordinal, number, FieldsAt(tm, west));
    Specification(toks, items, now, west, z);
    FromMidnight(ordinal, number, now, tm, west, z);
    MidnightToday(now, tm, west, z);
    LocalFits(midnight, z);
    if midnight >= 0 {
      FollowsToWeekday(GetDateRel(toks, now, z), f, midnight, west, z);
    }
  }

  lemma NothingSaid(f: Fields)
    ensures Said([], f) == f.(relSeconds := 0, relMonth := 0) && Total(Span, []) == 0 && Total(Months, []) == 0
  {
  }

  lemma FromEpoch(tm: Tm, now: int, here: int, z: Zone)
    ensures var f := Said([], AtEpoch(FieldsAt(tm, here)));
      f.relMonth == 0 && f.have == Counts(1, 0, 0, 0, 0) && From(f, tm, now, z) == Some(0)
  {
    hide LocalTime, Said, Convertible, TimeSaid;
    NothingSaid(AtEpoch(FieldsAt(tm, here)));
    EpochSaid();
  }

  lemma NothingAfterNever(toks: seq<Tok>)
    requires At(toks, 1) == End
    ensures Items(toks, 1) == Some([])
  {
  }

  /** A leading `never` and nothing more is the epoch. */
  lemma NeverIsEpoch(toks: seq<Tok>, now: int, here: int, z: Zone)
    requires Matches(z, here) && LocalTime(now, z).Some? && At(toks, 0) == Never && At(toks, 1) == End
    ensures GetDateRel(toks, now, z) == Some(0)
  {
    hide LocalTime, Items, GetDateRel, Said, From, Follows, Total, AtEpoch, FieldsAt;
    var tm := LocalTime(now, z).value;
    var f := Said([], AtEpoch(FieldsAt(tm, here)));
    NothingAfterNever(toks);
    NothingSaid(AtEpoch(FieldsAt(tm, here)));
    FromEpoch(tm, now, here, z);
    Specification(toks, [], now, here, z);
    FollowsAtOnce(GetDateRel(toks, now, z), f, 0, here, z);
  }

  lemma EpochSaid()
    ensures var epoch := Moment(1, 1, 1970, 0, 0, 0); Convertible(epoch, H24) && TimeSaid(epoch, H24, Off, 0) == 0
  {
    hide DayNumber, ValidDate, YearStart;
    FirstDay();
    SaidOn(Moment(1, 1, 1970, 0, 0, 0), Date(1970, 0, 1));
  }

  /** Midnight of a date in Greenwich. */
  lemma SaidOn(at: Moment, d: Date)
    requires ValidDate(d) && 1970 <= d.year <= 2099 && at == Moment(d.month + 1, d.day, d.year, 0, 0, 0)
    ensures Convertible(at, H24) && TimeSaid(at, H24, Off, 0) == 86400 * DayNumber(d)
  {
    assert DateAt(at) == d;
    DaysUntil2099(d);
    hide DayNumber, ValidDate;
  }

  lemma FirstDay()
    ensures ValidDate(Date(1970, 0, 1)) && DayNumber(Date(1970, 0, 1)) == 0
  {
    assert MonthStart(1970, 0) == 0 && YearStart(1970) == 0;
  }
}
