/**
 * The grammar of date specifications: which tokens form an item, and what the items of a
 * specification add up to.
 */
module DateParse {
  import opened DateConvert
  import opened DateWords
  import opened Options

  // ---------------------------------------------------------------- items

  /** What one item of a specification says. */
  datatype Item =
    | Clock(hour: int, minutes: int, seconds: int, meridian: Meridian)
    | ClockOffset(hour: int, minutes: int, seconds: int, offset: int)
    | OnDay(month: int, day: int, year: Option<int>)
    | OnWeekday(ordinal: int, number: int)
    | InZone(timezone: int, dst: DstMode)
    | Relative(span: int, months: int, ago: bool)

  /** What the tokens at a position are: the end, an error, or an item and where it ends. */
  datatype Reading = Accept | Reject | Read(item: Item, next: nat)

  function At(toks: seq<Tok>, i: nat): Tok {
    if i < |toks| then toks[i] else End
  }

  /** A relative item of `span` seconds and `months` months ends at `i`, or after an `ago` there. */
  function RelativeTo(toks: seq<Tok>, i: nat, span: int, months: int): Reading {
    if At(toks, i) == Ago then Read(Relative(span, months, true), i + 1) else Read(Relative(span, months, false), i)
  }

  function ReadUnits(toks: seq<Tok>, i: nat, n: int): Reading {
    match At(toks, i)
    case MinuteUnit(u) => RelativeTo(toks, i + 1, 60 * (n * u), 0)
    case SecUnit(_) => RelativeTo(toks, i + 1, n, 0)
    case MonthUnit(u) => RelativeTo(toks, i + 1, 0, n * u)
    case _ => Reject
  }

  /** After an hour and a colon. */
  function ReadClock(toks: seq<Tok>, i: nat, h: int): Reading {
    if !At(toks, i).UNumber? then Reject
    else
      var m := At(toks, i).unsigned;
      match At(toks, i + 1)
      case MeridianOf(mer) => Read(Clock(h, m, 0, mer), i + 2)
      case SNumber(z) => Read(ClockOffset(h, m, 0, z), i + 2)
      case Char(c) =>
        if c != ':' then Read(Clock(h, m, 0, H24), i + 1)
        else if !At(toks, i + 2).UNumber? then Reject
        else
          var s := At(toks, i + 2).unsigned;
          (match At(toks, i + 3)
           case MeridianOf(mer) => Read(Clock(h, m, s, mer), i + 4)
           case SNumber(z) => Read(ClockOffset(h, m, s, z), i + 4)
           case _ => Read(Clock(h, m, s, H24), i + 3))
      case _ => Read(Clock(h, m, 0, H24), i + 1)
  }

  /** After a month and a slash. */
  function ReadSlashed(toks: seq<Tok>, i: nat, m: int): Reading {
    if !At(toks, i).UNumber? then Reject
    else
      var d := At(toks, i).unsigned;
      if At(toks, i + 1) != Char('/') then Read(OnDay(m, d, None), i + 1)
      else if At(toks, i + 2).UNumber? then Read(OnDay(m, d, Some(At(toks, i + 2).unsigned)), i + 3)
      else Reject
  }

  /** After a day and the name of a month. */
  function ReadYear(toks: seq<Tok>, i: nat, m: int, d: int): Reading {
    match At(toks, i)
    case SNumber(y) => Read(OnDay(m, d, Some(Wrap(-y))), i + 1)
    case UNumber(y) => Read(OnDay(m, d, Some(y)), i + 1)
    case _ => Read(OnDay(m, d, None), i)
  }

  function ReadNumbered(toks: seq<Tok>, i: nat, n: int): Reading {
    match At(toks, i)
    case MeridianOf(mer) => Read(Clock(n, 0, 0, mer), i + 1)
    case Char(c) =>
      if c == ':' then ReadClock(toks, i + 1, n) else if c == '/' then ReadSlashed(toks, i + 1, n) else Reject
    case Day(d) => Read(OnWeekday(n, d), i + 1)
    case SNumber(m) =>
      if At(toks, i + 1).SNumber? then Read(OnDay(Wrap(-m), Wrap(-At(toks, i + 1).signed), Some(n)), i + 2) else Reject
    case Month(m) => ReadYear(toks, i + 1, m, n)
    case _ => ReadUnits(toks, i, n)
  }

  function ReadNamedMonth(toks: seq<Tok>, i: nat, m: int): Reading {
    if !At(toks, i).UNumber? then Reject
    else
      var d := At(toks, i).unsigned;
      if At(toks, i + 1) != Char(',') then Read(OnDay(m, d, None), i + 1)
      else if At(toks, i + 2).UNumber? then Read(OnDay(m, d, Some(At(toks, i + 2).unsigned)), i + 3)
      else Reject
  }

  /** Every item takes at least one token. */
  function ReadItem(toks: seq<Tok>, i: nat): (r: Reading)
    ensures r.Accept? <==> At(toks, i) == End
    ensures r.Read? ==> i < r.next
  {
    match At(toks, i)
    case End => Accept
    case UNumber(n) => ReadNumbered(toks, i + 1, n)
    case SNumber(n) => ReadUnits(toks, i + 1, n)
    case MinuteUnit(u) => RelativeTo(toks, i + 1, 60 * u, 0)
    case SecUnit(_) => RelativeTo(toks, i + 1, 1, 0)
    case MonthUnit(u) => RelativeTo(toks, i + 1, 0, u)
    case ZoneOf(z) => if At(toks, i + 1) == Dst then Read(InZone(z, On), i + 2) else Read(InZone(z, Off), i + 1)
    case DayZone(z) => Read(InZone(z, On), i + 1)
    case Day(d) => Read(OnWeekday(1, d), if At(toks, i + 1) == Char(',') then i + 2 else i + 1)
    case Month(m) => ReadNamedMonth(toks, i + 1, m)
    case _ => Reject
  }

  // ---------------------------------------------------------------- the state

  /** How many items of each kind there were. */
  datatype Counts = Counts(date: nat, day: nat, rel: nat, time: nat, zone: nat)

  datatype Fields = Fields(dst: DstMode, dayOrdinal: int, dayNumber: int, have: Counts, timezone: int, at: Moment,
                           meridian: Meridian, relMonth: int, relSeconds: int)

  function Negated(x: int, ago: bool): int {
    if ago then Wrap(-x) else x
  }

  function WithClock(f: Fields, h: int, m: int, s: int, mer: Meridian): Fields {
    f.(at := f.at.(hour := h, minutes := m, seconds := s), meridian := mer, have := f.have.(time := f.have.time + 1))
  }

  /** An offset of hours and minutes east, as minutes west. */
  function MinutesWest(offset: int): int {
    Wrap(-Wrap(Remainder(offset, 100) + Wrap(Quotient(offset, 100) * 60)))
  }

  /** An offset `hhmm` is that many hours and minutes: east of Greenwich, or west if it is negative. */
  lemma OffsetIsHoursAndMinutes(h: nat, m: nat, at: Moment, mer: Meridian)
    requires m < 100 && Fits(100 * h + m) && Convertible(at, mer)
    ensures MinutesWest(100 * h + m) == -(60 * h + m) && MinutesWest(-(100 * h + m)) == 60 * h + m
    ensures Instant(at, mer, MinutesWest(100 * h + m)) == Instant(at, mer, 0) - 60 * (60 * h + m)
    ensures Instant(at, mer, MinutesWest(-(100 * h + m))) == Instant(at, mer, 0) + 60 * (60 * h + m)
  {
    var z := 100 * h + m;
    WestOfOffset(h, m);
    hide Instant, Convertible, MinutesWest;
    ZoneMoves(at, mer, MinutesWest(z));
    ZoneMoves(at, mer, MinutesWest(-z));
  }

  lemma WestOfOffset(h: int, m: int)
    requires h >= 0 && 0 <= m < 100 && Fits(100 * h + m)
    ensures MinutesWest(100 * h + m) == -(60 * h + m) && MinutesWest(-(100 * h + m)) == 60 * h + m
  {
    HoursAndMinutes(h, m);
    hide Quotient, Remainder;
    WrapsNothing(h, m);
    WrapsNothing(-h, -m);
    hide Wrap;
  }

  lemma HoursAndMinutes(h: int, m: int)
    requires h >= 0 && 0 <= m < 100
    ensures Quotient(100 * h + m, 100) == h && Remainder(100 * h + m, 100) == m
    ensures Quotient(-(100 * h + m), 100) == -h && Remainder(-(100 * h + m), 100) == -m
  {
  }

  lemma WrapsNothing(h: int, m: int)
    requires -HALF <= 100 * h + m <= HALF && -100 < m < 100
    ensures Wrap(-Wrap(m + Wrap(h * 60))) == -(60 * h + m)
  {
  }

  lemma ZoneMoves(at: Moment, mer: Meridian, west: int)
    requires Convertible(at, mer)
    ensures Instant(at, mer, west) == Instant(at, mer, 0) + 60 * west
  {
  }

  function WithDate(f: Fields, m: int, d: int, y: Option<int>): Fields {
    f.(at := f.at.(month := m, day := d, year := if y.Some? then y.value else f.at.year),
       have := f.have.(date := f.have.date + 1))
  }

  function WithRelative(f: Fields, span: int, months: int, ago: bool): Fields {
    f.(relSeconds := Negated(Wrap(f.relSeconds + span), ago),
       relMonth := Negated(Wrap(f.relMonth + months), ago), have := f.have.(rel := f.have.rel + 1))
  }

  function Apply(item: Item, f: Fields): Fields {
    match item
    case Clock(h, m, s, mer) => WithClock(f, h, m, s, mer)
    case ClockOffset(h, m, s, z) => WithClock(f, h, m, s, H24).(dst := Off, timezone := MinutesWest(z))
    case OnDay(m, d, y) => WithDate(f, m, d, y)
    case OnWeekday(n, d) => f.(dayOrdinal := n, dayNumber := d, have := f.have.(day := f.have.day + 1))
    case InZone(z, dst) => f.(timezone := z, dst := dst, have := f.have.(zone := f.have.zone + 1))
    case Relative(span, months, ago) => WithRelative(f, span, months, ago)
  }

  /** The items of the tokens from `i` on, if they are items to the end. */
  function Items(toks: seq<Tok>, i: nat): Option<seq<Item>>
    decreases |toks| - i
  {
    match ReadItem(toks, i)
    case Accept => Some([])
    case Reject => None
    case Read(item, next) =>
      match Items(toks, next)
      case None => None
      case Some(rest) => Some([item] + rest)
  }

  function ApplyAll(items: seq<Item>, f: Fields): Fields {
    if items == [] then f else ApplyAll(items[1..], Apply(items[0], f))
  }

  /** A leading `never` is the epoch. */
  function AtEpoch(f: Fields): Fields {
    f.(at := Moment(1, 1, 1970, 0, 0, 0), dst := Off, timezone := 0, have := f.have.(date := f.have.date + 1))
  }

  function Parsed(toks: seq<Tok>, f: Fields): Option<Fields> {
    var never := At(toks, 0) == Never;
    match Items(toks, if never then 1 else 0)
    case None => None
    case Some(items) => Some(ApplyAll(items, if never then AtEpoch(f) else f))
  }

  /** Items never begin with `never`. */
  lemma NotNever(toks: seq<Tok>)
    requires Items(toks, 0).Some?
    ensures At(toks, 0) != Never
  {
  }

  // ---------------------------------------------------------------- relative items

  /** How many `ago` words there are among the items. */
  function Agos(items: seq<Item>): nat {
    if items == [] then 0
    else (if items[0].Relative? && items[0].ago then 1 else 0) + Agos(items[1..])
  }

  function Signed(x: int, agos: nat): int {
    if agos % 2 == 0 then x else -x
  }

  function Span(item: Item): int {
    if item.Relative? then item.span else 0
  }

  function Months(item: Item): int {
    if item.Relative? then item.months else 0
  }

  /** Each item's amount, negated once for every `ago` at or after it. */
  function Total(amount: Item -> int, items: seq<Item>): int {
    if items == [] then 0 else Signed(amount(items[0]), Agos(items)) + Total(amount, items[1..])
  }

  lemma WrapNegated(x: int, ago: bool)
    ensures Negated(Wrap(x), ago) == Wrap(if ago then -x else x)
  {
    NegatedWrap(x);
  }

  lemma WrapSigned(x: int, agos: nat)
    ensures Wrap(Signed(Wrap(x), agos)) == Wrap(Signed(x, agos))
  {
    WrapNegated(x, agos % 2 == 1);
  }

  /** One more amount, then the sign of the `ago` words from there on. */
  lemma AmountStep(r: int, x: int, ago: bool, agos: nat, rest: int)
    ensures Wrap(Signed(Negated(Wrap(r + x), ago), agos) + rest)
         == Wrap(Signed(r, agos + (if ago then 1 else 0)) + (Signed(x, agos + (if ago then 1 else 0)) + rest))
  {
    hide Wrap;
    var y := if ago then -(r + x) else r + x;
    WrapNegated(r + x, ago);
    WrapSigned(y, agos);
    WrapSum(Signed(Wrap(y), agos), rest);
    WrapSum(Signed(y, agos), rest);
    assert Signed(y, agos) == Signed(r, agos + (if ago then 1 else 0)) + Signed(x, agos + (if ago then 1 else 0));
  }

  lemma AppliedAmounts(item: Item, f: Fields)
    requires Fits(f.relSeconds) && Fits(f.relMonth)
    ensures var g, ago := Apply(item, f), IsAgo(item);
      && Fits(g.relSeconds) && Fits(g.relMonth)
      && g.relSeconds == Negated(Wrap(f.relSeconds + Span(item)), ago)
      && g.relMonth == Negated(Wrap(f.relMonth + Months(item)), ago)
  {
    hide MinutesWest;
  }

  predicate IsAgo(item: Item) {
    item.Relative? && item.ago
  }

  /** The amounts added up from the left, negated at each `ago`. */
  function Accumulated(amount: Item -> int, items: seq<Item>, r: int): int {
    if items == [] then r
    else Accumulated(amount, items[1..], Negated(Wrap(r + amount(items[0])), IsAgo(items[0])))
  }

  lemma {:induction false} AccumulatedIsTotal(amount: Item -> int, items: seq<Item>, r: int)
    requires Fits(r)
    ensures Accumulated(amount, items, r) == Wrap(Signed(r, Agos(items)) + Total(amount, items))
  {
    if items != [] {
      var x, ago, rest := amount(items[0]), IsAgo(items[0]), items[1..];
      var agos, total := Agos(rest), Total(amount, rest);
      AccumulatedIsTotal(amount, rest, Negated(Wrap(r + x), ago));
      assert Agos(items) == agos + (if ago then 1 else 0);
      assert Total(amount, items) == Signed(x, Agos(items)) + total;
      hide Wrap, Signed, Negated, Agos, Total;
      AmountStep(r, x, ago, agos, total);
    }
  }

  lemma {:induction false} ApplyAllAccumulates(items: seq<Item>, f: Fields)
    requires Fits(f.relSeconds) && Fits(f.relMonth)
    ensures ApplyAll(items, f).relSeconds == Accumulated(Span, items, f.relSeconds)
    ensures ApplyAll(items, f).relMonth == Accumulated(Months, items, f.relMonth)
  {
    if items != [] {
      AppliedAmounts(items[0], f);
      hide Apply, Wrap, Negated;
      ApplyAllAccumulates(items[1..], Apply(items[0], f));
    }
  }

  /**
   * Over any items, the seconds and the months come to each amount with the sign of the `ago`
   * words at or after it, as 64-bit words.
   */
  lemma RelativeTotals(items: seq<Item>, f: Fields)
    requires Fits(f.relSeconds) && Fits(f.relMonth)
    ensures var r := ApplyAll(items, f);
      && r.relSeconds == Wrap(Signed(f.relSeconds, Agos(items)) + Total(Span, items))
      && r.relMonth == Wrap(Signed(f.relMonth, Agos(items)) + Total(Months, items))
  {
    hide Wrap, Signed, Agos, Total;
    ApplyAllAccumulates(items, f);
    AccumulatedIsTotal(Span, items, f.relSeconds);
    AccumulatedIsTotal(Months, items, f.relMonth);
  }

  // ---------------------------------------------------------------- the parser

  /** A reading carried out: where it ends, and the fields before and after. */
  ghost predicate Did(reading: Reading, r: Option<nat>, before: Fields, after: Fields) {
    && (reading.Read? <==> r.Some?)
    && (r.Some? ==> r.value == reading.next && after == Apply(reading.item, before))
  }

  class State {
    var dst: DstMode
    var dayOrdinal: int
    var dayNumber: int
    var have: Counts
    var timezone: int
    var at: Moment
    var meridian: Meridian
    var relMonth: int
    var relSeconds: int

    function Value(): Fields
      reads this
    {
      Fields(dst, dayOrdinal, dayNumber, have, timezone, at, meridian, relMonth, relSeconds)
    }

    method Time(h: int, m: int, s: int, mer: Meridian)
      modifies this
      ensures Value() == WithClock(old(Value()), h, m, s, mer)
    {
      at, meridian := at.(hour := h, minutes := m, seconds := s), mer;
      have := have.(time := have.time + 1);
    }

    method TimeOffset(h: int, m: int, s: int, offset: int)
      modifies this
      ensures Value() == WithClock(old(Value()), h, m, s, H24).(dst := Off, timezone := MinutesWest(offset))
    {
      hide Wrap, Quotient, Remainder;
      Time(h, m, s, H24);
      dst := Off;
      timezone := Wrap(-Wrap(Remainder(offset, 100) + Wrap(Quotient(offset, 100) * 60)));
    }

    method Date(m: int, d: int, y: Option<int>)
      modifies this
      ensures Value() == WithDate(old(Value()), m, d, y)
    {
      at := at.(month := m, day := d);
      if y.Some? {
        at := at.(year := y.value);
      }
      have := have.(date := have.date + 1);
    }

    method Weekday(n: int, d: int)
      modifies this
      ensures Value() == old(Value()).(dayOrdinal := n, dayNumber := d, have := old(have).(day := old(have).day + 1))
    {
      dayOrdinal, dayNumber := n, d;
      have := have.(day := have.day + 1);
    }

    method ZoneAndDst(z: int, d: DstMode)
      modifies this
      ensures Value() == old(Value()).(timezone := z, dst := d, have := old(have).(zone := old(have).zone + 1))
    {
      timezone, dst := z, d;
      have := have.(zone := have.zone + 1);
    }

    /** Counts a relative item already added, and negates the amounts at an `ago`. */
    method Rel(toks: seq<Tok>, i: nat) returns (next: nat)
      modifies this
      ensures next == if At(toks, i) == Ago then i + 1 else i
      ensures var ago := At(toks, i) == Ago;
        Value() == old(Value()).(relSeconds := Negated(old(relSeconds), ago), relMonth := Negated(old(relMonth), ago),
                                 have := old(have).(rel := old(have).rel + 1))
    {
      have := have.(rel := have.rel + 1);
      if At(toks, i) == Ago {
        relSeconds, relMonth := Wrap(-relSeconds), Wrap(-relMonth);
        return i + 1;
      }
      return i;
    }

    method AddMinutes(n: int)
      modifies this
      ensures Value() == old(Value()).(relSeconds := Wrap(old(relSeconds) + 60 * n))
    {
      hide Wrap;
      WrapSum(relSeconds, n * 60);
      relSeconds := Wrap(relSeconds + Wrap(n * 60));
    }

    ghost predicate Words()
      reads this
    {
      Fits(relSeconds) && Fits(relMonth)
    }

    /** Adds an amount of one of the units. */
    method AddUnits(unit: Tok, n: int)
      requires Words() && (unit.MinuteUnit? || unit.SecUnit? || unit.MonthUnit?)
      modifies this
      ensures var reading := ReadUnits([unit], 0, n);
        Value() == old(Value()).(relSeconds := Wrap(old(relSeconds) + reading.item.span),
                                 relMonth := Wrap(old(relMonth) + reading.item.months))
    {
      match unit {
        case MinuteUnit(u) =>
          MinutesOf(relSeconds, n, u);
          AddMinutes(Wrap(n * u));
        case SecUnit(_) =>
          relSeconds := Wrap(relSeconds + n);
        case MonthUnit(u) =>
          WrapSum(relMonth, n * u);
          relMonth := Wrap(relMonth + Wrap(n * u));
      }
    }

    method Units(toks: seq<Tok>, i: nat, n: int) returns (r: Option<nat>)
      requires Words()
      modifies this
      ensures Did(ReadUnits(toks, i, n), r, old(Value()), Value())
    {
      var unit := At(toks, i);
      if !(unit.MinuteUnit? || unit.SecUnit? || unit.MonthUnit?) {
        return None;
      }
      hide Wrap;
      AddUnits(unit, n);
      var next := Rel(toks, i + 1);
      return Some(next);
    }

    method ClockAt(toks: seq<Tok>, i: nat, h: int) returns (r: Option<nat>)
      modifies this
      ensures Did(ReadClock(toks, i, h), r, old(Value()), Value())
    {
      hide MinutesWest;
      if !At(toks, i).UNumber? {
        return None;
      }
      var m := At(toks, i).unsigned;
      match At(toks, i + 1) {
        case MeridianOf(mer) =>
          Time(h, m, 0, mer);
          return Some(i + 2);
        case SNumber(z) =>
          TimeOffset(h, m, 0, z);
          return Some(i + 2);
        case _ =>
      }
      if At(toks, i + 1) != Char(':') {
        Time(h, m, 0, H24);
        return Some(i + 1);
      }
      if !At(toks, i + 2).UNumber? {
        return None;
      }
      var s := At(toks, i + 2).unsigned;
      match At(toks, i + 3) {
        case MeridianOf(mer) =>
          Time(h, m, s, mer);
          return Some(i + 4);
        case SNumber(z) =>
          TimeOffset(h, m, s, z);
          return Some(i + 4);
        case _ =>
          Time(h, m, s, H24);
          return Some(i + 3);
      }
    }

    method SlashedAt(toks: seq<Tok>, i: nat, m: int) returns (r: Option<nat>)
      modifies this
      ensures Did(ReadSlashed(toks, i, m), r, old(Value()), Value())
    {
      if !At(toks, i).UNumber? {
        return None;
      }
      var d := At(toks, i).unsigned;
      if At(toks, i + 1) != Char('/') {
        Date(m, d, None);
        return Some(i + 1);
      }
      if !At(toks, i + 2).UNumber? {
        return None;
      }
      Date(m, d, Some(At(toks, i + 2).unsigned));
      return Some(i + 3);
    }

    method YearAt(toks: seq<Tok>, i: nat, m: int, d: int) returns (r: Option<nat>)
      modifies this
      ensures Did(ReadYear(toks, i, m, d), r, old(Value()), Value())
    {
      hide Wrap;
      match At(toks, i) {
        case SNumber(y) =>
          Date(m, d, Some(Wrap(-y)));
          return Some(i + 1);
        case UNumber(y) =>
          Date(m, d, Some(y));
          return Some(i + 1);
        case _ =>
          Date(m, d, None);
          return Some(i);
      }
    }

    method Numbered(toks: seq<Tok>, i: nat, n: int) returns (r: Option<nat>)
      requires Words()
      modifies this
      ensures Did(ReadNumbered(toks, i, n), r, old(Value()), Value())
    {
      hide Wrap, ReadClock, ReadSlashed, ReadYear;
      match At(toks, i) {
        case MeridianOf(mer) =>
          Time(n, 0, 0, mer);
          r := Some(i + 1);
        case Day(d) =>
          Weekday(n, d);
          r := Some(i + 1);
        case SNumber(m) =>
          if At(toks, i + 1).SNumber? {
            Date(Wrap(-m), Wrap(-At(toks, i + 1).signed), Some(n));
            r := Some(i + 2);
          } else {
            r := None;
          }
        case Month(m) =>
          r := YearAt(toks, i + 1, m, n);
        case Char(c) =>
          if c == ':' {
            r := ClockAt(toks, i + 1, n);
          } else if c == '/' {
            r := SlashedAt(toks, i + 1, n);
          } else {
            r := None;
          }
        case _ =>
          r := Units(toks, i, n);
      }
    }

    method NamedMonthAt(toks: seq<Tok>, i: nat, m: int) returns (r: Option<nat>)
      modifies this
      ensures Did(ReadNamedMonth(toks, i, m), r, old(Value()), Value())
    {
      if !At(toks, i).UNumber? {
        return None;
      }
      var d := At(toks, i).unsigned;
      if At(toks, i + 1) != Char(',') {
        Date(m, d, None);
        return Some(i + 1);
      }
      if !At(toks, i + 2).UNumber? {
        return None;
      }
      Date(m, d, Some(At(toks, i + 2).unsigned));
      return Some(i + 3);
    }

    method ZoneOrDay(toks: seq<Tok>, i: nat) returns (r: Option<nat>)
      requires At(toks, i).ZoneOf? || At(toks, i).DayZone? || At(toks, i).Day?
      modifies this
      ensures Did(ReadItem(toks, i), r, old(Value()), Value())
    {
      match At(toks, i) {
        case ZoneOf(z) =>
          if At(toks, i + 1) == Dst {
            ZoneAndDst(z, On);
            r := Some(i + 2);
          } else {
            ZoneAndDst(z, Off);
            r := Some(i + 1);
          }
        case DayZone(z) =>
          ZoneAndDst(z, On);
          r := Some(i + 1);
        case Day(d) =>
          Weekday(1, d);
          r := Some(if At(toks, i + 1) == Char(',') then i + 2 else i + 1);
      }
    }

    method OneItem(toks: seq<Tok>, i: nat) returns (r: Option<nat>)
      requires Words() && At(toks, i) != End
      modifies this
      ensures Did(ReadItem(toks, i), r, old(Value()), Value())
    {
      hide Wrap, ReadNumbered, ReadNamedMonth, Apply;
      var t := At(toks, i);
      if t.UNumber? {
        r := Numbered(toks, i + 1, t.unsigned);
      } else if t.SNumber? {
        r := Units(toks, i + 1, t.signed);
      } else if t.Month? {
        r := NamedMonthAt(toks, i + 1, t.month);
      } else if t.ZoneOf? || t.DayZone? || t.Day? {
        r := ZoneOrDay(toks, i);
      } else {
        r := Units(toks, i, 1);
      }
    }

    method Epoch()
      requires Words()
      modifies this
      ensures Value() == AtEpoch(old(Value())) && Words()
    {
      at, dst, timezone := Moment(1, 1, 1970, 0, 0, 0), Off, 0;
      have := have.(date := have.date + 1);
    }

    /** Reads items until the tokens end or form none. */
    method Parse(toks: seq<Tok>) returns (ok: bool)
      requires Words()
      modifies this
      ensures ok <==> Parsed(toks, old(Value())).Some?
      ensures ok ==> Value() == Parsed(toks, old(Value())).value
    {
      hide Apply, ReadItem, ApplyAll, AtEpoch, Items;
      var i := 0;
      if At(toks, 0) == Never {
        Epoch();
        i := 1;
      }
      ghost var start, first := i, Value();
      while At(toks, i) != End
        invariant Words()
        invariant Items(toks, start).Some? <==> Items(toks, i).Some?
        invariant Items(toks, start).Some? ==>
          ApplyAll(Items(toks, start).value, first) == ApplyAll(Items(toks, i).value, Value())
        decreases |toks| - i
      {
        ghost var here := Value();
        var r := OneItem(toks, i);
        if r.None? {
          RejectedItem(toks, i);
          return false;
        }
        NextItem(toks, i, here);
        AppliedAmounts(ReadItem(toks, i).item, here);
        i := r.value;
      }
      NoItems(toks, i, Value());
      return true;
    }
  }

  lemma NoItems(toks: seq<Tok>, i: nat, f: Fields)
    requires At(toks, i) == End
    ensures Items(toks, i).Some? && ApplyAll(Items(toks, i).value, f) == f
  {
  }

  lemma RejectedItem(toks: seq<Tok>, i: nat)
    requires ReadItem(toks, i).Reject?
    ensures Items(toks, i).None?
  {
  }

  lemma NextItem(toks: seq<Tok>, i: nat, f: Fields)
    requires ReadItem(toks, i).Read?
    ensures var item, next := ReadItem(toks, i).item, ReadItem(toks, i).next;
      && (Items(toks, i).Some? <==> Items(toks, next).Some?)
      && (Items(toks, i).Some? ==>
            ApplyAll(Items(toks, i).value, f) == ApplyAll(Items(toks, next).value, Apply(item, f)))
  {
    hide ReadItem, Apply;
    if Items(toks, i).Some? {
      assert Items(toks, i).value[1..] == Items(toks, ReadItem(toks, i).next).value;
    }
  }

  /** Minutes wrapped before they become seconds. */
  lemma MinutesOf(r: int, n: int, u: int)
    ensures Wrap(r + 60 * Wrap(n * u)) == Wrap(r + 60 * (n * u))
  {
    hide Wrap;
    WrapSixty(n * u);
    WrapSum(r, 60 * Wrap(n * u));
    WrapSum(r, 60 * (n * u));
  }

  lemma WrapSixty(a: int)
    ensures Wrap(60 * Wrap(a)) == Wrap(60 * a)
  {
    var k := (a + HALF) / WHOLE;
    assert Wrap(a) == a - k * WHOLE;
    assert (60 * Wrap(a) + HALF) % WHOLE == (60 * a + HALF) % WHOLE;
  }
}
