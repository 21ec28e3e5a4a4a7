/**
 * The grammar the parser accepts: the forms in which an item can be written, each ended by a token
 * that does not go on with it.
 */
module DateParseLaws {
  import opened DateConvert
  import opened DateParse
  import opened DateWords
  import opened Options

  // ---------------------------------------------------------------- forms

  /** What may follow a time of day. */
  datatype Suffix = Bare | OfDay(meridian: Meridian) | East(offset: int)

  datatype Form =
    | AtHour(hour: int, meridian: Meridian)
    | AtMinute(hour: int, minutes: int, suffix: Suffix)
    | AtSecond(hour: int, minutes: int, seconds: int, suffix: Suffix)
    | Slashes(month: int, day: int, year: Option<int>)
    | Dashes(fullYear: int, minusMonth: int, minusDay: int)
    | DayFirst(day: int, month: int, year: Option<int>)
    | DayFirstDashed(day: int, month: int, minusYear: int)
    | MonthFirst(month: int, day: int, year: Option<int>)
    | NthDay(n: int, weekday: int)
    | NamedDay(weekday: int, comma: bool)
    | NamedZone(zone: int, summer: bool)
    | SummerZone(zone: int)
    | Counted(n: int, signed: bool, unit: Tok, ago: bool)
    | OneUnit(unit: Tok, ago: bool)

  predicate IsUnit(t: Tok) {
    t.MinuteUnit? || t.SecUnit? || t.MonthUnit?
  }

  predicate Writable(form: Form) {
    form.Counted? || form.OneUnit? ==> IsUnit(form.unit)
  }

  function SuffixTokens(s: Suffix): seq<Tok> {
    match s
    case Bare => []
    case OfDay(mer) => [MeridianOf(mer)]
    case East(z) => [SNumber(z)]
  }

  function YearTokens(mark: seq<Tok>, year: Option<int>): seq<Tok> {
    if year.Some? then mark + [UNumber(year.value)] else []
  }

  function AgoTokens(ago: bool): seq<Tok> {
    if ago then [Ago] else []
  }

  /** The tokens of a form. */
  function Write(form: Form): seq<Tok> {
    match form
    case AtHour(h, mer) => [UNumber(h), MeridianOf(mer)]
    case AtMinute(h, m, suffix) => [UNumber(h), Char(':'), UNumber(m)] + SuffixTokens(suffix)
    case AtSecond(h, m, s, suffix) =>
      [UNumber(h), Char(':'), UNumber(m), Char(':'), UNumber(s)] + SuffixTokens(suffix)
    case Slashes(m, d, y) => [UNumber(m), Char('/'), UNumber(d)] + YearTokens([Char('/')], y)
    case Dashes(y, m, d) => [UNumber(y), SNumber(m), SNumber(d)]
    case DayFirst(d, m, y) => [UNumber(d), Month(m)] + YearTokens([], y)
    case DayFirstDashed(d, m, y) => [UNumber(d), Month(m), SNumber(y)]
    case MonthFirst(m, d, y) => [Month(m), UNumber(d)] + YearTokens([Char(',')], y)
    case NthDay(n, d) => [UNumber(n), Day(d)]
    case NamedDay(d, comma) => [Day(d)] + (if comma then [Char(',')] else [])
    case NamedZone(z, summer) => [ZoneOf(z)] + (if summer then [Dst] else [])
    case SummerZone(z) => [DayZone(z)]
    case Counted(n, signed, unit, ago) => [if signed then SNumber(n) else UNumber(n), unit] + AgoTokens(ago)
    case OneUnit(unit, ago) => [unit] + AgoTokens(ago)
  }

  function ClockWith(h: int, m: int, s: int, suffix: Suffix): Item {
    match suffix
    case Bare => Clock(h, m, s, H24)
    case OfDay(mer) => Clock(h, m, s, mer)
    case East(z) => ClockOffset(h, m, s, z)
  }

  /** An amount of a unit: minutes are given in seconds, years in months. */
  function AmountOf(n: int, unit: Tok, ago: bool): Item {
    match unit
    case MinuteUnit(u) => Relative(60 * (n * u), 0, ago)
    case MonthUnit(u) => Relative(0, n * u, ago)
    case _ => Relative(n, 0, ago)
  }

  /** What a form says. */
  function Says(form: Form): Item {
    match form
    case AtHour(h, mer) => Clock(h, 0, 0, mer)
    case AtMinute(h, m, suffix) => ClockWith(h, m, 0, suffix)
    case AtSecond(h, m, s, suffix) => ClockWith(h, m, s, suffix)
    case Slashes(m, d, y) => OnDay(m, d, y)
    case Dashes(y, m, d) => OnDay(Wrap(-m), Wrap(-d), Some(y))
    case DayFirst(d, m, y) => OnDay(m, d, y)
    case DayFirstDashed(d, m, y) => OnDay(m, d, Some(Wrap(-y)))
    case MonthFirst(m, d, y) => OnDay(m, d, y)
    case NthDay(n, d) => OnWeekday(n, d)
    case NamedDay(d, _) => OnWeekday(1, d)
    case NamedZone(z, summer) => InZone(z, if summer then On else Off)
    case SummerZone(z) => InZone(z, On)
    case Counted(n, _, unit, ago) => AmountOf(n, unit, ago)
    case OneUnit(unit, ago) => AmountOf(1, unit, ago)
  }

  /** The token would be read as part of the form before it. */
  predicate Glues(form: Form, t: Tok) {
    match form
    case AtMinute(_, _, suffix) => suffix == Bare && (t.MeridianOf? || t.SNumber? || t == Char(':'))
    case AtSecond(_, _, _, suffix) => suffix == Bare && (t.MeridianOf? || t.SNumber?)
    case Slashes(_, _, y) => y.None? && t == Char('/')
    case DayFirst(_, _, y) => y.None? && (t.UNumber? || t.SNumber?)
    case MonthFirst(_, _, y) => y.None? && t == Char(',')
    case NamedDay(_, comma) => !comma && t == Char(',')
    case NamedZone(_, summer) => !summer && t == Dst
    case Counted(_, _, _, ago) => !ago && t == Ago
    case OneUnit(_, ago) => !ago && t == Ago
    case _ => false
  }

  predicate Holds(toks: seq<Tok>, i: nat, part: seq<Tok>) {
    i + |part| <= |toks| && forall j :: 0 <= j < |part| ==> toks[i + j] == part[j]
  }

  /** The form stands at `i` and ends there. */
  predicate Stands(toks: seq<Tok>, i: nat, form: Form) {
    Writable(form) && Holds(toks, i, Write(form)) && !Glues(form, At(toks, i + |Write(form)|))
  }

  // ---------------------------------------------------------------- a form is read as what it says

  lemma ClockReads(toks: seq<Tok>, i: nat, form: Form)
    requires Stands(toks, i, form) && (form.AtMinute? || form.AtSecond?)
    ensures ReadItem(toks, i) == Read(Says(form), i + |Write(form)|)
  {
    var part := Write(form);
    assert toks[i] == part[0] && toks[i + 1] == part[1] && toks[i + 2] == part[2];
    assert |part| > 3 ==> toks[i + 3] == part[3];
    assert |part| > 4 ==> toks[i + 4] == part[4];
    assert |part| > 5 ==> toks[i + 5] == part[5];
  }

  lemma DateReads(toks: seq<Tok>, i: nat, form: Form)
    requires Stands(toks, i, form)
    requires form.Slashes? || form.Dashes? || form.DayFirst? || form.DayFirstDashed? || form.MonthFirst?
    ensures ReadItem(toks, i) == Read(Says(form), i + |Write(form)|)
  {
    hide Wrap;
    var part := Write(form);
    assert toks[i] == part[0] && toks[i + 1] == part[1];
    assert |part| > 2 ==> toks[i + 2] == part[2];
    assert |part| > 3 ==> toks[i + 3] == part[3];
    assert |part| > 4 ==> toks[i + 4] == part[4];
  }

  lemma AmountReads(toks: seq<Tok>, i: nat, form: Form)
    requires Stands(toks, i, form) && (form.Counted? || form.OneUnit?)
    ensures ReadItem(toks, i) == Read(Says(form), i + |Write(form)|)
  {
    var part := Write(form);
    assert toks[i] == part[0];
    assert |part| > 1 ==> toks[i + 1] == part[1];
    assert |part| > 2 ==> toks[i + 2] == part[2];
  }

  /** A form, ended where it ends, is read as the item it says. */
  lemma FormReads(toks: seq<Tok>, i: nat, form: Form)
    requires Stands(toks, i, form)
    ensures ReadItem(toks, i) == Read(Says(form), i + |Write(form)|)
  {
    match form
    case AtMinute(_, _, _) => ClockReads(toks, i, form);
    case AtSecond(_, _, _, _) => ClockReads(toks, i, form);
    case Slashes(_, _, _) => DateReads(toks, i, form);
    case Dashes(_, _, _) => DateReads(toks, i, form);
    case DayFirst(_, _, _) => DateReads(toks, i, form);
    case DayFirstDashed(_, _, _) => DateReads(toks, i, form);
    case MonthFirst(_, _, _) => DateReads(toks, i, form);
    case Counted(_, _, _, _) => AmountReads(toks, i, form);
    case OneUnit(_, _) => AmountReads(toks, i, form);
    case SummerZone(_) =>
      assert toks[i] == Write(form)[0];
    case _ =>
      var part := Write(form);
      assert toks[i] == part[0];
      assert |part| > 1 ==> toks[i + 1] == part[1];
  }

  // ---------------------------------------------------------------- only forms are read

  function SuffixAt(t: Tok): Suffix {
    match t
    case MeridianOf(mer) => OfDay(mer)
    case SNumber(z) => East(z)
    case _ => Bare
  }

  function YearAt(mark: bool, t: Tok): Option<int> {
    if mark && t.UNumber? then Some(t.unsigned) else None
  }

  function ClockFormAt(toks: seq<Tok>, i: nat, h: int, m: int): Form {
    if At(toks, i + 3) == Char(':') && At(toks, i + 4).UNumber? then
      AtSecond(h, m, At(toks, i + 4).unsigned, SuffixAt(At(toks, i + 5)))
    else AtMinute(h, m, SuffixAt(At(toks, i + 3)))
  }

  function NumberedFormAt(toks: seq<Tok>, i: nat, n: int): Form {
    var second := At(toks, i + 2);
    match At(toks, i + 1)
    case MeridianOf(mer) => AtHour(n, mer)
    case Day(d) => NthDay(n, d)
    case SNumber(m) => Dashes(n, m, if second.SNumber? then second.signed else 0)
    case Month(m) =>
      if second.SNumber? then DayFirstDashed(n, m, second.signed) else DayFirst(n, m, YearAt(true, second))
    case Char(c) =>
      var number := if second.UNumber? then second.unsigned else 0;
      if c == ':' then ClockFormAt(toks, i, n, number)
      else Slashes(n, number, YearAt(At(toks, i + 3) == Char('/'), At(toks, i + 4)))
    case unit => Counted(n, false, unit, second == Ago)
  }

  /** The form of the item read at `i`. */
  function FormAt(toks: seq<Tok>, i: nat): Form {
    var next := At(toks, i + 1);
    match At(toks, i)
    case UNumber(n) => NumberedFormAt(toks, i, n)
    case SNumber(n) => Counted(n, true, next, At(toks, i + 2) == Ago)
    case ZoneOf(z) => NamedZone(z, next == Dst)
    case DayZone(z) => SummerZone(z)
    case Day(d) => NamedDay(d, next == Char(','))
    case Month(m) =>
      MonthFirst(m, if next.UNumber? then next.unsigned else 0, YearAt(At(toks, i + 2) == Char(','), At(toks, i + 3)))
    case unit => OneUnit(unit, next == Ago)
  }

  lemma SecondsIsForm(toks: seq<Tok>, i: nat)
    requires ReadItem(toks, i).Read? && At(toks, i).UNumber? && At(toks, i + 1) == Char(':')
    requires At(toks, i + 3) == Char(':')
    ensures Stands(toks, i, FormAt(toks, i))
  {
    hide ReadUnits, ReadSlashed, ReadYear, ReadNamedMonth;
  }

  lemma MinutesIsForm(toks: seq<Tok>, i: nat)
    requires ReadItem(toks, i).Read? && At(toks, i).UNumber? && At(toks, i + 1) == Char(':')
    requires At(toks, i + 3) != Char(':')
    ensures Stands(toks, i, FormAt(toks, i))
  {
    hide ReadUnits, ReadSlashed, ReadYear, ReadNamedMonth;
  }

  lemma NumberedIsForm(toks: seq<Tok>, i: nat)
    requires ReadItem(toks, i).Read? && At(toks, i).UNumber? && At(toks, i + 1) != Char(':')
    ensures Stands(toks, i, FormAt(toks, i))
  {
    hide Wrap, ClockFormAt, ReadClock, ReadNamedMonth;
  }

  lemma MonthIsForm(toks: seq<Tok>, i: nat)
    requires ReadItem(toks, i).Read? && At(toks, i).Month?
    ensures Stands(toks, i, FormAt(toks, i))
  {
    hide Wrap, NumberedFormAt, ReadNumbered, ReadUnits;
  }

  lemma AmountIsForm(toks: seq<Tok>, i: nat)
    requires ReadItem(toks, i).Read? && (At(toks, i).SNumber? || IsUnit(At(toks, i)))
    ensures Stands(toks, i, FormAt(toks, i))
  {
    hide Wrap, NumberedFormAt, ReadNumbered, ReadNamedMonth;
  }

  lemma NameIsForm(toks: seq<Tok>, i: nat)
    requires At(toks, i).ZoneOf? || At(toks, i).DayZone? || At(toks, i).Day?
    ensures Stands(toks, i, FormAt(toks, i))
  {
    hide Wrap, NumberedFormAt, ReadNumbered, ReadNamedMonth, ReadUnits;
  }

  lemma FirstToken(toks: seq<Tok>, i: nat)
    requires ReadItem(toks, i).Read?
    ensures var t := At(toks, i);
      t.UNumber? || t.SNumber? || IsUnit(t) || t.Month? || t.ZoneOf? || t.DayZone? || t.Day?
  {
    hide ReadNumbered, ReadNamedMonth, ReadUnits;
  }

  /** Whatever is read as an item is one of the forms. */
  lemma ReadIsForm(toks: seq<Tok>, i: nat)
    requires ReadItem(toks, i).Read?
    ensures Stands(toks, i, FormAt(toks, i))
  {
    FirstToken(toks, i);
    hide ReadItem, FormAt, Stands;
    var t := At(toks, i);
    if t.UNumber? {
      if At(toks, i + 1) != Char(':') {
        NumberedIsForm(toks, i);
      } else if At(toks, i + 3) == Char(':') {
        SecondsIsForm(toks, i);
      } else {
        MinutesIsForm(toks, i);
      }
    } else if t.Month? {
      MonthIsForm(toks, i);
    } else if t.SNumber? || IsUnit(t) {
      AmountIsForm(toks, i);
    } else {
      NameIsForm(toks, i);
    }
  }

  // ---------------------------------------------------------------- the whole

  /** From `i` to the end token the tokens are these forms. */
  predicate StandInTurn(toks: seq<Tok>, i: nat, forms: seq<Form>)
    decreases |forms|
  {
    if forms == [] then At(toks, i) == End
    else Stands(toks, i, forms[0]) && StandInTurn(toks, i + |Write(forms[0])|, forms[1..])
  }

  function SayAll(forms: seq<Form>): seq<Item> {
    if forms == [] then [] else [Says(forms[0])] + SayAll(forms[1..])
  }

  lemma ItemsStep(toks: seq<Tok>, i: nat, item: Item, next: nat)
    requires ReadItem(toks, i) == Read(item, next) && Items(toks, next).Some?
    ensures Items(toks, i) == Some([item] + Items(toks, next).value)
  {
    hide ReadItem;
  }

  lemma NothingRead(toks: seq<Tok>, i: nat)
    requires At(toks, i) == End
    ensures Items(toks, i) == Some([])
  {
  }

  lemma {:induction false} FormsRead(toks: seq<Tok>, i: nat, forms: seq<Form>)
    requires StandInTurn(toks, i, forms)
    ensures Items(toks, i) == Some(SayAll(forms))
    decreases |forms|
  {
    hide ReadItem, Stands, Write, Says, Items;
    if forms == [] {
      NothingRead(toks, i);
    } else {
      FormReads(toks, i, forms[0]);
      FormsRead(toks, i + |Write(forms[0])|, forms[1..]);
      ItemsStep(toks, i, Says(forms[0]), i + |Write(forms[0])|);
    }
  }

  /** The form of the first item, and items after it. */
  lemma FirstForm(toks: seq<Tok>, i: nat)
    requires Items(toks, i).Some? && At(toks, i) != End
    ensures var form := FormAt(toks, i);
      Stands(toks, i, form) && Write(form) != [] && Items(toks, i + |Write(form)|).Some?
  {
    var next := ReadItem(toks, i).next;
    assert Items(toks, next).Some?;
    hide Stands, Write, Says, FormAt, ReadItem, Items;
    ReadIsForm(toks, i);
    FormReads(toks, i, FormAt(toks, i));
    assert next > i;
  }

  lemma {:induction false} ReadAreForms(toks: seq<Tok>, i: nat) returns (forms: seq<Form>)
    requires Items(toks, i).Some?
    ensures StandInTurn(toks, i, forms)
    decreases |toks| - i
  {
    hide Stands, Write, FormAt, Items;
    forms := [];
    if At(toks, i) != End {
      var form := FormAt(toks, i);
      FirstForm(toks, i);
      var rest := ReadAreForms(toks, i + |Write(form)|);
      forms := [form] + rest;
      assert forms[1..] == rest;
    }
  }

  /**
   * The tokens are a specification exactly when they are forms, each ended where it ends, up to the
   * end token; and then the items are what the forms say.
   */
  lemma GrammarIsExact(toks: seq<Tok>, i: nat)
    ensures Items(toks, i).Some? <==> exists forms :: StandInTurn(toks, i, forms)
    ensures forall forms :: StandInTurn(toks, i, forms) ==> Items(toks, i) == Some(SayAll(forms))
  {
    hide StandInTurn, SayAll, Items;
    forall forms | StandInTurn(toks, i, forms)
      ensures Items(toks, i) == Some(SayAll(forms))
    {
      FormsRead(toks, i, forms);
    }
    if Items(toks, i).Some? {
      var forms := ReadAreForms(toks, i);
    }
  }

  // ---------------------------------------------------------------- writing

  function WriteAll(forms: seq<Form>): seq<Tok> {
    if forms == [] then [End] else Write(forms[0]) + WriteAll(forms[1..])
  }

  predicate Separate(forms: seq<Form>) {
    forms != [] ==>
      Writable(forms[0]) && !Glues(forms[0], At(WriteAll(forms[1..]), 0)) && Separate(forms[1..])
  }

  lemma PartThenRest(toks: seq<Tok>, i: nat, part: seq<Tok>, rest: seq<Tok>)
    requires i <= |toks| && toks[i..] == part + rest && rest != []
    ensures Holds(toks, i, part) && i + |part| < |toks|
    ensures toks[i + |part|..] == rest && At(toks, i + |part|) == At(rest, 0)
  {
    assert forall j :: 0 <= j < |part| ==> toks[i + j] == toks[i..][j];
    assert toks[i + |part|..] == toks[i..][|part|..];
    assert toks[i + |part|] == toks[i..][|part|];
  }

  lemma {:induction false} WrittenStand(toks: seq<Tok>, i: nat, forms: seq<Form>)
    requires Separate(forms) && i <= |toks| && toks[i..] == WriteAll(forms)
    ensures StandInTurn(toks, i, forms)
    decreases |forms|
  {
    hide Glues, Write, Writable, Holds;
    if forms == [] {
      assert toks[i] == toks[i..][0];
    } else {
      NotEmpty(forms[1..]);
      PartThenRest(toks, i, Write(forms[0]), WriteAll(forms[1..]));
      hide WriteAll, At;
      WrittenStand(toks, i + |Write(forms[0])|, forms[1..]);
    }
  }

  lemma NotEmpty(forms: seq<Form>)
    ensures WriteAll(forms) != []
  {
    if forms != [] {
      NotEmpty(forms[1..]);
    }
  }

  /** A specification written form by form, none gluing to the next, parses to what the forms say. */
  lemma ParseUndoesWrite(forms: seq<Form>, f: Fields)
    requires Separate(forms)
    ensures Parsed(WriteAll(forms), f) == Some(ApplyAll(SayAll(forms), f))
  {
    var toks := WriteAll(forms);
    assert toks[0..] == toks;
    WrittenStand(toks, 0, forms);
    hide WriteAll, Separate, StandInTurn, ApplyAll, SayAll;
    FormsRead(toks, 0, forms);
    NotNever(toks);
  }
}
