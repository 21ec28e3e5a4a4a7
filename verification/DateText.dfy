/**
 * From text to time: a moment printed as a date and a time of day, lexed, parsed and evaluated.
 */
module DateText {
  import opened DateConvert
  import opened DateParse
  import opened DateParseLaws
  import opened DateShift
  import opened DateWords
  import L = DateWordsLaws
  import opened GetDate
  import opened Options

  /** A moment whose numbers can be written without a sign and fit 64 bits. */
  predicate Plain(at: Moment) {
    && 0 <= at.month && 0 <= at.day && 0 <= at.year && 0 <= at.hour && 0 <= at.minutes && 0 <= at.seconds
    && Fits(at.month) && Fits(at.day) && Fits(at.year) && Fits(at.hour) && Fits(at.minutes) && Fits(at.seconds)
  }

  /** Three numbers with marks between them, and the blanks after each. */
  function Marked(a: nat, b: nat, c: nat, mark: char, gaps: seq<string>): seq<L.Spaced>
    requires |gaps| == 5
  {
    [L.Spaced(L.Unsigned(a), gaps[0]), L.Spaced(L.Mark(mark), gaps[1]), L.Spaced(L.Unsigned(b), gaps[2]),
     L.Spaced(L.Mark(mark), gaps[3]), L.Spaced(L.Unsigned(c), gaps[4])]
  }

  /** Any blanks, but some between the date and the time. */
  predicate Spacing(gaps: seq<string>, more: seq<string>) {
    && |gaps| == 5 && |more| == 5 && gaps[4] != []
    && (forall i :: 0 <= i < 5 ==> L.AllBlank(gaps[i])) && (forall i :: 0 <= i < 5 ==> L.AllBlank(more[i]))
  }

  function Pieces(at: Moment, gaps: seq<string>, more: seq<string>): seq<L.Spaced>
    requires Plain(at) && |gaps| == 5 && |more| == 5
  {
    Marked(at.month, at.day, at.year, '/', gaps) + Marked(at.hour, at.minutes, at.seconds, ':', more)
  }

  /** The moment as month/day/year hour:minutes:seconds, however spaced. */
  function Text(at: Moment, gaps: seq<string>, more: seq<string>): string
    requires Plain(at) && |gaps| == 5 && |more| == 5
  {
    L.PrintAll(Pieces(at, gaps, more))
  }

  // ---------------------------------------------------------------- the pieces

  lemma FirstPiece(p: L.Spaced, rest: seq<L.Spaced>, words: string -> Tok)
    ensures L.Meanings([p] + rest, words) == L.Meaning(p.piece, words) + L.Meanings(rest, words)
    ensures L.PrintAll([p] + rest) == L.Print(p.piece) + (p.gap + L.PrintAll(rest))
    ensures L.Printable(p.piece) && L.AllBlank(p.gap) && !L.Joins(p.piece, p.gap + L.PrintAll(rest)) && L.Apart(rest)
      ==> L.Apart([p] + rest)
  {
    assert ([p] + rest)[1..] == rest;
  }

  /** A mark, its blanks and what follows do not go on with a number. */
  lemma MarkEndsNumber(n: nat, gap: string, mark: char, rest: string)
    requires L.AllBlank(gap) && L.Printable(L.Mark(mark))
    ensures !L.Joins(L.Unsigned(n), gap + (L.Print(L.Mark(mark)) + rest))
  {
  }

  /** A number and a mark in front of other pieces. */
  lemma NumberAndMark(n: nat, gap: string, mark: char, more: string, rest: seq<L.Spaced>, words: string -> Tok)
    requires Fits(n) && L.AllBlank(gap) && L.AllBlank(more) && L.Printable(L.Mark(mark)) && L.Apart(rest)
    ensures var ps := [L.Spaced(L.Unsigned(n), gap)] + ([L.Spaced(L.Mark(mark), more)] + rest);
      L.Apart(ps) && L.Meanings(ps, words) == [UNumber(n)] + ([Char(mark)] + L.Meanings(rest, words))
  {
    assert Wrap(n) == n;
    hide Wrap, L.Meanings, L.PrintAll, L.Apart, L.Joins, L.AllBlank, L.Print;
    var second := L.Spaced(L.Mark(mark), more);
    FirstPiece(second, rest, words);
    NothingJoinsMark(mark, more + L.PrintAll(rest));
    FirstPiece(L.Spaced(L.Unsigned(n), gap), [second] + rest, words);
    MarkEndsNumber(n, gap, mark, more + L.PrintAll(rest));
  }

  /** Three numbers and the marks between them in front of other pieces. */
  lemma MarkedPieces(a: nat, b: nat, c: nat, mark: char, gaps: seq<string>, rest: seq<L.Spaced>, words: string -> Tok)
    requires Fits(a) && Fits(b) && Fits(c) && L.Printable(L.Mark(mark))
    requires |gaps| == 5 && forall i :: 0 <= i < 5 ==> L.AllBlank(gaps[i])
    requires L.Apart(rest) && (gaps[4] != [] || rest == [])
    ensures L.Apart(Marked(a, b, c, mark, gaps) + rest)
    ensures L.Meanings(Marked(a, b, c, mark, gaps) + rest, words) == Numbers(a, b, c, mark) + L.Meanings(rest, words)
  {
    assert L.AllBlank(gaps[0]) && L.AllBlank(gaps[1]) && L.AllBlank(gaps[2]) && L.AllBlank(gaps[3]);
    var ps := Marked(a, b, c, mark, gaps);
    InTurn(ps[0], ps[1], ps[2], ps[3], ps[4], rest);
    InTurn(UNumber(a), Char(mark), UNumber(b), Char(mark), UNumber(c), L.Meanings(rest, words));
    hide L.Meanings, L.Apart, L.AllBlank, L.Printable, Fits;
    LastNumber(c, gaps[4], rest, words);
    NumberAndMark(b, gaps[2], mark, gaps[3], [ps[4]] + rest, words);
    NumberAndMark(a, gaps[0], mark, gaps[1], [ps[2]] + ([ps[3]] + ([ps[4]] + rest)), words);
  }

  lemma InTurn<T>(a: T, b: T, c: T, d: T, e: T, rest: seq<T>)
    ensures [a, b, c, d, e] + rest == [a] + ([b] + ([c] + ([d] + ([e] + rest))))
  {
  }

  function Numbers(a: int, b: int, c: int, mark: char): seq<Tok> {
    [UNumber(a), Char(mark), UNumber(b), Char(mark), UNumber(c)]
  }

  lemma NothingJoinsMark(mark: char, rest: string)
    ensures !L.Joins(L.Mark(mark), rest)
  {
  }

  /** A number before blanks, or at the end. */
  lemma LastNumber(n: nat, gap: string, rest: seq<L.Spaced>, words: string -> Tok)
    requires Fits(n) && L.AllBlank(gap) && L.Apart(rest) && (gap != [] || rest == [])
    ensures var ps := [L.Spaced(L.Unsigned(n), gap)] + rest;
      L.Apart(ps) && L.Meanings(ps, words) == [UNumber(n)] + L.Meanings(rest, words)
  {
    assert Wrap(n) == n;
    FirstPiece(L.Spaced(L.Unsigned(n), gap), rest, words);
    assert gap == [] ==> gap + L.PrintAll(rest) == [];
    assert gap != [] ==> (gap + L.PrintAll(rest))[0] == gap[0];
    hide L.Apart, L.PrintAll, L.Meanings, L.Print, Wrap;
  }

  // ---------------------------------------------------------------- the tokens and the items

  function DateForm(at: Moment): Form {
    Slashes(at.month, at.day, Some(at.year))
  }

  function TimeForm(at: Moment): Form {
    AtSecond(at.hour, at.minutes, at.seconds, Bare)
  }

  lemma FormsWritten(at: Moment)
    ensures Write(DateForm(at)) == Numbers(at.month, at.day, at.year, '/')
    ensures Write(TimeForm(at)) == Numbers(at.hour, at.minutes, at.seconds, ':')
  {
  }

  lemma TextPieces(at: Moment, gaps: seq<string>, more: seq<string>, words: string -> Tok)
    requires Plain(at) && Spacing(gaps, more)
    ensures L.Apart(Pieces(at, gaps, more))
    ensures L.Meanings(Pieces(at, gaps, more), words) == Write(DateForm(at)) + Write(TimeForm(at))
  {
    assert L.Apart([]) && L.Meanings([], words) == [];
    FormsWritten(at);
    hide L.Meanings, L.Apart, L.AllBlank, Marked, Fits, Write, Numbers;
    var pieces := Marked(at.hour, at.minutes, at.seconds, ':', more);
    MarkedPieces(at.hour, at.minutes, at.seconds, ':', more, [], words);
    assert pieces + [] == pieces;
    MarkedPieces(at.month, at.day, at.year, '/', gaps, pieces, words);
  }

  lemma TextTokens(at: Moment, gaps: seq<string>, more: seq<string>, words: string -> Tok)
    requires Plain(at) && Spacing(gaps, more)
    ensures Tokens(Text(at, gaps, more), words) == Write(DateForm(at)) + (Write(TimeForm(at)) + [End])
  {
    hide Tokens, L.Meanings, L.PrintAll, L.Apart, L.AllBlank, Write, Plain, Pieces, DateForm, TimeForm;
    TextPieces(at, gaps, more, words);
    L.LexUndoesPrint(Pieces(at, gaps, more), words);
  }

  lemma TwoForms(a: Form, b: Form)
    requires Writable(a) && Writable(b) && !Glues(a, At(Write(b) + [End], 0)) && !Glues(b, End)
    ensures WriteAll([a, b]) == Write(a) + (Write(b) + [End]) && Separate([a, b])
    ensures SayAll([a, b]) == [Says(a), Says(b)]
  {
    assert At([End], 0) == End;
    hide Write, Glues, Writable, Says, At;
    assert [a, b][1..] == [b] && [b][1..] == [];
    assert WriteAll([b]) == Write(b) + [End];
    assert SayAll([b]) == [Says(b)];
    assert Separate([b]);
  }

  lemma TextItems(at: Moment, gaps: seq<string>, more: seq<string>, words: string -> Tok)
    requires Plain(at) && Spacing(gaps, more)
    ensures Items(Tokens(Text(at, gaps, more), words), 0) == Some([DateSaid(at), ClockSaid(at, H24)])
  {
    hide Tokens, Text, Items, WriteAll, Separate, SayAll, Plain, L.AllBlank, StandInTurn;
    TextTokens(at, gaps, more, words);
    TwoForms(DateForm(at), TimeForm(at));
    hide Write, Glues, Writable;
    var toks := Tokens(Text(at, gaps, more), words);
    assert toks[0..] == toks;
    WrittenStand(toks, 0, [DateForm(at), TimeForm(at)]);
    FormsRead(toks, 0, [DateForm(at), TimeForm(at)]);
  }

  // ---------------------------------------------------------------- the time

  lemma TextAnswer(at: Moment, gaps: seq<string>, more: seq<string>, words: string -> Tok,
                   now: int, west: int, z: Zone)
    requires Plain(at) && Spacing(gaps, more) && Matches(z, west) && LocalTime(now, z).Some?
    ensures GetDateRel(Tokens(Text(at, gaps, more), words), now, z)
         == if !Convertible(at, H24) then None
            else
              var t := TimeSaid(at, H24, Maybe, west);
              if t < 0 || LocalTime(t, z).None? then None else Some(t)
  {
    hide Tokens, Text, Items, GetDateRel, LocalTime, Plain, L.AllBlank, Convertible, TimeSaid, Matches;
    TextItems(at, gaps, more, words);
    DateAndTimeSpecification(Tokens(Text(at, gaps, more), words), at, H24, now, west, z);
  }

  /**
   * A moment printed, lexed, parsed and evaluated is the time said: refused where it cannot be
   * converted or lies before the epoch, and from 1970 to 2099 the instant at which the local clock
   * shows that moment. The table of words plays no part.
   */
  lemma TextIsInstant(at: Moment, gaps: seq<string>, more: seq<string>, words: string -> Tok,
                      now: int, west: int, z: Zone)
    requires Plain(at) && Spacing(gaps, more) && Matches(z, west) && LocalTime(now, z).Some?
    ensures var r := GetDateRel(Tokens(Text(at, gaps, more), words), now, z);
      if !Convertible(at, H24) then r.None?
      else
        var t := TimeSaid(at, H24, Maybe, west);
        && r == (if t < 0 || LocalTime(t, z).None? then None else Some(t))
        && (FullYear(at.year) <= 2099 ==>
          && t == Instant(at, H24, west) && LocalTime(t, z).Some?
          && MomentOf(LocalTime(t, z).value) == at.(year := FullYear(at.year) - 1900))
  {
    hide Tokens, Text, GetDateRel, LocalTime, Plain, L.AllBlank, Convertible, Instant, TimeSaid, Matches;
    TextAnswer(at, gaps, more, words, now, west, z);
    if Convertible(at, H24) && FullYear(at.year) <= 2099 {
      SaidIsInstant(at, west, z);
      ClockShowsSaid(at, H24, west, z);
    }
  }

  lemma SaidIsInstant(at: Moment, west: int, z: Zone)
    requires Matches(z, west) && Convertible(at, H24) && FullYear(at.year) <= 2099
    ensures TimeSaid(at, H24, Maybe, west) == Instant(at, H24, west) && LocalTime(Instant(at, H24, west), z).Some?
  {
    LocalTimeUndoesConversion(at, west, z);
    ConvertedIsInstant(at, west, z);
    hide LocalTime, Instant, Convertible;
  }
}
