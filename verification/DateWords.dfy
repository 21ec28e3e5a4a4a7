/**
 * Splitting a date specification into tokens: numbers, words, marks, and comments in parentheses.
 *
 * The table of words is a parameter.
 */
module DateWords {
  import opened DateConvert
  import opened Options

  datatype Tok =
    | Ago | Id | Dst | Never
    | Day(day: int)
    | DayZone(dayZone: int)
    | MinuteUnit(minutes: int)
    | Month(month: int)
    | MonthUnit(months: int)
    | SecUnit(seconds: int)
    | SNumber(signed: int)
    | UNumber(unsigned: int)
    | ZoneOf(zone: int)
    | MeridianOf(meridian: Meridian)
    | Char(mark: char)
    | End

  predicate IsBlank(c: char) {
    c == ' ' || '\t' <= c <= '\r'
  }

  predicate IsDigit(c: char) {
    '0' <= c <= '9'
  }

  predicate IsLetter(c: char) {
    'a' <= c <= 'z' || 'A' <= c <= 'Z'
  }

  predicate IsWordPart(c: char) {
    IsLetter(c) || c == '.'
  }

  // ---------------------------------------------------------------- reference

  /** How many of the first characters satisfy `p`. */
  function Run(p: char -> bool, s: string): (n: nat)
    ensures n <= |s| && (forall i :: 0 <= i < n ==> p(s[i])) && (n < |s| ==> !p(s[n]))
  {
    if s == [] || !p(s[0]) then 0 else 1 + Run(p, s[1..])
  }

  /** The number a string of digits stands for. */
  function Decimal(s: string): int {
    if s == [] then 0 else 10 * Decimal(s[..|s| - 1]) + (s[|s| - 1] as int - '0' as int)
  }

  /** What follows the end of the comment `depth` parentheses deep, if it ends. */
  function AfterComment(s: string, depth: nat): (r: Option<string>)
    ensures r.Some? ==> |r.value| <= |s|
  {
    if depth == 0 then Some(s)
    else if s == [] then None
    else if s[0] == '(' then AfterComment(s[1..], depth + 1)
    else if s[0] == ')' then AfterComment(s[1..], depth - 1)
    else AfterComment(s[1..], depth)
  }

  function Sign(c: char): int {
    if c == '-' then -1 else if c == '+' then 1 else 0
  }

  function Number(sign: int, n: int): Tok {
    if sign == 0 then UNumber(n) else SNumber(if sign < 0 then Wrap(-n) else n)
  }

  function Tokens(s: string, words: string -> Tok): seq<Tok>
    decreases |s|
  {
    if s == [] then [End]
    else if IsBlank(s[0]) then Tokens(s[1..], words)
    else if IsDigit(s[0]) || Sign(s[0]) != 0 then
      var digits := if Sign(s[0]) != 0 then s[1..] else s;
      var n := Run(IsDigit, digits);
      if n == 0 then Tokens(s[1..], words)
      else [Number(Sign(s[0]), Wrap(Decimal(digits[..n])))] + Tokens(digits[n..], words)
    else if IsLetter(s[0]) then
      var n := Run(IsWordPart, s);
      [words(s[..if n < 19 then n else 19])] + Tokens(s[n..], words)
    else if s[0] != '(' then [Char(s[0])] + Tokens(s[1..], words)
    else
      match AfterComment(s[1..], 1)
      case None => [End]
      case Some(rest) => Tokens(rest, words)
  }

  // ---------------------------------------------------------------- the loops

  method Count(p: char -> bool, s: string, from: nat) returns (i: nat)
    requires from <= |s|
    ensures i == from + Run(p, s[from..])
  {
    i := from;
    while i < |s| && p(s[i])
      invariant from <= i <= |s|
      invariant from + Run(p, s[from..]) == i + Run(p, s[i..])
    {
      assert s[i..][1..] == s[i + 1..];
      i := i + 1;
    }
  }

  /** One digit more. */
  lemma DigitRead(s: string, from: nat, i: nat)
    requires from <= i < |s| && IsDigit(s[i])
    ensures Run(IsDigit, s[i..]) == 1 + Run(IsDigit, s[i + 1..])
    ensures Wrap(Wrap(Wrap(Decimal(s[from..i])) * 10) + (s[i] as int - '0' as int)) == Wrap(Decimal(s[from..i + 1]))
  {
    assert s[i..][1..] == s[i + 1..];
    hide Wrap, Decimal;
    NextDigit(s[from..i], s[i]);
    assert s[from..i + 1] == s[from..i] + [s[i]];
  }

  lemma NoDigitRead(s: string, i: nat)
    requires i <= |s| && (i < |s| ==> !IsDigit(s[i]))
    ensures Run(IsDigit, s[i..]) == 0
  {
  }

  method ReadNumber(s: string, from: nat) returns (n: int, i: nat)
    requires from <= |s|
    ensures i == from + Run(IsDigit, s[from..])
    ensures n == Wrap(Decimal(s[from..i]))
  {
    n, i := 0, from;
    assert s[from..from] == [] && Wrap(Decimal([])) == 0;
    hide Wrap, Decimal, Run;
    while i < |s| && IsDigit(s[i])
      invariant from <= i <= |s|
      invariant from + Run(IsDigit, s[from..]) == i + Run(IsDigit, s[i..])
      invariant n == Wrap(Decimal(s[from..i]))
    {
      DigitRead(s, from, i);
      n := Wrap(Wrap(n * 10) + (s[i] as int - '0' as int));
      i := i + 1;
    }
    NoDigitRead(s, i);
  }

  /** Wrapping at every digit gives the wrapped number. */
  lemma NextDigit(s: string, c: char)
    ensures Wrap(Wrap(Wrap(Decimal(s)) * 10) + (c as int - '0' as int)) == Wrap(Decimal(s + [c]))
  {
    var d := c as int - '0' as int;
    assert (s + [c])[..|s|] == s;
    assert Decimal(s + [c]) == 10 * Decimal(s) + d;
    hide Wrap, Decimal;
    WrapProduct(Decimal(s));
    WrapSum(10 * Decimal(s), d);
  }

  lemma WrapProduct(a: int)
    ensures Wrap(Wrap(a) * 10) == Wrap(10 * a)
  {
    WrapIs(a);
    WrapTurns(10 * a, 10 * Rounds(a));
    hide Wrap, Rounds;
  }

  method SkipComment(s: string, from: nat) returns (end: Option<nat>)
    requires from <= |s|
    ensures end.Some? ==> from <= end.value <= |s|
    ensures AfterComment(s[from..], 1) == if end.Some? then Some(s[end.value..]) else None
  {
    var i, depth := from, 1;
    while depth > 0
      invariant from <= i <= |s| && depth >= 0
      invariant AfterComment(s[from..], 1) == AfterComment(s[i..], depth)
      decreases |s| - i, depth
    {
      if i == |s| {
        return None;
      }
      assert s[i..][1..] == s[i + 1..];
      if s[i] == '(' {
        depth := depth + 1;
      } else if s[i] == ')' {
        depth := depth - 1;
      }
      i := i + 1;
    }
    end := Some(i);
  }

  /** What one round of the lexer does: end, skip, or take a token; and where the next one starts. */
  datatype Round = Stop | Skip(next: nat) | Took(tok: Tok, next: nat)

  lemma NumberTokens(s: string, words: string -> Tok)
    requires s != [] && (IsDigit(s[0]) || Sign(s[0]) != 0)
    ensures var digits := if Sign(s[0]) != 0 then s[1..] else s;
      var n := Run(IsDigit, digits);
      Tokens(s, words) == if n == 0 then Tokens(s[1..], words)
                          else [Number(Sign(s[0]), Wrap(Decimal(digits[..n])))] + Tokens(digits[n..], words)
  {
  }

  lemma WordTokens(s: string, words: string -> Tok)
    requires s != [] && IsLetter(s[0])
    ensures var n := Run(IsWordPart, s);
      n > 0 && Tokens(s, words) == [words(s[..if n < 19 then n else 19])] + Tokens(s[n..], words)
  {
  }

  lemma MarkTokens(s: string, words: string -> Tok)
    requires s != [] && !IsBlank(s[0]) && !IsDigit(s[0]) && Sign(s[0]) == 0 && !IsLetter(s[0])
    ensures s[0] != '(' ==> Tokens(s, words) == [Char(s[0])] + Tokens(s[1..], words)
    ensures s[0] == '(' ==>
      var rest := AfterComment(s[1..], 1);
      Tokens(s, words) == if rest.Some? then Tokens(rest.value, words) else [End]
  {
  }

  /** The number at `from`, whose digits start at `i`. */
  lemma NumberAt(s: string, from: nat, i: nat, words: string -> Tok)
    requires from < |s| && (IsDigit(s[from]) || Sign(s[from]) != 0) && i == from + (if Sign(s[from]) != 0 then 1 else 0)
    ensures var n := Run(IsDigit, s[i..]);
      Tokens(s[from..], words) == if n == 0 then Tokens(s[from + 1..], words)
        else [Number(Sign(s[from]), Wrap(Decimal(s[i..i + n])))] + Tokens(s[i + n..], words)
  {
    hide Tokens, Run, Decimal, Wrap, Number;
    NumberTokens(s[from..], words);
    var digits, n := s[i..], Run(IsDigit, s[i..]);
    assert s[from..][1..] == s[from + 1..];
    assert digits[..n] == s[i..i + n];
    assert digits[n..] == s[i + n..];
  }

  method LexNumber(s: string, from: nat, words: string -> Tok) returns (r: Round)
    requires from < |s| && (IsDigit(s[from]) || Sign(s[from]) != 0)
    ensures !r.Stop? && from < r.next <= |s|
    ensures Tokens(s[from..], words) == (if r.Took? then [r.tok] else []) + Tokens(s[r.next..], words)
  {
    hide Tokens, Run, Decimal, Wrap, Number, Sign;
    var i := from;
    if Sign(s[from]) != 0 {
      i := i + 1;
      NumberAt(s, from, i, words);
      if !(i < |s| && IsDigit(s[i])) {
        return Skip(i);
      }
    } else {
      NumberAt(s, from, i, words);
    }
    var n, end := ReadNumber(s, i);
    r := Took(Number(Sign(s[from]), n), end);
  }

  method LexOne(s: string, from: nat, words: string -> Tok) returns (r: Round)
    requires from < |s| && !IsBlank(s[from])
    ensures !r.Stop? ==> from < r.next <= |s|
    ensures Tokens(s[from..], words)
         == if r.Stop? then [End] else (if r.Took? then [r.tok] else []) + Tokens(s[r.next..], words)
  {
    hide Tokens, Run, AfterComment;
    if IsDigit(s[from]) || Sign(s[from]) != 0 {
      r := LexNumber(s, from, words);
    } else if IsLetter(s[from]) {
      WordTokens(s[from..], words);
      var end := Count(IsWordPart, s, from);
      var cut := if end < from + 19 then end else from + 19;
      assert s[from..][..cut - from] == s[from..cut] && s[from..][end - from..] == s[end..];
      r := Took(words(s[from..cut]), end);
    } else {
      MarkTokens(s[from..], words);
      assert s[from..][1..] == s[from + 1..];
      if s[from] != '(' {
        r := Took(Char(s[from]), from + 1);
      } else {
        var end := SkipComment(s, from + 1);
        r := if end.Some? then Skip(end.value) else Stop;
      }
    }
  }

  lemma NothingLeft(s: string, words: string -> Tok)
    ensures Tokens(s[|s|..], words) == [End]
  {
  }

  lemma {:induction false} BlanksSkipped(s: string, n: nat, words: string -> Tok)
    requires n <= |s| && forall i :: 0 <= i < n ==> IsBlank(s[i])
    ensures Tokens(s, words) == Tokens(s[n..], words)
  {
    if n > 0 {
      BlanksSkipped(s[1..], n - 1, words);
      assert s[1..][n - 1..] == s[n..];
    }
  }

  lemma TakenInOrder(out: seq<Tok>, tok: Tok, rest: seq<Tok>)
    ensures out + ([tok] + rest) == out + [tok] + rest
  {
  }

  /** The lexer ends on every string, each round starting further on. */
  method Lex(s: string, words: string -> Tok) returns (out: seq<Tok>)
    ensures out == Tokens(s, words)
  {
    hide Tokens, Run;
    NothingLeft(s, words);
    out := [];
    var i := 0;
    assert s[0..] == s;
    while true
      invariant i <= |s| && Tokens(s, words) == out + Tokens(s[i..], words)
      decreases |s| - i
    {
      var start := Count(IsBlank, s, i);
      BlanksSkipped(s[i..], start - i, words);
      assert s[i..][start - i..] == s[start..];
      if start == |s| {
        return out + [End];
      }
      var r := LexOne(s, start, words);
      if r.Stop? {
        return out + [End];
      }
      if r.Took? {
        TakenInOrder(out, r.tok, Tokens(s[r.next..], words));
        out := out + [r.tok];
      }
      i := r.next;
    }
  }

  // ---------------------------------------------------------------- characters

  /** The characters of each class, by their codes. */
  lemma CharacterClasses(c: char)
    ensures IsBlank(c) <==> c as int in {9, 10, 11, 12, 13, 32}
    ensures IsDigit(c) <==> 48 <= c as int <= 57
    ensures IsLetter(c) <==> 65 <= c as int <= 90 || 97 <= c as int <= 122
    ensures IsWordPart(c) <==> IsLetter(c) || c as int == 46
    ensures Sign(c) == if c as int == 45 then -1 else if c as int == 43 then 1 else 0
  {
  }

  /** A sign without digits is skipped, and an unclosed comment ends the text. */
  lemma SkippedText(s: string, words: string -> Tok)
    ensures s == [] || !IsDigit(s[0]) ==> Tokens("-" + s, words) == Tokens("+" + s, words) == Tokens(s, words)
    ensures AfterComment(s, 1).None? ==> Tokens("(" + s, words) == [End]
  {
    assert ("-" + s)[1..] == s && ("+" + s)[1..] == s && ("(" + s)[1..] == s;
    NumberTokens("-" + s, words);
    NumberTokens("+" + s, words);
    MarkTokens("(" + s, words);
    hide Tokens;
  }
}
