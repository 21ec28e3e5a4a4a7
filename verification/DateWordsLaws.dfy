/**
 * Lexing undoes printing: numbers, words, marks and comments, spaced in any way that keeps them
 * apart, read back as the tokens they stand for.
 */
module DateWordsLaws {
  import opened DateConvert
  import opened DateWords
  import opened Options

  datatype Piece =
    | Unsigned(n: nat)
    | Signed(minus: bool, n: nat)
    | Word(word: string)
    | Mark(c: char)
    | Comment(text: string)

  function DigitChar(d: nat): char
    requires d < 10
  {
    ('0' as int + d) as char
  }

  function Digits(n: nat): (s: string)
    ensures s != [] && (forall i :: 0 <= i < |s| ==> IsDigit(s[i])) && Decimal(s) == n
  {
    if n < 10 then
      [DigitChar(n)]
    else
      var s := Digits(n / 10) + [DigitChar(n % 10)];
      assert s[..|s| - 1] == Digits(n / 10);
      s
  }

  function Closed(text: string): bool {
    AfterComment(text + ")", 1) == Some([])
  }

  predicate Printable(p: Piece) {
    match p
    case Word(w) => w != [] && IsLetter(w[0]) && forall i :: 0 <= i < |w| ==> IsWordPart(w[i])
    case Mark(c) => !IsBlank(c) && !IsDigit(c) && Sign(c) == 0 && !IsLetter(c) && c != '('
    case Comment(text) => Closed(text)
    case _ => true
  }

  function Print(p: Piece): string {
    match p
    case Unsigned(n) => Digits(n)
    case Signed(minus, n) => (if minus then "-" else "+") + Digits(n)
    case Word(w) => w
    case Mark(c) => [c]
    case Comment(text) => "(" + text + ")"
  }

  /** The tokens a piece stands for; numbers are 64-bit words. */
  function Meaning(p: Piece, words: string -> Tok): seq<Tok> {
    match p
    case Unsigned(n) => [UNumber(Wrap(n))]
    case Signed(minus, n) => [SNumber(if minus then Wrap(0 - n) else Wrap(n))]
    case Word(w) => [words(w[..if |w| < 19 then |w| else 19])]
    case Mark(c) => [Char(c)]
    case Comment(_) => []
  }

  /** A piece and the blanks after it. */
  datatype Spaced = Spaced(piece: Piece, gap: string)

  function PrintAll(ps: seq<Spaced>): string {
    if ps == [] then [] else Print(ps[0].piece) + (ps[0].gap + PrintAll(ps[1..]))
  }

  function Meanings(ps: seq<Spaced>, words: string -> Tok): seq<Tok> {
    if ps == [] then [] else Meaning(ps[0].piece, words) + Meanings(ps[1..], words)
  }

  /** The text that follows would be read as part of the piece. */
  predicate Joins(p: Piece, rest: string) {
    rest != [] && (if p.Unsigned? || p.Signed? then IsDigit(rest[0]) else p.Word? && IsWordPart(rest[0]))
  }

  predicate AllBlank(s: string) {
    forall i :: 0 <= i < |s| ==> IsBlank(s[i])
  }

  predicate Apart(ps: seq<Spaced>) {
    ps != [] ==>
      && Printable(ps[0].piece) && AllBlank(ps[0].gap)
      && !Joins(ps[0].piece, ps[0].gap + PrintAll(ps[1..])) && Apart(ps[1..])
  }

  // ---------------------------------------------------------------- one piece

  lemma {:induction false} RunOf(p: char -> bool, a: string, b: string)
    requires forall i :: 0 <= i < |a| ==> p(a[i])
    requires b == [] || !p(b[0])
    ensures Run(p, a + b) == |a|
  {
    if a == [] {
      assert a + b == b;
    } else {
      assert (a + b)[1..] == a[1..] + b;
      RunOf(p, a[1..], b);
    }
  }

  lemma {:induction false} CommentEnds(a: string, b: string, depth: nat)
    requires AfterComment(a, depth) == Some([])
    ensures AfterComment(a + b, depth) == Some(b)
    decreases |a|
  {
    if a == [] {
      assert a + b == b;
    } else {
      assert (a + b)[1..] == a[1..] + b;
      CommentEnds(a[1..], b, if a[0] == '(' then depth + 1 else if a[0] == ')' then depth - 1 else depth);
    }
  }

  lemma DigitsRead(digits: string, rest: string)
    requires digits != [] && forall i :: 0 <= i < |digits| ==> IsDigit(digits[i])
    requires rest == [] || !IsDigit(rest[0])
    ensures var s := digits + rest;
      Run(IsDigit, s) == |digits| && s[..|digits|] == digits && s[|digits|..] == rest
  {
    RunOf(IsDigit, digits, rest);
  }

  lemma UnsignedReads(digits: string, rest: string, words: string -> Tok)
    requires digits != [] && forall i :: 0 <= i < |digits| ==> IsDigit(digits[i])
    requires rest == [] || !IsDigit(rest[0])
    ensures Tokens(digits + rest, words) == [UNumber(Wrap(Decimal(digits)))] + Tokens(rest, words)
  {
    hide Tokens, Wrap, Run, Decimal;
    NumberTokens(digits + rest, words);
    DigitsRead(digits, rest);
  }

  lemma SignedReads(sign: char, digits: string, rest: string, words: string -> Tok)
    requires Sign(sign) != 0 && digits != [] && forall i :: 0 <= i < |digits| ==> IsDigit(digits[i])
    requires rest == [] || !IsDigit(rest[0])
    ensures Tokens([sign] + digits + rest, words)
         == [Number(Sign(sign), Wrap(Decimal(digits)))] + Tokens(rest, words)
  {
    hide Tokens, Wrap, Run, Decimal, Number;
    var s := [sign] + digits + rest;
    assert s[0] == sign && s[1..] == digits + rest;
    NumberTokens(s, words);
    DigitsRead(digits, rest);
  }

  lemma NumberReads(p: Piece, rest: string, words: string -> Tok)
    requires (p.Unsigned? || p.Signed?) && !Joins(p, rest)
    ensures Tokens(Print(p) + rest, words) == Meaning(p, words) + Tokens(rest, words)
  {
    hide Tokens, Wrap, Decimal;
    if p.Unsigned? {
      UnsignedReads(Digits(p.n), rest, words);
    } else {
      SignedReads(if p.minus then '-' else '+', Digits(p.n), rest, words);
      NegatedWrap(p.n);
    }
  }

  lemma WordReads(w: string, rest: string, words: string -> Tok)
    requires Printable(Word(w)) && !Joins(Word(w), rest)
    ensures Tokens(w + rest, words) == Meaning(Word(w), words) + Tokens(rest, words)
  {
    hide Tokens, Run;
    var s := w + rest;
    WordTokens(s, words);
    RunOf(IsWordPart, w, rest);
    assert s[|w|..] == rest;
    assert s[..if |w| < 19 then |w| else 19] == w[..if |w| < 19 then |w| else 19];
  }

  lemma MarkReads(c: char, rest: string, words: string -> Tok)
    requires Printable(Mark(c))
    ensures Tokens([c] + rest, words) == [Char(c)] + Tokens(rest, words)
  {
    hide Tokens;
    var s := [c] + rest;
    assert s[0] == c && s[1..] == rest;
    MarkTokens(s, words);
  }

  lemma CommentReads(text: string, rest: string, words: string -> Tok)
    requires Closed(text)
    ensures Tokens("(" + text + ")" + rest, words) == Tokens(rest, words)
  {
    var s, inside := "(" + text + ")" + rest, text + ")";
    CommentEnds(inside, rest, 1);
    hide Tokens, AfterComment;
    assert s[0] == '(' && s[1..] == inside + rest;
    MarkTokens(s, words);
  }

  lemma PieceReads(p: Piece, rest: string, words: string -> Tok)
    requires Printable(p) && !Joins(p, rest)
    ensures Tokens(Print(p) + rest, words) == Meaning(p, words) + Tokens(rest, words)
  {
    hide Tokens;
    match p
    case Word(w) => WordReads(w, rest, words);
    case Mark(c) => MarkReads(c, rest, words);
    case Comment(text) => CommentReads(text, rest, words);
    case _ => NumberReads(p, rest, words);
  }

  // ---------------------------------------------------------------- the whole

  lemma SpacedReads(p: Piece, gap: string, rest: string, words: string -> Tok)
    requires Printable(p) && AllBlank(gap) && !Joins(p, gap + rest)
    ensures Tokens(Print(p) + (gap + rest), words) == Meaning(p, words) + Tokens(rest, words)
  {
    hide Tokens, Print, Meaning, Printable, Joins;
    PieceReads(p, gap + rest, words);
    assert (gap + rest)[|gap|..] == rest;
    BlanksSkipped(gap + rest, |gap|, words);
  }

  /** Pieces kept apart read back as the tokens they stand for, however they are spaced. */
  lemma {:induction false} LexUndoesPrint(ps: seq<Spaced>, words: string -> Tok)
    requires Apart(ps)
    ensures Tokens(PrintAll(ps), words) == Meanings(ps, words) + [End]
  {
    if ps != [] {
      LexUndoesPrint(ps[1..], words);
      hide Tokens, Print, Meaning, Printable, Joins, AllBlank;
      SpacedReads(ps[0].piece, ps[0].gap, PrintAll(ps[1..]), words);
      assert Meaning(ps[0].piece, words) + (Meanings(ps[1..], words) + [End]) == Meanings(ps, words) + [End];
    }
  }
}
