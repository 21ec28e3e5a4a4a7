/**
 * Prompting for a hidden line: one line of input for each answer, cut to the room there is.
 */
module Prompt {
  import opened Bytes
  import opened Lines

  const INTERRUPT := 2

  /** The size that stands for no bound. */
  const UNBOUNDED: nat := 0xFFFF_FFFF_FFFF_FFFF

  datatype Answer = Ok(text: Bytes) | Interrupted | CantRead

  // ---------------------------------------------------------------- reference

  /** How many octets come before the first `b`. */
  function Before(b: Byte, s: Bytes): (n: nat)
    ensures n <= |s| && (n < |s| ==> s[n] == b) && b !in s[..n]
  {
    if s == [] || s[0] == b then 0
    else
      var n := 1 + Before(b, s[1..]);
      assert s[..n] == [s[0]] + s[1..][..n - 1];
      n
  }

  /** The text of a line read: up to a zero octet, or its newline. */
  function TextOf(line: Bytes): Bytes {
    var text := line[..Before(0, line)];
    text[..Before(NEWLINE, text)]
  }

  predicate ShowsNewline(line: Bytes) {
    NEWLINE in line[..Before(0, line)]
  }

  // ---------------------------------------------------------------- the rest of a line

  function Weight(events: seq<Event>): nat {
    if events == [] then 0 else 1 + (if events[0].Chunk? then |events[0].data| else 0) + Weight(events[1..])
  }

  function ViewWeight(v: View): nat {
    |v.text| + Weight(v.stop)
  }

  lemma {:induction false} SplitWeighs(events: seq<Event>)
    ensures |Ahead(events)| + Weight(Stop(events)) <= Weight(events)
  {
    if events != [] {
      SplitWeighs(events[1..]);
    }
  }

  /** A line read leaves less to read. */
  lemma LessLeft(v: View, room: nat)
    requires EndOf(v, room) == Read
    ensures ViewWeight(After(v, room)) < ViewWeight(v)
  {
    if !Complete(v, room) {
      SplitWeighs(v.stop[1..]);
      assert [] + Ahead(v.stop[1..]) == Ahead(v.stop[1..]);
    }
  }

  /** A round of the loop that drops the rest of a line goes on to another. */
  predicate GoesOn(v: View) {
    EndOf(v, 1023) == Read && !EndedAt(v.text, LineLength(v.text, 1023))
  }

  function RestDropped(v: View): View
    decreases ViewWeight(v)
  {
    if GoesOn(v) then
      LessLeft(v, 1023);
      RestDropped(After(v, 1023))
    else After(v, 1023)
  }

  method DropRestOfLine(input: Input)
    modifies input
    ensures input.Holds() == RestDropped(old(input.Holds()))
  {
    while true
      invariant RestDropped(input.Holds()) == RestDropped(old(input.Holds()))
      decreases ViewWeight(input.Holds())
    {
      ghost var v := input.Holds();
      var r, line := Fgets(input, 1024);
      if !(r == Read && !EndedAt(line, |line|)) {
        break;
      }
      LessLeft(v, 1023);
    }
  }

  // ---------------------------------------------------------------- a prompt

  /** The view after the line, or after the whole line where only part was read. */
  function LeftAfter(v: View, size: nat): View {
    var w := After(v, Room(size));
    if size != UNBOUNDED && EndOf(v, Room(size)) == Read && !ShowsNewline(LineOf(v, Room(size))) then RestDropped(w)
    else w
  }

  function AnswerTo(v: View, size: nat): Answer {
    var line := LineOf(v, Room(size));
    match EndOf(v, Room(size))
    case Read =>
      Ok(if size != UNBOUNDED then TextOf(line) else if EndedAt(line, |line|) then line[..|line| - 1] else line)
    case Caught(s) => if s == INTERRUPT then Interrupted else CantRead
    case _ => CantRead
  }

  method Hidden(input: Input, size: nat) returns (r: Answer)
    modifies input
    ensures r == AnswerTo(old(input.Holds()), size)
    ensures input.Holds() == LeftAfter(old(input.Holds()), size)
  {
    hide EndOf, LineOf, After, RestDropped;
    var end, line := Fgets(input, size);
    if size != UNBOUNDED && end == Read {
      var text := Before(0, line);
      if NEWLINE !in line[..text] {
        DropRestOfLine(input);
      }
    }
    match end {
      case Read =>
        if size == UNBOUNDED {
          if EndedAt(line, |line|) {
            line := line[..|line| - 1];
          }
        } else {
          var text := Before(0, line);
          var stop := Before(NEWLINE, line[..text]);
          assert line[..text][..stop] == line[..stop];
          line := line[..stop];
        }
        r := Ok(line);
      case Caught(s) =>
        r := if s == INTERRUPT then Interrupted else CantRead;
      case _ =>
        r := CantRead;
    }
  }

  // ---------------------------------------------------------------- one line an answer

  /** The text of the first line, and what follows its newline. */
  function FirstText(text: Bytes): Bytes {
    text[..Before(NEWLINE, text)]
  }

  function AfterFirst(text: Bytes): Bytes {
    var p := Before(NEWLINE, text);
    if p < |text| then text[p + 1..] else []
  }

  function Cut(s: Bytes, room: nat): Bytes {
    if |s| <= room then s else s[..room]
  }

  lemma {:induction false} LineLengthIs(text: Bytes, room: nat)
    ensures var p := Before(NEWLINE, text);
      LineLength(text, room) == if room <= p then room else if p < |text| then p + 1 else |text|
  {
    if text != [] && text[0] != NEWLINE && room > 0 {
      LineLengthIs(text[1..], room - 1);
    }
  }

  /** Past `room` octets of the first line, the rest of it is what is left. */
  lemma {:induction false} BeforeInRest(b: Byte, s: Bytes, room: nat)
    requires room <= Before(b, s)
    ensures Before(b, s[room..]) == Before(b, s) - room
  {
    if room > 0 {
      BeforeInRest(b, s[1..], room - 1);
      assert s[1..][room - 1..] == s[room..];
    } else {
      assert s[0..] == s;
    }
  }

  lemma AfterFirstInRest(text: Bytes, room: nat)
    requires room <= Before(NEWLINE, text)
    ensures AfterFirst(text[room..]) == AfterFirst(text)
  {
    hide Before;
    BeforeInRest(NEWLINE, text, room);
    DropTwice(text, room, Before(NEWLINE, text));
  }

  lemma DropTwice(text: Bytes, a: nat, p: nat)
    requires a <= p <= |text|
    ensures p < |text| ==> text[a..][p - a + 1..] == text[p + 1..]
  {
  }

  /** The length of the first line with its newline, if that fits. */
  function Taking(text: Bytes, room: nat): (n: nat)
    ensures n <= |text|
  {
    var p := Before(NEWLINE, text);
    if room <= p then room else if p < |text| then p + 1 else |text|
  }

  lemma EndedWhere(text: Bytes, room: nat)
    ensures EndedAt(text, Taking(text, room)) <==> Before(NEWLINE, text) < |text| && Before(NEWLINE, text) < room
  {
    var p := Before(NEWLINE, text);
    if 0 < Taking(text, room) <= p {
      assert text[Taking(text, room) - 1] in text[..p];
    }
  }

  /** The first line is all there, or nothing stops the input. */
  predicate Whole(v: View) {
    NEWLINE in v.text || v.stop == []
  }

  lemma NewlineAt(text: Bytes)
    ensures NEWLINE in text <==> Before(NEWLINE, text) < |text|
  {
    var p := Before(NEWLINE, text);
    assert p == |text| ==> text[..p] == text;
  }

  /** Reading a line that is all there. */
  lemma LineOfText(v: View, room: nat)
    requires Whole(v)
    ensures var n := Taking(v.text, room);
      LineLength(v.text, room) == n && LineOf(v, room) == v.text[..n] && After(v, room) == View(v.text[n..], v.stop)
      && EndOf(v, room) == ReadOrEnd(v.text[..n])
  {
    LineLengthIs(v.text, room);
    NewlineAt(v.text);
    hide LineLength, Before;
  }

  lemma RestIsWhole(v: View, room: nat)
    requires Whole(v) && room <= Before(NEWLINE, v.text)
    ensures Whole(View(v.text[room..], v.stop))
  {
    hide Before;
    NewlineAt(v.text);
    NewlineAt(v.text[room..]);
    BeforeInRest(NEWLINE, v.text, room);
  }

  lemma {:induction false} RestDroppedIs(v: View)
    requires Whole(v)
    ensures RestDropped(v) == View(AfterFirst(v.text), v.stop)
    decreases |v.text|
  {
    var p := Before(NEWLINE, v.text);
    LineOfText(v, 1023);
    EndedWhere(v.text, 1023);
    NewlineAt(v.text);
    hide LineOf, EndOf, LineLength, After, Before;
    if GoesOn(v) {
      if 1023 <= p {
        RestIsWhole(v, 1023);
        RestDroppedIs(View(v.text[1023..], v.stop));
        AfterFirstInRest(v.text, 1023);
      } else {
        RestDroppedIs(View(v.text[|v.text|..], v.stop));
        NoText();
      }
    }
  }

  lemma NoText()
    ensures AfterFirst([]) == []
  {
  }

  /** What comes before the first zero octet. */
  function UpToZero(s: Bytes): Bytes {
    s[..Before(0, s)]
  }

  /** The first line is read with its newline, but a zero octet before that hides it. */
  predicate HidesNewline(text: Bytes, room: nat) {
    var p := Before(NEWLINE, text);
    p < |text| && p < room && Before(0, text) < p
  }

  lemma Prefix(s: Bytes, a: nat, b: nat)
    requires b <= a <= |s|
    ensures s[..a][..b] == s[..b]
  {
  }

  function Least(a: nat, b: nat): nat {
    if a <= b then a else b
  }

  /** A line read: its text, and whether it shows its newline. */
  lemma TextRead(text: Bytes, room: nat)
    ensures var line, p := text[..Taking(text, room)], Before(NEWLINE, text);
      && TextOf(line) == UpToZero(Cut(FirstText(text), room))
      && (ShowsNewline(line) <==> p < |text| && p < room && !HidesNewline(text, room))
  {
    hide Before;
    var n, p, z := Taking(text, room), Before(NEWLINE, text), Before(0, text);
    BeforeInPart(0, text, n);
    var seen := Least(n, z);
    Prefix(text, n, seen);
    BeforeInPart(NEWLINE, text, seen);
    Prefix(text, seen, Least(seen, p));
    var kept := Least(p, room);
    Prefix(text, p, kept);
    BeforeInPart(0, text, kept);
    Prefix(text, kept, Least(kept, z));
    ZeroIsNoNewline(text);
  }

  lemma ZeroIsNoNewline(text: Bytes)
    ensures Before(0, text) == Before(NEWLINE, text) ==> Before(0, text) == |text|
  {
  }

  lemma {:induction false} BeforeInPart(b: Byte, s: Bytes, n: nat)
    requires n <= |s|
    ensures Before(b, s[..n]) == if n <= Before(b, s) then n else Before(b, s)
    ensures b in s[..n] <==> n > Before(b, s)
  {
    if n > 0 && s[0] != b {
      assert s[..n][1..] == s[1..][..n - 1];
      BeforeInPart(b, s[1..], n - 1);
    }
  }

  /** The first line, if it is all there, is the answer up to a zero octet. */
  lemma WholeAnswer(v: View, size: nat)
    requires 2 <= size < UNBOUNDED && Whole(v)
    ensures AnswerTo(v, size) == if v.text == [] then CantRead else Ok(UpToZero(Cut(FirstText(v.text), size - 1)))
  {
    hide LineOf, EndOf, After, LineLength, TextOf, ShowsNewline, UpToZero, Cut, FirstText;
    LineOfText(v, size - 1);
    TextRead(v.text, size - 1);
    if v.text != [] {
      SomeTaken(v.text, size - 1);
    }
  }

  /** Unless its newline is hidden, the whole of it is gone. */
  lemma WholeLeft(v: View, size: nat)
    requires 2 <= size < UNBOUNDED && Whole(v) && !HidesNewline(v.text, size - 1)
    ensures LeftAfter(v, size) == View(AfterFirst(v.text), v.stop)
  {
    hide LineOf, EndOf, After, LineLength, TextOf, ShowsNewline, RestDropped, Before;
    var text, room, p := v.text, size - 1, Before(NEWLINE, v.text);
    var n := Taking(text, room);
    LineOfText(v, room);
    TextRead(text, room);
    NewlineAt(text);
    if text == [] {
      NoText();
    } else {
      SomeTaken(text, room);
      if room <= p {
        RestIsWhole(v, room);
        RestDroppedIs(View(text[n..], v.stop));
        AfterFirstInRest(text, room);
      } else if p == |text| {
        RestDroppedIs(View(text[n..], v.stop));
        NoText();
      }
    }
  }

  /** A hidden newline: what follows the line is dropped as the rest of it. */
  lemma HiddenLeft(v: View, size: nat)
    requires 2 <= size < UNBOUNDED && HidesNewline(v.text, size - 1)
    ensures LeftAfter(v, size) == RestDropped(View(AfterFirst(v.text), v.stop))
  {
    hide LineOf, EndOf, After, LineLength, TextOf, ShowsNewline, RestDropped, Before;
    NewlineAt(v.text);
    LineOfText(v, size - 1);
    TextRead(v.text, size - 1);
    SomeTaken(v.text, size - 1);
  }

  // ---------------------------------------------------------------- input stopped in a line

  /** What stops the input is never put back. */
  lemma StopKept(v: View, room: nat)
    ensures Weight(After(v, room).stop) <= Weight(v.stop)
    ensures !Complete(v, room) ==> Weight(After(v, room).stop) < Weight(v.stop)
  {
    if !Complete(v, room) {
      SplitWeighs(v.stop[1..]);
    }
  }

  lemma {:induction false} StopKeptWhileDropping(v: View)
    ensures Weight(RestDropped(v).stop) <= Weight(v.stop)
    decreases ViewWeight(v)
  {
    StopKept(v, 1023);
    if GoesOn(v) {
      LessLeft(v, 1023);
      StopKeptWhileDropping(After(v, 1023));
    }
  }

  /** Without a newline a line is not complete unless it fills the room. */
  lemma NoNewline(text: Bytes, room: nat)
    requires NEWLINE !in text
    ensures LineLength(text, room) == (if room <= |text| then room else |text|)
    ensures !EndedAt(text, LineLength(text, room))
  {
    LineLengthIs(text, room);
    NewlineAt(text);
  }

  lemma {:induction false} StopTaken(v: View)
    requires NEWLINE !in v.text && v.stop != []
    ensures Weight(RestDropped(v).stop) < Weight(v.stop)
    decreases |v.text|
  {
    NoNewline(v.text, 1023);
    StopKept(v, 1023);
    if 1023 <= |v.text| {
      assert After(v, 1023) == View(v.text[1023..], v.stop);
      assert GoesOn(v);
      StopTaken(View(v.text[1023..], v.stop));
    } else {
      hide LineLength, After, EndOf, LineOf;
      if GoesOn(v) {
        StopKeptWhileDropping(After(v, 1023));
      }
    }
  }

  /** A line that fills the room shows no newline. */
  lemma RoomFilled(v: View, room: nat)
    requires NEWLINE !in v.text && 0 < room <= |v.text|
    ensures EndOf(v, room) == Read && !ShowsNewline(LineOf(v, room)) && After(v, room) == View(v.text[room..], v.stop)
  {
    NoNewline(v.text, room);
    NewlineAt(v.text);
    TextRead(v.text, room);
    hide LineLength, Before, ShowsNewline, TextOf, UpToZero;
  }

  lemma RoomLeft(v: View, room: nat)
    requires NEWLINE !in v.text && v.stop != [] && |v.text| < room
    ensures !Complete(v, room)
  {
    NoNewline(v.text, room);
  }

  /** Where the input stops in a line, what stopped it is gone too. */
  lemma StoppedPrompt(v: View, size: nat)
    requires 2 <= size < UNBOUNDED && !Whole(v)
    ensures Weight(LeftAfter(v, size).stop) < Weight(v.stop)
  {
    hide LineOf, EndOf, After, LineLength, ShowsNewline, RestDropped, Weight, Complete;
    var room := size - 1;
    if room <= |v.text| {
      RoomFilled(v, room);
      StopTaken(After(v, room));
    } else {
      RoomLeft(v, room);
      StopKept(v, room);
      StopKeptWhileDropping(After(v, room));
    }
  }

  lemma AfterShrinks(v: View)
    ensures ViewWeight(After(v, 1023)) <= ViewWeight(v)
    ensures v != View([], []) ==> ViewWeight(After(v, 1023)) < ViewWeight(v)
  {
    StopKept(v, 1023);
    if EndOf(v, 1023) == Read {
      LessLeft(v, 1023);
    } else if !Complete(v, 1023) {
      SplitWeighs(v.stop[1..]);
    }
  }

  /** Dropping the rest of a line takes something, unless there is nothing. */
  lemma {:induction false} DroppingTakes(v: View)
    ensures ViewWeight(RestDropped(v)) <= ViewWeight(v)
    ensures v != View([], []) ==> ViewWeight(RestDropped(v)) < ViewWeight(v)
    decreases ViewWeight(v)
  {
    AfterShrinks(v);
    hide After, EndOf, Weight;
    if GoesOn(v) {
      LessLeft(v, 1023);
      DroppingTakes(After(v, 1023));
    }
  }

  /** The first line is all there, and its newline is not hidden from a following line. */
  predicate TakenAlone(v: View, room: nat) {
    Whole(v) && (HidesNewline(v.text, room) ==> AfterFirst(v.text) == [] && v.stop == [])
  }

  /**
   * A bounded answer is the first line, cut to the room and to a zero octet, if that line is all there.
   * That line and nothing else is gone if and only if it is all there and no zero octet hides its
   * newline from a line after it.
   */
  lemma OnePrompt(v: View, size: nat)
    requires 2 <= size < UNBOUNDED
    ensures Whole(v) ==>
      AnswerTo(v, size) == if v.text == [] then CantRead else Ok(UpToZero(Cut(FirstText(v.text), size - 1)))
    ensures LeftAfter(v, size) == View(AfterFirst(v.text), v.stop) <==> TakenAlone(v, size - 1)
  {
    hide AnswerTo, LeftAfter, Weight, HidesNewline, UpToZero, Cut, FirstText, AfterFirst, RestDropped;
    if !Whole(v) {
      StoppedPrompt(v, size);
    } else {
      WholeAnswer(v, size);
      if HidesNewline(v.text, size - 1) {
        HiddenLeft(v, size);
        var rest := View(AfterFirst(v.text), v.stop);
        DroppingTakes(rest);
        NothingDropped();
      } else {
        WholeLeft(v, size);
      }
    }
  }

  lemma NothingDropped()
    ensures RestDropped(View([], [])) == View([], [])
  {
    RestDroppedIs(View([], []));
    NoText();
  }

  lemma ReadToEnd(text: Bytes, next: Bytes, room: nat)
    requires NEWLINE !in text && 0 < |text| < room && next != []
    ensures var v := View(text, [Chunk([]), Chunk(next)]);
      && EndOf(v, room) == Read && LineOf(v, room) == text && After(v, room) == View(next, [])
      && TextOf(text) == UpToZero(text) && !ShowsNewline(text)
  {
    var v := View(text, [Chunk([]), Chunk(next)]);
    NoNewline(text, room);
    NewlineAt(text);
    TextRead(text, room);
    assert text[..|text|] == text;
    hide LineLength, Before, TextOf, ShowsNewline, UpToZero;
    assert v.stop[1..] == [Chunk(next)] && [Chunk(next)][1..] == [];
    assert Ahead([Chunk(next)]) == next + Ahead([]) == next && [] + next == next;
    assert Stop([Chunk(next)]) == Stop([]) == [];
  }

  /** An end of the input in a line: the next line is swallowed with it. */
  lemma EndTakesNextLine(text: Bytes, next: Bytes, size: nat)
    requires NEWLINE !in text && NEWLINE in next && 0 < |text| < size - 1 && size < UNBOUNDED
    ensures var v := View(text, [Chunk([]), Chunk(next)]);
      AnswerTo(v, size) == Ok(UpToZero(text)) && LeftAfter(v, size) == View(AfterFirst(next), [])
  {
    hide LineOf, EndOf, After, TextOf, ShowsNewline, RestDropped, AfterFirst, UpToZero;
    ReadToEnd(text, next, size - 1);
    RestDroppedIs(View(next, []));
  }

  /** Without a bound the whole first line is the answer, zero octets and all. */
  lemma UnboundedPrompt(v: View)
    requires Whole(v) && |v.text| < 0xFFFF_FFFF_FFFF_FFFE
    ensures var size := 0xFFFF_FFFF_FFFF_FFFF;
      && AnswerTo(v, size) == (if v.text == [] then CantRead else Ok(FirstText(v.text)))
      && LeftAfter(v, size) == View(AfterFirst(v.text), v.stop)
  {
    hide LineOf, EndOf, After, LineLength, RestDropped, Before;
    var text, room := v.text, 0xFFFF_FFFF_FFFF_FFFE;
    var n := Taking(text, room);
    LineOfText(v, room);
    EndedWhere(text, room);
    NewlineAt(text);
    if text == [] {
      NoText();
    } else {
      SomeTaken(text, room);
      assert EndedAt(text[..n], |text[..n]|) == EndedAt(text, n);
      if Before(NEWLINE, text) < |text| {
        Prefix(text, n, n - 1);
      }
    }
  }

  /** A signal or a failed read in a line: signal 2 interrupts, anything else cannot be read. */
  lemma StoppedAnswer(text: Bytes, e: Event, rest: seq<Event>, size: nat)
    requires NEWLINE !in text && |text| < size - 1 && size < UNBOUNDED && (e.Signalled? || e.Broken?)
    ensures AnswerTo(View(text, [e] + rest), size) == if e == Signalled(2) then Interrupted else CantRead
    ensures LeftAfter(View(text, [e] + rest), size) == ViewOf([], rest)
  {
    RoomLeft(View(text, [e] + rest), size - 1);
    assert ([e] + rest)[1..] == rest;
    hide LineLength, RestDropped, Complete, LineOf;
  }

  lemma SomeTaken(text: Bytes, room: nat)
    requires text != [] && room > 0
    ensures text[..Taking(text, room)] != []
  {
  }

  /** The lines of a text, without their newlines. */
  function TextLines(text: Bytes): seq<Bytes>
    decreases |text|
  {
    if text == [] then [] else [FirstText(text)] + TextLines(AfterFirst(text))
  }

  /** The answers to `n` prompts in turn. */
  function Answers(v: View, size: nat, n: nat): seq<Answer>
    decreases n
  {
    if n == 0 then [] else [AnswerTo(v, size)] + Answers(LeftAfter(v, size), size, n - 1)
  }

  /** How many lines are all there. */
  function Newlines(text: Bytes): nat {
    if text == [] then 0 else (if text[0] == NEWLINE then 1 else 0) + Newlines(text[1..])
  }

  lemma {:induction false} NewlinesAfter(text: Bytes)
    requires NEWLINE in text
    ensures Newlines(text) == 1 + Newlines(AfterFirst(text))
  {
    if text[0] != NEWLINE {
      NewlinesAfter(text[1..]);
      AfterFirstInRest(text, 1);
    }
  }

  lemma {:induction false} NoNewlines(text: Bytes)
    requires NEWLINE !in text
    ensures Newlines(text) == 0
  {
    if text != [] {
      NoNewlines(text[1..]);
    }
  }

  /** None of the first `i` lines hides its newline. */
  predicate NoneHidden(text: Bytes, room: nat, i: nat)
    decreases i
  {
    i == 0 || (!HidesNewline(text, room) && NoneHidden(AfterFirst(text), room, i - 1))
  }

  /**
   * Prompts are answered with the lines in turn, each cut to the room and to a zero octet, as long as
   * these are all there and none before hides its newline; and if nothing stops the input, with the
   * last one and then with nothing to read.
   */
  lemma {:induction false} EachPromptALine(v: View, size: nat, n: nat, i: nat)
    requires 2 <= size < UNBOUNDED && i < n && (i < Newlines(v.text) || v.stop == [])
    requires NoneHidden(v.text, size - 1, i)
    ensures var lines, answers := TextLines(v.text), Answers(v, size, n);
      |answers| == n && answers[i] == if i < |lines| then Ok(UpToZero(Cut(lines[i], size - 1))) else CantRead
    decreases i
  {
    hide AnswerTo, LeftAfter, FirstText, AfterFirst, Cut, Newlines, HidesNewline, UpToZero;
    if NEWLINE in v.text {
      NewlinesAfter(v.text);
    } else {
      NoNewlines(v.text);
    }
    WholeAnswer(v, size);
    NoText();
    AnswersCount(LeftAfter(v, size), size, n - 1);
    if i > 0 {
      WholeLeft(v, size);
      EachPromptALine(LeftAfter(v, size), size, n - 1, i - 1);
    }
  }

  lemma {:induction false} AnswersCount(v: View, size: nat, n: nat)
    ensures |Answers(v, size, n)| == n
    decreases n
  {
    if n > 0 {
      AnswersCount(LeftAfter(v, size), size, n - 1);
    }
  }
}
