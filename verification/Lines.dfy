/**
 * Reading a line into a bounded buffer from input that comes in chunks of any size.
 */
module Lines {
  import opened Bytes

  const NEWLINE: Byte := 10

  /** What a read of the descriptor brings; an empty chunk is the end of the input. */
  datatype Event = Chunk(data: Bytes) | Retry | Signalled(signal: int) | Broken

  datatype LineEnd = Read | End | Caught(signal: int) | Failed

  // ---------------------------------------------------------------- what the input holds

  /** The octets that come before anything stops the input; interrupted reads are tried again. */
  function Ahead(events: seq<Event>): Bytes {
    if events == [] then []
    else
      match events[0]
      case Chunk(data) => if data == [] then [] else data + Ahead(events[1..])
      case Retry => Ahead(events[1..])
      case _ => []
  }

  /** What stops the input, and all that follows. */
  function Stop(events: seq<Event>): seq<Event> {
    if events == [] then []
    else
      match events[0]
      case Chunk(data) => if data == [] then events else Stop(events[1..])
      case Retry => Stop(events[1..])
      case _ => events
  }

  /** The octets to come, however they are chunked, and what stops them. */
  datatype View = View(text: Bytes, stop: seq<Event>)

  function ViewOf(buffered: Bytes, events: seq<Event>): View {
    View(buffered + Ahead(events), Stop(events))
  }

  // ---------------------------------------------------------------- reference

  /** The length of the line: through a newline, or `room` octets, or all there is. */
  function LineLength(text: Bytes, room: nat): (n: nat)
    ensures n <= |text| && n <= room
    ensures n == room || n == |text| || EndedAt(text, n)
  {
    if room == 0 || text == [] then 0
    else if text[0] == NEWLINE then 1
    else 1 + LineLength(text[1..], room - 1)
  }

  /** The first `n` octets end with a newline. */
  predicate EndedAt(text: Bytes, n: nat)
    requires n <= |text|
  {
    n > 0 && text[n - 1] == NEWLINE
  }

  /** Nothing before the last octet of a line is a newline. */
  lemma {:induction false} LineHasOneNewline(text: Bytes, room: nat)
    ensures forall i :: 0 <= i < LineLength(text, room) - 1 ==> text[i] != NEWLINE
  {
    if room > 0 && text != [] && text[0] != NEWLINE {
      LineHasOneNewline(text[1..], room - 1);
      forall i | 0 < i < LineLength(text, room) - 1
        ensures text[i] != NEWLINE
      {
        assert text[1..][i - 1] == text[i];
      }
    }
  }

  function ReadOrEnd(line: Bytes): LineEnd {
    if line == [] then End else Read
  }

  function Room(size: nat): nat {
    if size == 0 then 0 else size - 1
  }

  /** The line has its own end, or nothing stops the input. */
  predicate Complete(v: View, room: nat) {
    var n := LineLength(v.text, room);
    n == room || EndedAt(v.text, n) || v.stop == []
  }

  function LineOf(v: View, room: nat): Bytes {
    v.text[..LineLength(v.text, room)]
  }

  /** What is left after a line. */
  function After(v: View, room: nat): View {
    if Complete(v, room) then View(v.text[LineLength(v.text, room)..], v.stop) else ViewOf([], v.stop[1..])
  }

  /** How reading a line ends: at its own end, or at what stops the input. */
  function EndOf(v: View, room: nat): LineEnd {
    if Complete(v, room) then ReadOrEnd(LineOf(v, room))
    else
      match v.stop[0]
      case Signalled(s) => Caught(s)
      case Broken => Failed
      case _ => ReadOrEnd(LineOf(v, room))
  }

  // ---------------------------------------------------------------- the reader

  class Input {
    var buffered: Bytes
    var events: seq<Event>

    function Holds(): View
      reads this
    {
      ViewOf(buffered, events)
    }

    /** Makes some octets available, unless the input is stopped: then the event that stops it. */
    method Fill() returns (e: Event)
      modifies this
      ensures e == Chunk(buffered) || (!e.Chunk? && buffered == [])
      ensures buffered != [] ==> e == Chunk(buffered) && Holds() == old(Holds()) && |events| <= |old(events)|
      ensures buffered == [] && e != Retry ==>
        && old(Holds()).text == []
        && (old(Holds()).stop == [] ==> e == Chunk([]) && Holds() == old(Holds()))
        && (old(Holds()).stop != [] ==> e == old(Holds()).stop[0] && Holds() == ViewOf([], old(Holds()).stop[1..]))
      ensures e == Retry ==> buffered == [] && Holds() == old(Holds()) && |events| < |old(events)|
    {
      if buffered != [] || events == [] {
        return Chunk(buffered);
      }
      e := events[0];
      events := events[1..];
      if e.Chunk? {
        buffered := e.data;
      }
      assert [] + Ahead(old(events)) == Ahead(old(events)) && [] + Ahead(events) == Ahead(events);
    }

    method Consume(n: nat)
      requires n <= |buffered|
      modifies this`buffered
      ensures buffered == old(buffered)[n..]
    {
      buffered := buffered[n..];
    }
  }

  /** How much of what is available belongs to the line. */
  method TakeFrom(have: Bytes, room: nat) returns (take: nat)
    ensures take == LineLength(have, room)
  {
    take := 0;
    assert have[0..] == have;
    while take < room && take < |have| && have[take] != NEWLINE
      invariant take <= room && take <= |have|
      invariant take + LineLength(have[take..], room - take) == LineLength(have, room)
    {
      assert have[take..][1..] == have[take + 1..];
      take := take + 1;
    }
    if take < room && take < |have| {
      take := take + 1;
    }
  }

  /** A line goes on after its first part exactly when that part is used up and does not end it. */
  lemma {:induction false} LineInParts(a: Bytes, b: Bytes, room: nat)
    ensures var n := LineLength(a, room);
      LineLength(a + b, room) == if n < |a| || EndedAt(a, n) then n else n + LineLength(b, room - n)
  {
    if a == [] {
      assert a + b == b;
    } else if room > 0 && a[0] != NEWLINE {
      assert (a + b)[1..] == a[1..] + b;
      LineInParts(a[1..], b, room - 1);
    }
  }

  /** A line `take` octets longer than that of the rest. */
  lemma LineGoesOn(have: Bytes, more: Bytes, stop: seq<Event>, room: nat, take: nat)
    requires take <= |have| && take <= room && !EndedAt(have, take)
    requires LineLength(have + more, room) == take + LineLength(have[take..] + more, room - take)
    ensures var v, w := View(have + more, stop), View(have[take..] + more, stop);
      && LineOf(v, room) == have[..take] + LineOf(w, room - take)
      && (Complete(v, room) <==> Complete(w, room - take)) && After(v, room) == After(w, room - take)
  {
    var n := LineLength(have[take..] + more, room - take);
    hide LineLength, ViewOf;
    TakenParts(have, more, take, n);
  }

  /** What is available, taken as far as the line goes, and what there is besides. */
  lemma Taken(have: Bytes, more: Bytes, stop: seq<Event>, room: nat)
    ensures var take := LineLength(have, room);
      var v, w := View(have + more, stop), View(have[take..] + more, stop);
      if EndedAt(have, take) then LineOf(v, room) == have[..take] && Complete(v, room) && After(v, room) == w
      else
        && LineOf(v, room) == have[..take] + LineOf(w, room - take)
        && (Complete(v, room) <==> Complete(w, room - take)) && After(v, room) == After(w, room - take)
  {
    var take := LineLength(have, room);
    LineInParts(have, more, room);
    NoRoom(have[take..] + more);
    hide LineLength, ViewOf;
    if EndedAt(have, take) {
      TakenParts(have, more, take, 0);
    } else {
      if take == |have| {
        assert have[take..] + more == more;
      }
      LineGoesOn(have, more, stop, room, take);
    }
  }

  lemma NoRoom(text: Bytes)
    ensures LineLength(text, 0) == 0
  {
  }

  lemma TakenParts(have: Bytes, more: Bytes, take: nat, n: nat)
    requires take <= |have| && n <= |have| - take + |more|
    ensures (have + more)[..take + n] == have[..take] + (have[take..] + more)[..n]
    ensures (have + more)[take + n..] == (have[take..] + more)[n..]
    ensures n > 0 ==> (have + more)[take + n - 1] == (have[take..] + more)[n - 1]
    ensures take > 0 ==> (have + more)[take - 1] == have[take - 1]
  {
  }

  /** The line, if nothing is left to read of it. */
  lemma NothingMore(v: View, room: nat)
    ensures room == 0 || (v.text == [] && v.stop == []) ==>
      LineOf(v, room) == [] && Complete(v, room) && After(v, room) == v
    ensures room > 0 && v.text == [] && v.stop != [] ==>
      LineOf(v, room) == [] && !Complete(v, room) && After(v, room) == ViewOf([], v.stop[1..])
  {
  }

  /** Reads one line, whatever the chunks. */
  method Fgets(input: Input, size: nat) returns (r: LineEnd, line: Bytes)
    modifies input
    ensures line == LineOf(old(input.Holds()), Room(size))
    ensures r == EndOf(old(input.Holds()), Room(size))
    ensures input.Holds() == After(old(input.Holds()), Room(size))
  {
    hide LineLength, Ahead, Stop, LineOf, Complete, After;
    ghost var v := input.Holds();
    line := [];
    assert [] + LineOf(v, Room(size)) == LineOf(v, Room(size));
    while |line| + 1 < size
      invariant |line| <= Room(size)
      invariant LineOf(v, Room(size)) == line + LineOf(input.Holds(), Room(size) - |line|)
      invariant Complete(v, Room(size)) <==> Complete(input.Holds(), Room(size) - |line|)
      invariant After(v, Room(size)) == After(input.Holds(), Room(size) - |line|)
      invariant !Complete(v, Room(size)) ==> v.stop == input.Holds().stop
      decreases size - |line|, |input.events|
    {
      NothingMore(input.Holds(), Room(size) - |line|);
      var e := input.Fill();
      if e == Retry {
        continue;
      }
      if e.Signalled? {
        return Caught(e.signal), line;
      }
      if e.Broken? {
        return Failed, line;
      }
      if e.data == [] {
        return ReadOrEnd(line), line;
      }
      var take := TakeFrom(e.data, size - 1 - |line|);
      Taken(e.data, Ahead(input.events), Stop(input.events), Room(size) - |line|);
      line := line + e.data[..take];
      input.Consume(take);
      if EndedAt(e.data, take) {
        return Read, line;
      }
    }
    NothingMore(input.Holds(), Room(size) - |line|);
    r := ReadOrEnd(line);
  }

  /** A line ends with octet 10, and a buffer of `size` octets has room for one less. */
  lemma LinesSpeltOut(text: Bytes, n: nat, size: nat, v: View)
    requires n <= |text|
    ensures EndedAt(text, n) <==> n > 0 && text[n - 1] == 10
    ensures |LineOf(v, Room(size))| < size || (size == 0 && LineOf(v, Room(size)) == [])
    ensures size > 0 && |v.text| < size && v.stop == [] && 10 !in v.text ==> LineOf(v, Room(size)) == v.text
  {
    if size > 0 && |v.text| < size && 10 !in v.text {
      AllOfIt(v.text, Room(size));
      assert v.text[..|v.text|] == v.text;
    }
  }

  lemma {:induction false} AllOfIt(text: Bytes, room: nat)
    requires |text| <= room && 10 !in text
    ensures LineLength(text, room) == |text|
  {
    if text != [] {
      AllOfIt(text[1..], room - 1);
    }
  }
}
