/**
 * Catching signals while a line is read: nested catches share one signal descriptor, and the
 * thread's signal mask is put back when the last of them goes.
 *
 * A creation's system calls may fail; those that only put a mask back are taken to work.
 */
module SignalCatch {
  import opened Options

  type Signal = int

  datatype Catching = Catching(mask: set<Signal>, before: set<Signal>)

  /** The signals blocked in the thread, and what is being caught. */
  datatype Thread = Thread(blocked: set<Signal>, catching: Option<Catching>)

  /** Which of the two system calls of a creation fail. */
  datatype Faults = Faults(block: bool, descriptor: bool)

  function MaskOf(t: Thread): set<Signal> {
    if t.catching.Some? then t.catching.value.mask else {}
  }

  // ---------------------------------------------------------------- the object

  /** The signals not caught yet. */
  method Missing(signals: seq<Signal>, mask: set<Signal>) returns (added: set<Signal>)
    ensures added == (set s | s in signals) - mask
  {
    added := {};
    for i := 0 to |signals|
      invariant added == (set s | s in signals[..i]) - mask
    {
      assert signals[..i + 1] == signals[..i] + [signals[i]];
      if signals[i] !in mask {
        added := added + {signals[i]};
      }
    }
    assert signals[..|signals|] == signals;
  }

  class Catcher {
    var blocked: set<Signal>
    var catching: Option<Catching>

    function Value(): Thread
      reads this
    {
      Thread(blocked, catching)
    }

    method Start(added: set<Signal>, faults: Faults) returns (k: Option<Catching>)
      modifies this`blocked
      ensures k == if faults.block || faults.descriptor then None else Some(Catching(added, old(blocked)))
      ensures blocked == if k.Some? then old(blocked) + added else old(blocked)
    {
      if faults.block {
        return None;
      }
      var before := blocked;
      blocked := blocked + added;
      if faults.descriptor {
        blocked := before;
        return None;
      }
      k := Some(Catching(added, before));
    }

    /** A failure unblocks only what was not blocked before any catch. */
    method Widen(added: set<Signal>, faults: Faults) returns (ok: bool)
      requires catching.Some?
      modifies this
      ensures ok == (!faults.block && !faults.descriptor)
      ensures ok ==> Value() == Thread(old(blocked) + added,
                                       Some(Catching(old(catching).value.mask + added, old(catching).value.before)))
      ensures !ok ==> catching == old(catching)
      ensures !ok ==> blocked == if faults.block then old(blocked)
                                 else old(blocked) + added - (added - old(catching).value.before)
    {
      var k := catching.value;
      var mask := k.mask + added;
      if faults.block {
        return false;
      }
      blocked := blocked + added;
      if faults.descriptor {
        blocked := blocked - (added - k.before);
        return false;
      }
      catching := Some(Catching(mask, k.before));
      return true;
    }

    method New(signals: seq<Signal>, faults: Faults) returns (added: set<Signal>)
      modifies this
      ensures Value() == Created(old(Value()), signals, faults).0
      ensures added == Created(old(Value()), signals, faults).1
    {
      added := Missing(signals, MaskOf(Value()));
      if added == {} {
        return;
      }
      if catching.Some? {
        var ok := Widen(added, faults);
        return if ok then added else {};
      }
      var k := Start(added, faults);
      catching := k;
      return if k.Some? then added else {};
    }

    method Drop(added: set<Signal>)
      modifies this
      ensures Value() == Dropped(old(Value()), added)
    {
      if added == {} || catching.None? {
        return;
      }
      var k := catching.value;
      var mask := k.mask - added;
      if mask == {} {
        catching := None;
        blocked := k.before;
        return;
      }
      catching := Some(Catching(mask, k.before));
      blocked := blocked - (added - k.before);
    }
  }

  /** The thread after a creation, and the signals it added. */
  function Created(t: Thread, signals: seq<Signal>, faults: Faults): (Thread, set<Signal>) {
    var added := (set s | s in signals) - MaskOf(t);
    if added == {} then (t, {})
    else if faults.block then (t, {})
    else if t.catching.None? then
      if faults.descriptor then (t, {}) else (Thread(t.blocked + added, Some(Catching(added, t.blocked))), added)
    else
      var k := t.catching.value;
      if faults.descriptor then (t.(blocked := t.blocked + added - (added - k.before)), {})
      else (Thread(t.blocked + added, Some(Catching(k.mask + added, k.before))), added)
  }

  function Dropped(t: Thread, added: set<Signal>): Thread {
    if added == {} || t.catching.None? then t
    else
      var k := t.catching.value;
      if k.mask - added == {} then Thread(k.before, None)
      else Thread(t.blocked - (added - k.before), Some(Catching(k.mask - added, k.before)))
  }

  // ---------------------------------------------------------------- runs

  /** A live catch: what it asked for, what it added, and whether its creation worked. */
  datatype Catch = Catch(wanted: set<Signal>, added: set<Signal>, ok: bool)

  datatype Step = Create(signals: seq<Signal>, faults: Faults) | Release(at: nat)

  datatype World = World(thread: Thread, live: seq<Catch>)

  function Without(live: seq<Catch>, at: nat): seq<Catch>
    requires at < |live|
  {
    live[..at] + live[at + 1..]
  }

  function Next(w: World, s: Step): World {
    match s
    case Create(signals, faults) =>
      var (t, added) := Created(w.thread, signals, faults);
      var wanted := set s | s in signals;
      World(t, w.live + [Catch(wanted, added, wanted - MaskOf(w.thread) == added)])
    case Release(at) =>
      if at < |w.live| then World(Dropped(w.thread, w.live[at].added), Without(w.live, at)) else w
  }

  function Run(w: World, steps: seq<Step>): World
    decreases |steps|
  {
    if steps == [] then w else Run(Next(w, steps[0]), steps[1..])
  }

  function Union(live: seq<Catch>): set<Signal> {
    if live == [] then {} else live[0].added + Union(live[1..])
  }

  predicate Disjoint(live: seq<Catch>) {
    forall i, j :: 0 <= i < j < |live| ==> live[i].added !! live[j].added
  }

  /** What is caught is what the live catches added, each once; and that is what is blocked besides `before`. */
  predicate Inv(w: World, before: set<Signal>) {
    && MaskOf(w.thread) == Union(w.live) && Disjoint(w.live)
    && w.thread.blocked == before + MaskOf(w.thread)
    && (w.thread.catching.Some? ==> w.thread.catching.value.before == before && MaskOf(w.thread) != {})
  }

  lemma {:induction false} UnionSplits(a: seq<Catch>, b: seq<Catch>)
    ensures Union(a + b) == Union(a) + Union(b)
  {
    if a == [] {
      assert a + b == b;
    } else {
      assert (a + b)[1..] == a[1..] + b;
      UnionSplits(a[1..], b);
    }
  }

  lemma {:induction false} AddedInUnion(live: seq<Catch>, i: nat)
    requires i < |live|
    ensures live[i].added <= Union(live)
  {
    if i > 0 {
      AddedInUnion(live[1..], i - 1);
    }
  }

  lemma {:induction false} ApartFromUnion(live: seq<Catch>, s: set<Signal>)
    requires forall j :: 0 <= j < |live| ==> live[j].added !! s
    ensures Union(live) !! s
  {
    if live != [] {
      ApartFromUnion(live[1..], s);
    }
  }

  lemma CreateKeeps(w: World, before: set<Signal>, signals: seq<Signal>, faults: Faults)
    requires Inv(w, before)
    ensures Inv(Next(w, Create(signals, faults)), before)
  {
    var (t, added) := Created(w.thread, signals, faults);
    var w' := Next(w, Create(signals, faults));
    var c := w'.live[|w.live|];
    UnionSplits(w.live, [c]);
    assert Union([c]) == added;
    forall i | 0 <= i < |w.live|
      ensures w.live[i].added !! added
    {
      AddedInUnion(w.live, i);
    }
  }

  lemma WithoutAt(live: seq<Catch>, at: nat, j: nat)
    requires at < |live| && j < |live| - 1
    ensures Without(live, at)[j] == live[if j < at then j else j + 1]
  {
  }

  lemma DisjointWithout(live: seq<Catch>, at: nat)
    requires at < |live| && Disjoint(live)
    ensures Disjoint(Without(live, at))
    ensures forall j :: 0 <= j < |live| - 1 ==> Without(live, at)[j].added !! live[at].added
  {
    forall j | 0 <= j < |live| - 1
      ensures Without(live, at)[j] == live[if j < at then j else j + 1]
    {
      WithoutAt(live, at, j);
    }
  }

  lemma UnionWithout(live: seq<Catch>, at: nat)
    requires at < |live| && Disjoint(live)
    ensures Union(Without(live, at)) == Union(live) - live[at].added
  {
    DisjointWithout(live, at);
    ApartFromUnion(Without(live, at), live[at].added);
    hide Disjoint;
    var a, c, b := live[..at], [live[at]], live[at + 1..];
    assert live == a + c + b;
    UnionSplits(a + c, b);
    UnionSplits(a, c);
    UnionSplits(a, b);
    assert Union(c) == live[at].added;
  }

  lemma ReleaseKeeps(w: World, before: set<Signal>, at: nat)
    requires Inv(w, before) && at < |w.live|
    ensures Inv(Next(w, Release(at)), before)
  {
    UnionWithout(w.live, at);
    DisjointWithout(w.live, at);
    AddedInUnion(w.live, at);
    hide Disjoint, Union, Without;
    if w.live[at].added != {} {
      assert w.thread.catching.Some?;
    }
  }

  lemma NextKeeps(w: World, before: set<Signal>, s: Step)
    requires Inv(w, before)
    ensures Inv(Next(w, s), before)
  {
    hide Inv;
    match s {
      case Create(signals, faults) => CreateKeeps(w, before, signals, faults);
      case Release(at) =>
        if at < |w.live| {
          ReleaseKeeps(w, before, at);
        }
    }
  }

  /** Every run of creations, failing or not, and of releases in any order keeps the invariant. */
  lemma {:induction false} RunKeeps(w: World, before: set<Signal>, steps: seq<Step>)
    requires Inv(w, before)
    ensures Inv(Run(w, steps), before)
    decreases |steps|
  {
    hide Inv, Next;
    if steps != [] {
      NextKeeps(w, before, steps[0]);
      RunKeeps(Next(w, steps[0]), before, steps[1..]);
    }
  }

  /** A run that starts with nothing caught and ends with no live catch leaves the mask as it was. */
  lemma LastReleaseRestores(before: set<Signal>, steps: seq<Step>)
    requires Run(World(Thread(before, None), []), steps).live == []
    ensures Run(World(Thread(before, None), []), steps).thread == Thread(before, None)
  {
    RunKeeps(World(Thread(before, None), []), before, steps);
  }

  // ---------------------------------------------------------------- keeping what was asked for

  /** Every live catch whose creation worked has its signals caught. */
  predicate StayCaught(w: World) {
    forall i :: 0 <= i < |w.live| && w.live[i].ok ==> w.live[i].wanted <= MaskOf(w.thread)
  }

  /** A release takes away nothing that another live catch wants. */
  predicate Harmless(w: World, s: Step) {
    s.Release? && s.at < |w.live| ==>
      forall i :: 0 <= i < |w.live| && i != s.at && w.live[i].ok ==> w.live[i].wanted !! w.live[s.at].added
  }

  lemma CreateStays(w: World, before: set<Signal>, signals: seq<Signal>, faults: Faults)
    requires Inv(w, before) && StayCaught(w)
    ensures StayCaught(Next(w, Create(signals, faults)))
  {
    var w' := Next(w, Create(signals, faults));
    assert forall i :: 0 <= i < |w.live| ==> w'.live[i] == w.live[i];
    hide Union, Disjoint;
  }

  lemma MaskWithout(w: World, before: set<Signal>, at: nat)
    requires Inv(w, before) && at < |w.live|
    ensures MaskOf(Next(w, Release(at)).thread) == MaskOf(w.thread) - w.live[at].added
  {
    ReleaseKeeps(w, before, at);
    UnionWithout(w.live, at);
    hide Union, Disjoint, Dropped;
  }

  /** A release leaves every live catch its signals exactly when no other one wants what it takes away. */
  lemma ReleaseStays(w: World, before: set<Signal>, at: nat)
    requires Inv(w, before) && StayCaught(w) && at < |w.live|
    ensures StayCaught(Next(w, Release(at))) <==> Harmless(w, Release(at))
  {
    var w' := Next(w, Release(at));
    MaskWithout(w, before, at);
    forall j | 0 <= j < |w.live| - 1
      ensures w'.live[j] == w.live[if j < at then j else j + 1]
    {
      WithoutAt(w.live, at, j);
    }
    hide Inv, Without, Dropped;
    forall i | 0 <= i < |w.live| && i != at
      ensures w.live[i] == w'.live[if i < at then i else i - 1]
    {
    }
  }

  lemma NextStays(w: World, before: set<Signal>, s: Step)
    requires Inv(w, before) && StayCaught(w)
    ensures StayCaught(Next(w, s)) <==> Harmless(w, s)
  {
    hide Inv, StayCaught;
    match s {
      case Create(signals, faults) => CreateStays(w, before, signals, faults);
      case Release(at) =>
        if at < |w.live| {
          ReleaseStays(w, before, at);
        }
    }
  }

  /** At no point of the run does a live catch miss a signal. */
  predicate CaughtThroughout(w: World, steps: seq<Step>)
    decreases |steps|
  {
    StayCaught(w) && (steps == [] || CaughtThroughout(Next(w, steps[0]), steps[1..]))
  }

  predicate HarmlessThroughout(w: World, steps: seq<Step>)
    decreases |steps|
  {
    steps == [] || (Harmless(w, steps[0]) && HarmlessThroughout(Next(w, steps[0]), steps[1..]))
  }

  /** Over any run live catches keep their signals exactly when every release in it is harmless. */
  lemma {:induction false} CaughtExactlyWhenHarmless(w: World, before: set<Signal>, steps: seq<Step>)
    requires Inv(w, before) && StayCaught(w)
    ensures CaughtThroughout(w, steps) <==> HarmlessThroughout(w, steps)
    decreases |steps|
  {
    hide Inv, StayCaught, Next, Harmless;
    if steps != [] {
      NextKeeps(w, before, steps[0]);
      NextStays(w, before, steps[0]);
      if Harmless(w, steps[0]) {
        CaughtExactlyWhenHarmless(Next(w, steps[0]), before, steps[1..]);
      }
    }
  }

  // ---------------------------------------------------------------- last in, first out

  predicate Nested(w: World, steps: seq<Step>)
    decreases |steps|
  {
    steps == [] || ((steps[0].Release? ==> steps[0].at == |w.live| - 1) && Nested(Next(w, steps[0]), steps[1..]))
  }

  /** What the catches up to `i` added. */
  function UpTo(live: seq<Catch>, i: nat): set<Signal>
    requires i < |live|
  {
    Union(live[..i + 1])
  }

  /** A catch that worked finds its signals among those it and the ones before it added. */
  predicate Covered(live: seq<Catch>) {
    forall i :: 0 <= i < |live| && live[i].ok ==> live[i].wanted <= UpTo(live, i)
  }

  lemma CreateCovers(w: World, before: set<Signal>, signals: seq<Signal>, faults: Faults)
    requires Inv(w, before) && Covered(w.live)
    ensures Covered(Next(w, Create(signals, faults)).live)
  {
    var live := Next(w, Create(signals, faults)).live;
    var n := |w.live|;
    UnionSplits(w.live, [live[n]]);
    assert Union([live[n]]) == live[n].added;
    assert live[..n + 1] == w.live + [live[n]];
    forall i | 0 <= i < n
      ensures UpTo(live, i) == UpTo(w.live, i)
    {
      assert live[..i + 1] == w.live[..i + 1];
    }
  }

  lemma ReleaseCovers(w: World)
    requires w.live != [] && Covered(w.live)
    ensures Covered(Next(w, Release(|w.live| - 1)).live)
  {
    var n := |w.live| - 1;
    var live := Next(w, Release(n)).live;
    assert live == w.live[..n];
    forall i | 0 <= i < n
      ensures UpTo(live, i) == UpTo(w.live, i)
    {
      assert live[..i + 1] == w.live[..i + 1];
    }
  }

  /** What the last catch added no earlier one counts on. */
  lemma LastIsHarmless(w: World, before: set<Signal>)
    requires Inv(w, before) && Covered(w.live) && w.live != []
    ensures Harmless(w, Release(|w.live| - 1))
  {
    var n := |w.live| - 1;
    forall i | 0 <= i < n
      ensures UpTo(w.live, i) !! w.live[n].added
    {
      ApartFromUnion(w.live[..i + 1], w.live[n].added);
    }
  }

  lemma {:induction false} NestedIsHarmless(w: World, before: set<Signal>, steps: seq<Step>)
    requires Inv(w, before) && Covered(w.live) && Nested(w, steps)
    ensures HarmlessThroughout(w, steps)
    decreases |steps|
  {
    hide Inv, Covered, Next;
    if steps != [] {
      NextKeeps(w, before, steps[0]);
      match steps[0] {
        case Create(signals, faults) => CreateCovers(w, before, signals, faults);
        case Release(_) =>
          ReleaseCovers(w);
          LastIsHarmless(w, before);
      }
      NestedIsHarmless(Next(w, steps[0]), before, steps[1..]);
    }
  }

  lemma CoveredAreCaught(w: World, before: set<Signal>)
    requires Inv(w, before) && Covered(w.live)
    ensures StayCaught(w)
  {
    forall i | 0 <= i < |w.live|
      ensures UpTo(w.live, i) <= Union(w.live)
    {
      UnionSplits(w.live[..i + 1], w.live[i + 1..]);
      assert w.live[..i + 1] + w.live[i + 1..] == w.live;
    }
  }

  /** Releases last in, first out keep every live catch its signals throughout. */
  lemma NestedStayCaught(w: World, before: set<Signal>, steps: seq<Step>)
    requires Inv(w, before) && Covered(w.live) && Nested(w, steps)
    ensures CaughtThroughout(w, steps)
  {
    hide Inv, Covered, StayCaught;
    CoveredAreCaught(w, before);
    NestedIsHarmless(w, before, steps);
    CaughtExactlyWhenHarmless(w, before, steps);
  }

  /** Released first in, first out, a live catch can lose a signal it asked for. */
  lemma OutOfOrderLoses(a: Signal, b: Signal)
    requires a != b
    ensures var none := Faults(false, false);
      var r := Run(World(Thread({}, None), []), [Create([a], none), Create([a, b], none), Release(0)]);
      |r.live| == 1 && r.live[0].ok && a in r.live[0].wanted && a !in MaskOf(r.thread)
  {
    var none := Faults(false, false);
    var w0 := World(Thread({}, None), []);
    assert (set s | s in [a]) == {a} && (set s | s in [a, b]) == {a, b};
    ThreeSteps(w0, Create([a], none), Create([a, b], none), Release(0));
    var w1 := Next(w0, Create([a], none));
    assert {a} - {} == {a} && w1 == World(Thread({} + {a}, Some(Catching({a}, {}))), [] + [Catch({a}, {a}, true)]);
    var w2 := Next(w1, Create([a, b], none));
    assert {a, b} - {a} == {b} && w2.live == [Catch({a}, {a}, true), Catch({a, b}, {b}, true)];
    assert Without(w2.live, 0) == [Catch({a, b}, {b}, true)];
  }

  lemma ThreeSteps(w: World, x: Step, y: Step, z: Step)
    ensures Run(w, [x, y, z]) == Next(Next(Next(w, x), y), z)
  {
    hide Next;
    assert [x, y, z][1..] == [y, z] && [y, z][1..] == [z];
    assert Run(Next(w, x), [y, z]) == Run(Next(Next(w, x), y), [z]);
  }
}
