/**
 * Looking a key up in a keytab by name, realm, key version and encryption type.
 *
 * Key versions may be stored modulo 256; a version of 0 asks for the newest key.
 */
module Keytab {
  import opened Options

  datatype Entry = Entry(name: seq<string>, realm: string, kvno: nat, timestamp: nat, etype: int, key: int)
  datatype Query = Query(name: seq<string>, realm: string, kvno: nat, etype: int)

  /** The position of the entry found. */
  datatype Lookup = Found(at: nat) | KvnoNotFound | NotFound

  predicate Matches(e: Entry, q: Query) {
    e.name == q.name && e.realm == q.realm && (q.etype == 0 || e.etype == q.etype)
  }

  predicate MoreRecent(a: Entry, b: Entry) {
    if b.timestamp <= a.timestamp && a.kvno < 128 && b.kvno > 240 then true
    else if a.timestamp <= b.timestamp && a.kvno > 240 && b.kvno < 128 then false
    else a.kvno > b.kvno
  }

  /** An entry that answers for the version asked, other than by being exactly it. */
  predicate Stands(e: Entry, q: Query) {
    Matches(e, q) && (q.kvno == 0 || e.kvno == 0 || e.kvno == q.kvno % 256)
  }

  predicate Exact(e: Entry, q: Query) {
    Matches(e, q) && q.kvno != 0 && e.kvno == q.kvno
  }

  predicate FirstExact(entries: seq<Entry>, q: Query, at: nat) {
    && at < |entries| && Exact(entries[at], q)
    && forall j :: 0 <= j < at ==> !Exact(entries[j], q)
  }

  /** The entry kept from those that stand for the version, among the first `n`. */
  function Kept(entries: seq<Entry>, q: Query, n: nat): (r: Option<nat>)
    requires n <= |entries|
    ensures r.Some? ==> r.value < n && Stands(entries[r.value], q)
    ensures r.None? <==> forall j :: 0 <= j < n ==> !Stands(entries[j], q)
  {
    if n == 0 then None
    else
      var c, e := Kept(entries, q, n - 1), entries[n - 1];
      if !Stands(e, q) then c
      else if c.None? || ((q.kvno == 0 || e.kvno == 0) && MoreRecent(e, entries[c.value])) then Some(n - 1)
      else c
  }

  /** The first exact match wins; without one, the entry kept. */
  predicate IsFound(entries: seq<Entry>, q: Query, at: nat) {
    && at < |entries| && Matches(entries[at], q)
    && if exists j :: 0 <= j < |entries| && Exact(entries[j], q)
       then FirstExact(entries, q, at)
       else Kept(entries, q, |entries|) == Some(at)
  }

  /** There are keys for the name and type, but none for the version. */
  predicate NoVersion(entries: seq<Entry>, q: Query) {
    && (exists j :: 0 <= j < |entries| && Matches(entries[j], q))
    && (forall j :: 0 <= j < |entries| ==> !Stands(entries[j], q) && !Exact(entries[j], q))
  }

  /** Looks for the version asked, keeping an entry that stands for it. */
  method GetEntry(entries: seq<Entry>, q: Query) returns (r: Lookup)
    ensures r == NotFound <==> forall j :: 0 <= j < |entries| ==> !Matches(entries[j], q)
    ensures r == KvnoNotFound <==> NoVersion(entries, q)
    ensures r.Found? ==> IsFound(entries, q, r.at)
  {
    var cur: Option<nat>, wrongKvno := None, false;
    var i := 0;
    while i < |entries|
      invariant 0 <= i <= |entries|
      invariant forall j :: 0 <= j < i ==> !Exact(entries[j], q)
      invariant cur == Kept(entries, q, i)
      invariant cur.None? ==> (wrongKvno <==> exists j :: 0 <= j < i && Matches(entries[j], q))
    {
      var e := entries[i];
      if Matches(e, q) {
        if q.kvno == 0 || e.kvno == 0 {
          if cur.None? || MoreRecent(e, entries[cur.value]) {
            cur := Some(i);
          }
        } else if e.kvno == q.kvno {
          return Found(i);
        } else if e.kvno == q.kvno % 256 && cur.None? {
          cur := Some(i);
        } else {
          wrongKvno := true;
        }
      }
      i := i + 1;
    }
    r := if cur.Some? then Found(cur.value) else if wrongKvno then KvnoNotFound else NotFound;
  }

  // ---------------------------------------------------------------- the newest key

  /** An entry with its true generation. */
  datatype Aged = Aged(entry: Entry, gen: nat)

  function EntriesOf(es: seq<Aged>): (r: seq<Entry>)
    ensures |r| == |es| && forall i :: 0 <= i < |es| ==> r[i] == es[i].entry
  {
    if es == [] then [] else EntriesOf(es[..|es| - 1]) + [es[|es| - 1].entry]
  }

  /**
   * Key versions are the low eight bits of generations, and timestamps do not run backwards against
   * them.
   */
  predicate Dated(es: seq<Aged>, q: Query) {
    && (forall x :: x in es && Matches(x.entry, q) ==> x.entry.kvno == x.gen % 256)
    && (forall x, y :: x in es && y in es && Matches(x.entry, q) && Matches(y.entry, q) && x.gen < y.gen ==>
          x.entry.timestamp <= y.entry.timestamp)
  }

  /** No matching entry is of a later generation. */
  predicate Newest(es: seq<Aged>, q: Query, x: Aged) {
    x in es && Matches(x.entry, q) && forall y :: y in es && Matches(y.entry, q) ==> y.gen <= x.gen
  }

  /** The position of the first entry of the newest generation. */
  predicate FirstNewest(es: seq<Aged>, q: Query, at: nat) {
    at < |es| && Newest(es, q, es[at]) && forall j :: 0 <= j < at ==> !Newest(es, q, es[j])
  }

  /** If there is a matching entry, the first of the newest generation is kept. */
  predicate KeepsNewest(es: seq<Aged>, q: Query) {
    var r := Kept(EntriesOf(es), q, |es|);
    r.Some? ==> FirstNewest(es, q, r.value)
  }

  /** A later entry is told to be later: across the wrap, or by its version. */
  predicate ToldLater(newer: Entry, older: Entry) {
    || (newer.kvno < 128 && older.kvno > 240)
    || (newer.kvno > older.kvno
        && !(newer.timestamp == older.timestamp && newer.kvno > 240 && older.kvno < 128))
  }

  lemma MoreRecentMeans(newer: Entry, older: Entry)
    requires older.timestamp <= newer.timestamp
    ensures MoreRecent(newer, older) <==> ToldLater(newer, older)
  {
  }

  lemma OneWayOnly(a: Entry, b: Entry)
    requires MoreRecent(a, b)
    ensures !MoreRecent(b, a)
  {
  }

  /** The entries of the newest generation are told from every older one. */
  predicate NewestTold(es: seq<Aged>, q: Query) {
    forall x, y :: x in es && Newest(es, q, x) && y in es && Matches(y.entry, q) && y.gen < x.gen ==>
      ToldLater(x.entry, y.entry)
  }

  /** What is kept of the first `n`: the first of the newest generation once it has come. */
  predicate KeptSoFar(es: seq<Aged>, q: Query, n: nat)
    requires n <= |es|
  {
    var r := Kept(EntriesOf(es), q, n);
    if exists i :: 0 <= i < n && Newest(es, q, es[i])
    then r.Some? && FirstNewest(es, q, r.value)
    else r.Some? ==> Matches(es[r.value].entry, q)
  }

  lemma NextKept(es: seq<Aged>, q: Query, n: nat)
    requires q.kvno == 0 && n < |es|
    ensures var entries := EntriesOf(es);
      var c := Kept(entries, q, n);
      Kept(entries, q, n + 1) ==
        if Matches(es[n].entry, q) && (c.None? || MoreRecent(es[n].entry, es[c.value].entry)) then Some(n) else c
  {
    hide Matches, MoreRecent;
  }

  lemma NewestMatches(es: seq<Aged>, q: Query, x: Aged)
    requires Newest(es, q, x)
    ensures x in es && Matches(x.entry, q)
  {
  }

  lemma KeptStep(es: seq<Aged>, q: Query, n: nat)
    requires q.kvno == 0 && n < |es| && Dated(es, q) && NewestTold(es, q) && KeptSoFar(es, q, n)
    ensures KeptSoFar(es, q, n + 1)
  {
    hide Kept, Newest, Dated, NewestTold, Matches, MoreRecent, Stands;
    var c, x := Kept(EntriesOf(es), q, n), es[n];
    NextKept(es, q, n);
    if exists i :: 0 <= i < n && Newest(es, q, es[i]) {
      if Matches(x.entry, q) {
        OlderNotMoreRecent(es, q, x, es[c.value]);
      }
    } else if Newest(es, q, x) {
      NewestMatches(es, q, x);
      if c.Some? {
        NewestMoreRecent(es, q, x, es[c.value]);
      }
    }
  }

  lemma OlderNotMoreRecent(es: seq<Aged>, q: Query, x: Aged, y: Aged)
    requires Dated(es, q) && NewestTold(es, q) && Newest(es, q, y) && x in es && Matches(x.entry, q)
    ensures !MoreRecent(x.entry, y.entry)
  {
    if x.gen < y.gen {
      MoreRecentMeans(y.entry, x.entry);
      OneWayOnly(y.entry, x.entry);
    }
  }

  lemma NewestMoreRecent(es: seq<Aged>, q: Query, x: Aged, y: Aged)
    requires Dated(es, q) && NewestTold(es, q) && Newest(es, q, x) && y in es && Matches(y.entry, q)
    requires !Newest(es, q, y)
    ensures MoreRecent(x.entry, y.entry)
  {
    MoreRecentMeans(x.entry, y.entry);
  }

  lemma {:induction false} KeptSoFarHolds(es: seq<Aged>, q: Query, n: nat)
    requires q.kvno == 0 && n <= |es| && Dated(es, q) && NewestTold(es, q)
    ensures KeptSoFar(es, q, n)
  {
    hide KeptSoFar, Dated, NewestTold;
    if n == 0 {
      NothingKept(es, q);
    } else {
      KeptSoFarHolds(es, q, n - 1);
      KeptStep(es, q, n - 1);
    }
  }

  lemma NothingKept(es: seq<Aged>, q: Query)
    ensures KeptSoFar(es, q, 0)
  {
    hide Newest;
  }

  lemma {:induction false} SomeNewest(es: seq<Aged>, q: Query, n: nat) returns (x: Aged)
    requires n <= |es| && exists i :: 0 <= i < n && Matches(es[i].entry, q)
    ensures x in es[..n] && Matches(x.entry, q)
    ensures forall i :: 0 <= i < n && Matches(es[i].entry, q) ==> es[i].gen <= x.gen
  {
    var last := es[n - 1];
    if exists i :: 0 <= i < n - 1 && Matches(es[i].entry, q) {
      x := SomeNewest(es, q, n - 1);
      if Matches(last.entry, q) && last.gen > x.gen {
        x := last;
      }
    } else {
      x := last;
    }
  }

  /** Where something matches, some entry is of the newest generation. */
  lemma NewestStands(es: seq<Aged>, q: Query, at: nat) returns (i: nat)
    requires at < |es| && Matches(es[at].entry, q)
    ensures i < |es| && Newest(es, q, es[i])
  {
    hide Matches;
    var x := SomeNewest(es, q, |es|);
    i :| i < |es| && es[i] == x;
  }

  lemma KeptMatches(es: seq<Aged>, q: Query)
    requires Kept(EntriesOf(es), q, |es|).Some?
    ensures var at := Kept(EntriesOf(es), q, |es|).value; at < |es| && Matches(es[at].entry, q)
  {
    hide Kept, Matches;
  }

  lemma ToldIsKept(es: seq<Aged>, q: Query)
    requires q.kvno == 0 && Dated(es, q) && NewestTold(es, q)
    ensures KeepsNewest(es, q)
  {
    KeptSoFarHolds(es, q, |es|);
    hide Dated, NewestTold, Matches, Kept, Stands, Newest, EntriesOf, FirstNewest;
    var r := Kept(EntriesOf(es), q, |es|);
    if r.Some? {
      KeptMatches(es, q);
      var i := NewestStands(es, q, r.value);
    }
  }

  // ---------------------------------------------------------------- in every order

  /** The same entries in another order. */
  predicate Reordered(order: seq<Aged>, es: seq<Aged>) {
    multiset(order) == multiset(es)
  }

  lemma SameEntries(order: seq<Aged>, es: seq<Aged>)
    requires Reordered(order, es)
    ensures forall x :: x in order <==> x in es
  {
    forall x
      ensures x in order <==> x in es
    {
      assert x in order <==> x in multiset(order);
    }
  }

  lemma ReorderedKeeps(order: seq<Aged>, es: seq<Aged>, q: Query)
    requires Reordered(order, es)
    ensures Dated(es, q) ==> Dated(order, q)
    ensures NewestTold(es, q) ==> NewestTold(order, q)
    ensures forall x :: Newest(order, q, x) <==> Newest(es, q, x)
  {
    SameEntries(order, es);
    hide Matches, ToldLater;
  }

  function Without(es: seq<Aged>, i: nat): seq<Aged>
    requires i < |es|
  {
    es[..i] + es[i + 1..]
  }

  lemma WithoutOne(es: seq<Aged>, i: nat)
    requires i < |es|
    ensures multiset(es) == multiset{es[i]} + multiset(Without(es, i))
  {
    assert es == es[..i] + [es[i]] + es[i + 1..];
  }

  /** An entry brought to the front. */
  lemma BroughtForward(es: seq<Aged>, x: Aged) returns (rest: seq<Aged>)
    requires x in es
    ensures multiset(es) == multiset{x} + multiset(rest)
  {
    var i :| 0 <= i < |es| && es[i] == x;
    WithoutOne(es, i);
    rest := Without(es, i);
  }

  lemma BothBroughtForward(es: seq<Aged>, x: Aged, y: Aged) returns (order: seq<Aged>)
    requires x in es && y in es && x != y
    ensures Reordered(order, es) && |order| >= 2 && order[0] == y && order[1] == x
  {
    var rest := BroughtForward(es, y);
    assert x in multiset(es);
    var rest' := BroughtForward(rest, x);
    order := [y, x] + rest';
    assert multiset([y, x]) == multiset{y} + multiset{x};
  }

  /** An entry not told to be later than the first is never kept in the second place. */
  lemma {:induction false} SecondIsLost(es: seq<Aged>, q: Query, n: nat)
    requires q.kvno == 0 && 2 <= n <= |es| && Matches(es[0].entry, q) && !MoreRecent(es[1].entry, es[0].entry)
    ensures Kept(EntriesOf(es), q, n) != Some(1)
  {
    hide Matches, MoreRecent, Kept, Stands;
    NextKept(es, q, n - 1);
    if n == 2 {
      NextKept(es, q, 0);
    } else {
      SecondIsLost(es, q, n - 1);
    }
  }

  lemma NotInOrder(es: seq<Aged>, q: Query, x: Aged, y: Aged)
    requires Dated(es, q) && Newest(es, q, x) && y in es && Matches(y.entry, q) && y.gen < x.gen
    ensures y.entry.timestamp <= x.entry.timestamp && !Newest(es, q, y)
  {
    hide Matches;
  }

  lemma UntoldIsLost(es: seq<Aged>, q: Query, x: Aged, y: Aged) returns (order: seq<Aged>)
    requires q.kvno == 0 && Dated(es, q) && Newest(es, q, x) && y in es && Matches(y.entry, q) && y.gen < x.gen
    requires !ToldLater(x.entry, y.entry)
    ensures Reordered(order, es) && !KeepsNewest(order, q)
  {
    NewestMatches(es, q, x);
    hide Dated, Newest, Matches, ToldLater, MoreRecent, Kept, Reordered;
    order := BothBroughtForward(es, x, y);
    ReorderedKeeps(order, es, q);
    NotInOrder(es, q, x, y);
    MoreRecentMeans(x.entry, y.entry);
    SecondNotKept(order, q);
  }

  lemma SecondNotKept(es: seq<Aged>, q: Query)
    requires q.kvno == 0 && |es| >= 2 && Matches(es[0].entry, q) && !MoreRecent(es[1].entry, es[0].entry)
    requires Newest(es, q, es[1]) && !Newest(es, q, es[0])
    ensures !KeepsNewest(es, q)
  {
    hide Newest, Matches, MoreRecent, Kept, EntriesOf, Stands;
    SecondIsLost(es, q, |es|);
    StandsIsKept(es, q);
  }

  lemma StandsIsKept(es: seq<Aged>, q: Query)
    requires q.kvno == 0 && es != [] && Matches(es[0].entry, q)
    ensures Kept(EntriesOf(es), q, |es|).Some?
  {
    hide Matches;
    assert Stands(EntriesOf(es)[0], q);
  }

  ghost predicate AlwaysKeepsNewest(es: seq<Aged>, q: Query) {
    forall order :: Reordered(order, es) ==> KeepsNewest(order, q)
  }

  /**
   * Asked for no version, the first entry of the newest generation is kept in every file order if
   * and only if that generation is told from every older one.
   */
  lemma NewestKeptExactlyWhenTold(es: seq<Aged>, q: Query)
    requires q.kvno == 0 && Dated(es, q)
    ensures AlwaysKeepsNewest(es, q) <==> NewestTold(es, q)
  {
    hide Dated, KeepsNewest, Newest, Matches, ToldLater;
    if NewestTold(es, q) {
      forall order | Reordered(order, es)
        ensures KeepsNewest(order, q)
      {
        ReorderedKeeps(order, es, q);
        ToldIsKept(order, q);
      }
    } else {
      var x, y :| x in es && Newest(es, q, x) && y in es && Matches(y.entry, q) && y.gen < x.gen
                  && !ToldLater(x.entry, y.entry);
      var order := UntoldIsLost(es, q, x, y);
    }
  }

  // ---------------------------------------------------------------- fifteen generations

  /** Generations of matching entries lie within `width` of each other. */
  predicate Window(es: seq<Aged>, q: Query, width: nat) {
    forall x, y :: x in es && y in es && Matches(x.entry, q) && Matches(y.entry, q) ==> x.gen <= y.gen + width
  }

  /** Within fifteen generations the wrap at 256 is told from a step back. */
  lemma ToldWithinFifteen(newer: Entry, older: Entry, gn: nat, go: nat)
    requires newer.kvno == gn % 256 && older.kvno == go % 256 && go < gn <= go + 15
    ensures ToldLater(newer, older)
  {
    assert gn % 256 == go % 256 + (gn - go) || gn % 256 == go % 256 + (gn - go) - 256;
  }

  /** Within fifteen generations the newest is always kept. */
  lemma FifteenIsEnough(es: seq<Aged>, q: Query)
    requires q.kvno == 0 && Dated(es, q) && Window(es, q, 15)
    ensures AlwaysKeepsNewest(es, q)
  {
    forall x, y | x in es && Newest(es, q, x) && y in es && Matches(y.entry, q) && y.gen < x.gen
      ensures ToldLater(x.entry, y.entry)
    {
      ToldWithinFifteen(x.entry, y.entry, x.gen, y.gen);
    }
    NewestKeptExactlyWhenTold(es, q);
  }

  /** Sixteen generations apart the older key can win. */
  lemma SixteenIsTooFar()
    ensures var q, es := Query(["kprop"], "R", 0, 0), [Aged(Entry(["kprop"], "R", 240, 1, 18, 7), 240),
                                                      Aged(Entry(["kprop"], "R", 0, 2, 18, 8), 256)];
      Dated(es, q) && Window(es, q, 16) && !AlwaysKeepsNewest(es, q)
  {
    var older, newer := Aged(Entry(["kprop"], "R", 240, 1, 18, 7), 240), Aged(Entry(["kprop"], "R", 0, 2, 18, 8), 256);
    var q, es := Query(["kprop"], "R", 0, 0), [older, newer];
    OnlyThese(older, newer);
    assert Dated(es, q) && Window(es, q, 16) && Newest(es, q, newer);
    hide Dated, Window, Newest, KeepsNewest;
    var order := UntoldIsLost(es, q, newer, older);
  }

  lemma OnlyThese(a: Aged, b: Aged)
    ensures forall x :: x in [a, b] <==> x == a || x == b
  {
  }

  // ---------------------------------------------------------------- a version asked for

  /** The first entry standing for the version, among the first `n`. */
  predicate FirstStanding(entries: seq<Entry>, q: Query, n: nat, at: nat)
    requires n <= |entries|
  {
    at < n && Stands(entries[at], q) && forall j :: 0 <= j < at ==> !Stands(entries[j], q)
  }

  /** An entry without a version that a later timestamp lets pass one near the wrap. */
  predicate Overtakes(entries: seq<Entry>, q: Query, first: nat, at: nat)
    requires first < |entries|
  {
    && first < at < |entries| && Matches(entries[at], q) && entries[at].kvno == 0
    && entries[first].kvno > 240 && entries[first].timestamp <= entries[at].timestamp
  }

  /**
   * For a version without an exact match the first entry standing for it is kept, unless its version
   * is above 240 and a later entry without a version is no older: then the first such entry is.
   */
  lemma {:induction false} KeptForVersion(entries: seq<Entry>, q: Query, n: nat, first: nat)
    requires q.kvno != 0 && n <= |entries| && FirstStanding(entries, q, n, first)
    ensures var r := Kept(entries, q, n).value;
      if exists j :: 0 <= j < n && Overtakes(entries, q, first, j)
      then r < n && Overtakes(entries, q, first, r) && forall j :: 0 <= j < r ==> !Overtakes(entries, q, first, j)
      else r == first
  {
    if first < n - 1 {
      KeptForVersion(entries, q, n - 1, first);
      var c, e := entries[Kept(entries, q, n - 1).value], entries[n - 1];
      assert Overtakes(entries, q, first, n - 1) <==>
        Matches(e, q) && e.kvno == 0 && entries[first].kvno > 240 && entries[first].timestamp <= e.timestamp;
      assert e.kvno == 0 ==> (MoreRecent(e, c) <==> c.kvno > 240 && c.timestamp <= e.timestamp);
    }
  }

  // ---------------------------------------------------------------- what is found, field by field

  /** The entry is the server's, of the encryption type asked for if one was. */
  predicate IsFor(e: Entry, q: Query) {
    e.name == q.name && e.realm == q.realm && (q.etype != 0 ==> e.etype == q.etype)
  }

  /** Its version is the one asked for, or its low eight bits, or one of the two is not given. */
  predicate HasVersion(e: Entry, kvno: nat) {
    kvno == 0 || e.kvno == 0 || e.kvno == kvno || e.kvno == kvno % 256
  }

  /** A found entry is for the server and has the version; the first of the very version, if there is one. */
  lemma FoundMeans(entries: seq<Entry>, q: Query, at: nat)
    requires IsFound(entries, q, at)
    ensures at < |entries| && IsFor(entries[at], q) && HasVersion(entries[at], q.kvno)
    ensures q.kvno != 0 && (exists j :: 0 <= j < |entries| && IsFor(entries[j], q) && entries[j].kvno == q.kvno) ==>
      entries[at].kvno == q.kvno
      && forall j :: 0 <= j < at ==> !(IsFor(entries[j], q) && entries[j].kvno == q.kvno)
  {
    hide Kept, MoreRecent;
    if j :| 0 <= j < |entries| && IsFor(entries[j], q) && entries[j].kvno == q.kvno && q.kvno != 0 {
      assert Exact(entries[j], q);
    }
  }

  /** Nothing is found: not for the server, or not of the version. */
  lemma NotFoundMeans(entries: seq<Entry>, q: Query)
    ensures (forall j :: 0 <= j < |entries| ==> !Matches(entries[j], q)) <==>
      forall j :: 0 <= j < |entries| ==> !IsFor(entries[j], q)
    ensures NoVersion(entries, q) <==>
      && (exists j :: 0 <= j < |entries| && IsFor(entries[j], q))
      && (forall j :: 0 <= j < |entries| && IsFor(entries[j], q) ==> !HasVersion(entries[j], q.kvno))
  {
    forall j | 0 <= j < |entries|
      ensures Matches(entries[j], q) <==> IsFor(entries[j], q)
      ensures Stands(entries[j], q) || Exact(entries[j], q) <==>
        IsFor(entries[j], q) && HasVersion(entries[j], q.kvno)
    {
    }
    hide Matches, Stands, Exact, IsFor, HasVersion;
  }
}
