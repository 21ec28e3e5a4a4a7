/**
 * Choosing the keytab key that opens a ticket, and the error where none does.
 *
 * Decrypting the ticket with a key is a parameter.
 */
module TicketKey {
  import opened Keytab
  import opened Options

  const SERVER_BY_HOST := 3

  const BAD_INTEGRITY := 31
  const NOT_US := 35
  const BADKEYVER := 44
  const NOKEY := 45

  datatype Principal = Principal(nameType: int, name: seq<string>)
  datatype Ticket = Ticket(sname: seq<string>, realm: string, kvno: nat, etype: int)

  /** What came of decrypting the ticket. */
  datatype Opening = Opened | Integrity | Size | Other

  datatype KeytabError = Resolve | Read
  datatype Named = Server | Name(canonical: Principal) | Unnamed
  datatype Keys = Keys(entries: seq<Entry>, error: Option<KeytabError>, ignoreHost: bool, lookup: Named)

  /** The name and realm a server asks tickets for. */
  datatype Acceptor = Acceptor(server: Option<Principal>, realm: Option<string>)

  datatype Answer = Key(key: int) | Refuse(code: int) | Generic | Failed

  predicate ByHost(p: Principal) {
    p.nameType == SERVER_BY_HOST && |p.name| == 2
  }

  function RealmOf(a: Acceptor): string {
    if a.realm.Some? then a.realm.value else ""
  }

  /** A server name that leaves nothing open. */
  predicate Explicit(a: Acceptor, ignoreHost: bool) {
    && a.server.Some?
    && !(ByHost(a.server.value) && (RealmOf(a) == "" || a.server.value.name[1] == "" || ignoreHost))
  }

  /** A name the acceptor answers to. */
  predicate NameMatches(a: Acceptor, name: seq<string>, realm: string, ignoreHost: bool) {
    if a.server.None? then true
    else
      var p := a.server.value;
      var realmOk := RealmOf(a) == "" || RealmOf(a) == realm;
      if !ByHost(p) then p.name == name && realmOk
      else |name| == 2 && realmOk && p.name[0] == name[0] && (p.name[1] == "" || ignoreHost || p.name[1] == name[1])
  }

  predicate Wanted(e: Entry, a: Acceptor, ignoreHost: bool) {
    NameMatches(a, e.name, e.realm, ignoreHost)
  }

  /** The entry is for the server the ticket names. */
  predicate OfTicket(e: Entry, t: Ticket) {
    e.name == t.sname && e.realm == t.realm
  }

  function Open(key: int, t: Ticket, permitted: set<int>, opens: int -> Opening): Opening {
    if t.etype in permitted then opens(key) else Other
  }

  /** The entry's key opens the ticket, under the ticket's own encryption type. */
  predicate OpensTicket(e: Entry, t: Ticket, permitted: set<int>, opens: int -> Opening) {
    e.etype == t.etype && Open(e.key, t, permitted, opens) == Opened
  }

  // ---------------------------------------------------------------- trying every entry

  predicate SomeWanted(es: seq<Entry>, a: Acceptor, ignoreHost: bool) {
    exists j :: 0 <= j < |es| && Wanted(es[j], a, ignoreHost)
  }

  predicate SomeOther(es: seq<Entry>, a: Acceptor, ignoreHost: bool, t: Ticket) {
    exists j :: 0 <= j < |es| && !Wanted(es[j], a, ignoreHost) && OfTicket(es[j], t)
  }

  predicate SomeNamed(es: seq<Entry>, a: Acceptor, ignoreHost: bool, t: Ticket) {
    exists j :: 0 <= j < |es| && Wanted(es[j], a, ignoreHost) && OfTicket(es[j], t)
  }

  predicate SomeVersion(es: seq<Entry>, a: Acceptor, ignoreHost: bool, t: Ticket) {
    exists j :: 0 <= j < |es| && Wanted(es[j], a, ignoreHost) && OfTicket(es[j], t) && es[j].kvno == t.kvno
  }

  predicate SomeVersionAndType(es: seq<Entry>, a: Acceptor, ignoreHost: bool, t: Ticket) {
    exists j :: 0 <= j < |es| && Wanted(es[j], a, ignoreHost) && OfTicket(es[j], t) && es[j].kvno == t.kvno
                && es[j].etype == t.etype
  }

  /** The error for entries none of which opens the ticket. */
  function ScanError(es: seq<Entry>, a: Acceptor, ignoreHost: bool, t: Ticket): int {
    if !SomeWanted(es, a, ignoreHost) then NOKEY
    else if SomeOther(es, a, ignoreHost, t) || !SomeNamed(es, a, ignoreHost, t) then NOT_US
    else if !SomeVersionAndType(es, a, ignoreHost, t) then BADKEYVER
    else BAD_INTEGRITY
  }

  predicate Answers(e: Entry, a: Acceptor, ignoreHost: bool, t: Ticket, permitted: set<int>, opens: int -> Opening) {
    Wanted(e, a, ignoreHost) && OpensTicket(e, t, permitted, opens)
  }

  predicate FirstAnswer(es: seq<Entry>, j: int, a: Acceptor, ignoreHost: bool, t: Ticket, permitted: set<int>,
                        opens: int -> Opening)
  {
    && 0 <= j < |es| && Answers(es[j], a, ignoreHost, t, permitted, opens)
    && forall k :: 0 <= k < j ==> !Answers(es[k], a, ignoreHost, t, permitted, opens)
  }

  /** A key is found exactly when a wanted entry's opens the ticket; the first such entry's is. */
  method TryEvery(es: seq<Entry>, a: Acceptor, ignoreHost: bool, t: Ticket, permitted: set<int>, opens: int -> Opening)
    returns (r: Answer)
    ensures r.Key? <==> exists j :: 0 <= j < |es| && Answers(es[j], a, ignoreHost, t, permitted, opens)
    ensures r.Key? ==> exists j :: FirstAnswer(es, j, a, ignoreHost, t, permitted, opens) && es[j].key == r.key
    ensures !r.Key? ==> r == Refuse(ScanError(es, a, ignoreHost, t))
  {
    var mismatch, matched, ticketServer, kvno, enctype := false, false, false, false, false;
    var i := 0;
    while i < |es|
      invariant 0 <= i <= |es|
      invariant forall k :: 0 <= k < i ==> !Answers(es[k], a, ignoreHost, t, permitted, opens)
      invariant matched <==> SomeWanted(es[..i], a, ignoreHost)
      invariant mismatch <==> SomeOther(es[..i], a, ignoreHost, t)
      invariant ticketServer <==> SomeNamed(es[..i], a, ignoreHost, t)
      invariant kvno <==> SomeVersion(es[..i], a, ignoreHost, t)
      invariant enctype <==> SomeVersionAndType(es[..i], a, ignoreHost, t)
    {
      var e := es[i];
      OneMore(es, i, a, ignoreHost, t);
      i := i + 1;
      if !Wanted(e, a, ignoreHost) {
        mismatch := mismatch || OfTicket(e, t);
        continue;
      }
      matched := true;
      var similar := e.etype == t.etype;
      if OfTicket(e, t) {
        ticketServer := true;
        kvno := kvno || e.kvno == t.kvno;
        enctype := enctype || (e.kvno == t.kvno && similar);
      }
      if similar && Open(e.key, t, permitted, opens) == Opened {
        assert FirstAnswer(es, i - 1, a, ignoreHost, t, permitted, opens);
        return Key(e.key);
      }
    }
    assert es[..i] == es;
    TypeHasVersion(es, a, ignoreHost, t);
    r := Refuse(if !matched then NOKEY
                else if mismatch || !ticketServer then NOT_US
                else if !kvno || !enctype then BADKEYVER
                else BAD_INTEGRITY);
  }

  lemma TypeHasVersion(es: seq<Entry>, a: Acceptor, ignoreHost: bool, t: Ticket)
    ensures SomeVersionAndType(es, a, ignoreHost, t) ==> SomeVersion(es, a, ignoreHost, t)
  {
    hide Wanted, OfTicket;
  }

  /** What one more entry adds to each condition. */
  lemma OneMore(es: seq<Entry>, i: nat, a: Acceptor, ignoreHost: bool, t: Ticket)
    requires i < |es|
    ensures var e, w, n := es[i], Wanted(es[i], a, ignoreHost), OfTicket(es[i], t);
      && (SomeWanted(es[..i + 1], a, ignoreHost) <==> SomeWanted(es[..i], a, ignoreHost) || w)
      && (SomeOther(es[..i + 1], a, ignoreHost, t) <==> SomeOther(es[..i], a, ignoreHost, t) || (!w && n))
      && (SomeNamed(es[..i + 1], a, ignoreHost, t) <==> SomeNamed(es[..i], a, ignoreHost, t) || (w && n))
      && (SomeVersion(es[..i + 1], a, ignoreHost, t) <==>
            SomeVersion(es[..i], a, ignoreHost, t) || (w && n && e.kvno == t.kvno))
      && (SomeVersionAndType(es[..i + 1], a, ignoreHost, t) <==>
            SomeVersionAndType(es[..i], a, ignoreHost, t) || (w && n && e.kvno == t.kvno && e.etype == t.etype))
  {
    hide Wanted, OfTicket;
    var before, after := es[..i], es[..i + 1];
    assert after == before + [es[i]];
    assert after[i] == es[i] && forall j :: 0 <= j < i ==> before[j] == after[j];
  }

  // ---------------------------------------------------------------- one server name

  /** The name looked up for an explicit server. */
  function LookupName(kt: Keys, a: Acceptor): Option<seq<string>>
    requires a.server.Some?
  {
    match kt.lookup
    case Server => Some(a.server.value.name)
    case Name(canonical) => Some(canonical.name)
    case Unnamed => None
  }

  /** The lookup is for the server the ticket names. */
  predicate Own(name: seq<string>, a: Acceptor, t: Ticket) {
    name == t.sname && RealmOf(a) == t.realm
  }

  /** What the key found makes of the ticket. */
  function Outcome(key: int, own: bool, t: Ticket, permitted: set<int>, opens: int -> Opening): Answer {
    match Open(key, t, permitted, opens)
    case Opened => Key(key)
    case Integrity => Refuse(if own then BAD_INTEGRITY else NOT_US)
    case Size => Generic
    case Other => Failed
  }

  /** What the ticket's version and type, looked up under one name, make of it. */
  ghost predicate OneNameAnswer(es: seq<Entry>, name: seq<string>, a: Acceptor, t: Ticket, permitted: set<int>,
                                opens: int -> Opening, r: Answer)
  {
    var q := Query(name, RealmOf(a), t.kvno, t.etype);
    && (r == Refuse(NOKEY) <==> forall j :: 0 <= j < |es| ==> !Matches(es[j], q))
    && (r == Refuse(BADKEYVER) <==> NoVersion(es, q) && Own(name, a, t))
    && (NoVersion(es, q) && !Own(name, a, t) ==> r == Refuse(NOT_US))
    && (forall at: nat :: IsFound(es, q, at) ==> r == Outcome(es[at].key, Own(name, a, t), t, permitted, opens))
    && (r.Key? ==> exists at: nat :: at < |es| && Matches(es[at], q) && OpensTicket(es[at], t, permitted, opens)
                                     && es[at].key == r.key)
  }

  /** Looks the ticket's version and type up under one name. */
  method TryOne(es: seq<Entry>, name: seq<string>, a: Acceptor, t: Ticket, permitted: set<int>, opens: int -> Opening)
    returns (r: Answer)
    requires 0 !in permitted
    ensures OneNameAnswer(es, name, a, t, permitted, opens, r)
  {
    var own := Own(name, a, t);
    var found := GetEntry(es, Query(name, RealmOf(a), t.kvno, t.etype));
    match found {
      case NotFound =>
        return Refuse(NOKEY);
      case KvnoNotFound =>
        return Refuse(if own then BADKEYVER else NOT_US);
      case Found(at) =>
        FoundIsUnique(es, Query(name, RealmOf(a), t.kvno, t.etype), at);
        return Outcome(es[at].key, own, t, permitted, opens);
    }
  }

  lemma FoundIsUnique(es: seq<Entry>, q: Query, at: nat)
    requires IsFound(es, q, at)
    ensures forall other: nat :: IsFound(es, q, other) ==> other == at
    ensures !NoVersion(es, q)
  {
    hide Matches, MoreRecent;
  }

  /** An entry the acceptor may take a key from. */
  predicate Accepted(e: Entry, kt: Keys, a: Acceptor) {
    if Explicit(a, kt.ignoreHost) then LookupName(kt, a) == Some(e.name) && e.realm == RealmOf(a)
    else Wanted(e, a, kt.ignoreHost)
  }

  /**
   * A chosen key is always an accepted entry's, and opens the ticket under a permitted type; where
   * no one name is looked up, it is found exactly when there is such an entry.
   */
  method ChooseKey(kt: Keys, a: Acceptor, t: Ticket, permitted: set<int>, opens: int -> Opening) returns (r: Answer)
    requires 0 !in permitted
    ensures r.Key? ==> t.etype in permitted && exists j ::
      0 <= j < |kt.entries| && Accepted(kt.entries[j], kt, a)
      && OpensTicket(kt.entries[j], t, permitted, opens) && kt.entries[j].key == r.key
    ensures kt.error.None? && !Explicit(a, kt.ignoreHost) ==>
      (r.Key? <==> exists j :: 0 <= j < |kt.entries| && Answers(kt.entries[j], a, kt.ignoreHost, t, permitted, opens))
    ensures kt.error.None? && !Explicit(a, kt.ignoreHost) && !r.Key? ==>
      r == Refuse(ScanError(kt.entries, a, kt.ignoreHost, t))
    ensures kt.error.None? && Explicit(a, kt.ignoreHost) ==>
      if kt.lookup.Unnamed? then r == Refuse(NOKEY)
      else OneNameAnswer(kt.entries, LookupName(kt, a).value, a, t, permitted, opens, r)
    ensures kt.error == Some(Resolve) ==> r == Generic
    ensures kt.error == Some(Read) ==> r == if Explicit(a, kt.ignoreHost) then Generic else Refuse(NOKEY)
  {
    hide IsFound, NoVersion, ScanError, Outcome, Wanted;
    if kt.error == Some(Resolve) {
      return Generic;
    }
    var explicit := Explicit(a, kt.ignoreHost);
    if kt.error == Some(Read) {
      return if explicit then Generic else Refuse(NOKEY);
    }
    if explicit {
      var name := LookupName(kt, a);
      if name.None? {
        return Refuse(NOKEY);
      }
      r := TryOne(kt.entries, name.value, a, t, permitted, opens);
    } else {
      r := TryEvery(kt.entries, a, kt.ignoreHost, t, permitted, opens);
    }
  }

  // ---------------------------------------------------------------- names and codes, spelt out

  /** A service on a host, of name type 3: the host may be left open, and so may the realm. */
  lemma HostNameMeans(service: string, host: string, realm: string, name: seq<string>, r: string, ignoreHost: bool)
    ensures NameMatches(Acceptor(Some(Principal(3, [service, host])), Some(realm)), name, r, ignoreHost) <==>
      && |name| == 2 && name[0] == service && (name[1] == host || host == "" || ignoreHost)
      && (r == realm || realm == "")
    ensures Explicit(Acceptor(Some(Principal(3, [service, host])), Some(realm)), ignoreHost) <==>
      realm != "" && host != "" && !ignoreHost
  {
  }

  /** Any other name is taken whole, and always explicit; without one every name is. */
  lemma OtherNameMeans(p: Principal, realm: string, name: seq<string>, r: string, ignoreHost: bool)
    requires p.nameType != 3 || |p.name| != 2
    ensures NameMatches(Acceptor(Some(p), Some(realm)), name, r, ignoreHost) <==>
      name == p.name && (r == realm || realm == "")
    ensures Explicit(Acceptor(Some(p), Some(realm)), ignoreHost)
    ensures NameMatches(Acceptor(None, Some(realm)), name, r, ignoreHost)
    ensures !Explicit(Acceptor(None, Some(realm)), ignoreHost)
  {
  }

  /** A realm not given is like an empty one. */
  lemma NoRealmMeans(server: Option<Principal>, name: seq<string>, r: string, ignoreHost: bool)
    ensures NameMatches(Acceptor(server, None), name, r, ignoreHost)
         == NameMatches(Acceptor(server, Some("")), name, r, ignoreHost)
    ensures Explicit(Acceptor(server, None), ignoreHost) == Explicit(Acceptor(server, Some("")), ignoreHost)
  {
  }

  /** A key opens the ticket only if its type is the ticket's and is permitted. */
  lemma OpensMeans(e: Entry, t: Ticket, permitted: set<int>, opens: int -> Opening)
    ensures OpensTicket(e, t, permitted, opens) <==>
      e.etype == t.etype && t.etype in permitted && opens(e.key) == Opened
  {
  }

  /** The entry's name and realm are those the ticket gives for its server. */
  predicate SameServer(e: Entry, t: Ticket) {
    e.name == t.sname && e.realm == t.realm
  }

  /**
   * The error codes of section 7.5.9 of RFC 4120: 45 for no wanted entry, 35 for entries of another
   * server or none of the ticket's, 44 for none of its version and type, 31 where such a key failed.
   */
  lemma ScanErrorMeans(es: seq<Entry>, a: Acceptor, ignoreHost: bool, t: Ticket)
    ensures ScanError(es, a, ignoreHost, t) == 45 <==> forall j :: 0 <= j < |es| ==> !Wanted(es[j], a, ignoreHost)
    ensures ScanError(es, a, ignoreHost, t) == 31 <==>
      && (exists j :: 0 <= j < |es| && Wanted(es[j], a, ignoreHost) && SameServer(es[j], t)
                      && es[j].kvno == t.kvno && es[j].etype == t.etype)
      && (forall j :: 0 <= j < |es| && SameServer(es[j], t) ==> Wanted(es[j], a, ignoreHost))
    ensures ScanError(es, a, ignoreHost, t) == 44 <==>
      && (exists j :: 0 <= j < |es| && Wanted(es[j], a, ignoreHost) && SameServer(es[j], t))
      && (forall j :: 0 <= j < |es| && SameServer(es[j], t) ==>
            Wanted(es[j], a, ignoreHost) && !(es[j].kvno == t.kvno && es[j].etype == t.etype))
    ensures ScanError(es, a, ignoreHost, t) in {31, 35, 44, 45}
  {
    hide Wanted;
    forall j | 0 <= j < |es|
      ensures OfTicket(es[j], t) <==> SameServer(es[j], t)
    {
    }
    hide OfTicket, SameServer;
  }

  /** Under one name: the key, 31 or 35 where it fails, by whether the name is the ticket's own. */
  lemma OutcomeMeans(key: int, name: seq<string>, a: Acceptor, t: Ticket, permitted: set<int>, opens: int -> Opening)
    ensures var r := Outcome(key, Own(name, a, t), t, permitted, opens);
      && (r == Key(key) <==> t.etype in permitted && opens(key) == Opened)
      && (t.etype !in permitted ==> r == Failed)
      && (t.etype in permitted && opens(key) == Integrity ==>
            r == Refuse(if name == t.sname && (a.realm == Some(t.realm) || (a.realm.None? && t.realm == ""))
                        then 31 else 35))
      && (t.etype in permitted && opens(key) == Size ==> r == Generic)
  {
  }

  /** Where one name is looked up, an entry is accepted for that name and the acceptor's realm only. */
  lemma AcceptedMeans(e: Entry, entries: seq<Entry>, p: Principal, realm: string, canonical: Principal)
    requires p.nameType != 3 || |p.name| != 2
    ensures Accepted(e, Keys(entries, None, false, Server), Acceptor(Some(p), Some(realm))) <==>
      e.name == p.name && e.realm == realm
    ensures Accepted(e, Keys(entries, None, false, Name(canonical)), Acceptor(Some(p), Some(realm))) <==>
      e.name == canonical.name && e.realm == realm
    ensures !Accepted(e, Keys(entries, None, false, Unnamed), Acceptor(Some(p), Some(realm)))
  {
  }
}
