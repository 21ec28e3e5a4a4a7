/**
 * A credential cache: looking a credential up by request and rank of encryption type, and asking
 * the KDC only for what the cache does not hold.
 *
 * What the KDC answers, what it makes of the host name and whether a store works are parameters.
 */
module CredCache {
  import opened Options

  datatype Princ = Princ(realm: string, name: seq<string>)

  datatype Cred = Cred(client: Princ, server: Princ, etype: int, endtime: nat, isSkey: bool, second: seq<int>,
                       authdata: seq<int>, config: bool, removed: bool)

  datatype Request = Request(client: Option<Princ>, server: Princ, etype: Option<int>, second: Option<seq<int>>,
                             now: nat)

  datatype Miss = NotFound | NotKtype | EtypeNosupp
  datatype Lookup = Hit(at: nat) | Missed(miss: Miss)

  predicate Matches(c: Cred, r: Request) {
    && !c.config && !c.removed
    && (r.client.Some? ==> r.client.value == c.client) && r.server == c.server
    && c.isSkey == r.second.Some? && r.now <= c.endtime && c.authdata == []
    && (r.second.Some? ==> r.second.value == c.second)
    && (r.etype.Some? ==> r.etype.value == c.etype)
  }

  /** The place of an encryption type in the list, the most wanted first. */
  function Rank(etype: int, ktypes: seq<int>): (r: Option<nat>)
    ensures r.Some? <==> etype in ktypes
    ensures r.Some? ==> r.value < |ktypes| && ktypes[r.value] == etype && etype !in ktypes[..r.value]
  {
    if ktypes == [] then None
    else if ktypes[0] == etype then Some(0)
    else
      match Rank(etype, ktypes[1..])
      case None => None
      case Some(r) =>
        assert ktypes[..r + 1] == [ktypes[0]] + ktypes[1..][..r];
        Some(r + 1)
  }

  /** A match whose type is listed. */
  predicate Listed(c: Cred, r: Request, ktypes: seq<int>) {
    Matches(c, r) && c.etype in ktypes
  }

  /** The first of the best-ranked matches. */
  predicate BestAt(creds: seq<Cred>, r: Request, ktypes: seq<int>, at: nat) {
    && at < |creds| && Listed(creds[at], r, ktypes)
    && (forall j :: 0 <= j < |creds| && Listed(creds[j], r, ktypes) ==>
          Rank(creds[at].etype, ktypes).value <= Rank(creds[j].etype, ktypes).value)
    && (forall j :: 0 <= j < at && Listed(creds[j], r, ktypes) ==>
          Rank(creds[at].etype, ktypes).value < Rank(creds[j].etype, ktypes).value)
  }

  predicate NoneListed(creds: seq<Cred>, r: Request, ktypes: seq<int>) {
    forall j :: 0 <= j < |creds| ==> !Listed(creds[j], r, ktypes)
  }

  predicate NoneMatch(creds: seq<Cred>, r: Request) {
    forall j :: 0 <= j < |creds| ==> !Matches(creds[j], r)
  }

  /** The earliest match of the best rank; otherwise whether there was a match at all. */
  method Ranked(creds: seq<Cred>, r: Request, ktypes: seq<int>) returns (found: Lookup)
    ensures found.Hit? ==> BestAt(creds, r, ktypes, found.at)
    ensures found.Hit? <==> !NoneListed(creds, r, ktypes)
    ensures found == Missed(NotFound) <==> NoneMatch(creds, r)
    ensures found.Missed? ==> found.miss == if NoneMatch(creds, r) then NotFound else NotKtype
  {
    hide Matches;
    var best: Option<(nat, nat)>, miss := None, NotFound;
    for i := 0 to |creds|
      invariant best.Some? ==>
        best.value.1 < i && BestAt(creds[..i], r, ktypes, best.value.1)
        && Rank(creds[best.value.1].etype, ktypes) == Some(best.value.0)
      invariant best.None? ==> NoneListed(creds[..i], r, ktypes)
      invariant miss == NotFound || miss == NotKtype
      invariant best.None? ==> (miss == NotFound <==> NoneMatch(creds[..i], r))
    {
      assert creds[..i + 1] == creds[..i] + [creds[i]];
      var c := creds[i];
      if Matches(c, r) {
        match Rank(c.etype, ktypes) {
          case Some(rank) =>
            if best.None? || rank < best.value.0 {
              best := Some((rank, i));
            }
          case None =>
            miss := NotKtype;
        }
      }
    }
    assert creds[..|creds|] == creds;
    found := if best.Some? then Hit(best.value.1) else Missed(miss);
  }

  // ---------------------------------------------------------------- asking

  datatype Ask = Ask(me: Princ, server: Princ, etype: Option<int>, second: Option<seq<int>>, cachedOnly: bool,
                     noStore: bool)

  /** The KDC's answer for one form of the server's name. */
  datatype Reply = Got(cred: Cred) | UnknownServer | Refused

  /** A form of the server's name: not to be had, or asked for, storing what the way there brings. */
  datatype Candidate = BadName | Named(reply: Reply, onTheWay: seq<Cred>)

  datatype Failure = CacheMiss(miss: Miss) | NoName | NoServer | KdcError
  datatype Outcome = Ok(cred: Cred) | Failed(failure: Failure)

  function RequestFor(ask: Ask, now: nat): Request {
    Request(Some(ask.me), ask.server, ask.etype, ask.second, now)
  }

  /** A server without a realm is looked for again in the client's. */
  function Referred(ask: Ask, now: nat): Request {
    RequestFor(ask, now).(server := Princ(ask.me.realm, ask.server.name))
  }

  /** The cache alone answers. */
  predicate Answered(creds: seq<Cred>, ask: Ask, ktypes: Option<seq<int>>, now: nat) {
    && ktypes.Some? && (ask.etype.Some? ==> ask.etype.value in ktypes.value)
    && (|| !NoneListed(creds, RequestFor(ask, now), ktypes.value)
        || (&& NoneMatch(creds, RequestFor(ask, now)) && ask.server.realm == ""
            && !NoneListed(creds, Referred(ask, now), ktypes.value)))
  }

  /** Why the cache does not answer. */
  function MissOf(creds: seq<Cred>, ask: Ask, ktypes: Option<seq<int>>, now: nat): Miss {
    if ktypes.None? then EtypeNosupp
    else if ask.etype.Some? && ask.etype.value !in ktypes.value then NotKtype
    else if !NoneMatch(creds, RequestFor(ask, now)) then NotKtype
    else if ask.server.realm == "" && !NoneMatch(creds, Referred(ask, now)) then NotKtype
    else NotFound
  }

  /** The credential as it is kept: for the client and server asked about. */
  function Kept(cred: Cred, ask: Ask): Cred {
    cred.(client := ask.me, server := ask.server, isSkey := ask.second.Some?,
          second := if ask.second.Some? then ask.second.value else cred.second)
  }

  /** Asking for one name after another while the server is unknown: what comes of it, and how many were asked. */
  function Walk(candidates: seq<Candidate>, i: nat, ask: Ask): (Outcome, nat)
    requires i <= |candidates|
    decreases |candidates| - i
  {
    if i == |candidates| then (Failed(NoServer), i)
    else
      match candidates[i]
      case BadName => (Failed(NoName), i)
      case Named(Got(cred), _) => (Ok(Kept(cred, ask)), i + 1)
      case Named(Refused, _) => (Failed(KdcError), i + 1)
      case Named(UnknownServer, _) => Walk(candidates, i + 1, ask)
  }

  /** What asking for the first names stores on the way. */
  function OnTheWay(candidates: seq<Candidate>, n: nat): seq<Cred>
    requires n <= |candidates|
  {
    if n == 0 then []
    else
      OnTheWay(candidates, n - 1) + (if candidates[n - 1].Named? then candidates[n - 1].onTheWay else [])
  }

  // ---------------------------------------------------------------- what answers, field by field

  /** A credential of the client's for that server: ordinary, not ended, and of the kind and type asked for. */
  predicate Suits(c: Cred, ask: Ask, server: Princ, now: nat) {
    && c.client.realm == ask.me.realm && c.client.name == ask.me.name
    && c.server.realm == server.realm && c.server.name == server.name
    && now <= c.endtime && !c.config && !c.removed && |c.authdata| == 0
    && (c.isSkey <==> ask.second.Some?) && (ask.second.None? || c.second == ask.second.value)
    && (ask.etype.None? || c.etype == ask.etype.value)
  }

  /** The server's name in the client's realm. */
  function InOwnRealm(ask: Ask): Princ {
    Princ(ask.me.realm, ask.server.name)
  }

  predicate SomeSuits(creds: seq<Cred>, ask: Ask, server: Princ, now: nat) {
    exists j :: 0 <= j < |creds| && Suits(creds[j], ask, server, now)
  }

  predicate SomeListed(creds: seq<Cred>, ask: Ask, server: Princ, ktypes: seq<int>, now: nat) {
    exists j :: 0 <= j < |creds| && Suits(creds[j], ask, server, now) && creds[j].etype in ktypes
  }

  lemma MatchMeans(c: Cred, ask: Ask, now: nat)
    ensures Matches(c, RequestFor(ask, now)) <==> Suits(c, ask, ask.server, now)
    ensures Matches(c, Referred(ask, now)) <==> Suits(c, ask, InOwnRealm(ask), now)
  {
  }

  lemma NoneMeans(creds: seq<Cred>, ask: Ask, ktypes: seq<int>, now: nat)
    ensures NoneMatch(creds, RequestFor(ask, now)) <==> !SomeSuits(creds, ask, ask.server, now)
    ensures NoneMatch(creds, Referred(ask, now)) <==> !SomeSuits(creds, ask, InOwnRealm(ask), now)
    ensures NoneListed(creds, RequestFor(ask, now), ktypes) <==> !SomeListed(creds, ask, ask.server, ktypes, now)
    ensures NoneListed(creds, Referred(ask, now), ktypes) <==> !SomeListed(creds, ask, InOwnRealm(ask), ktypes, now)
  {
    forall j | 0 <= j < |creds|
      ensures Matches(creds[j], RequestFor(ask, now)) <==> Suits(creds[j], ask, ask.server, now)
      ensures Matches(creds[j], Referred(ask, now)) <==> Suits(creds[j], ask, InOwnRealm(ask), now)
    {
      MatchMeans(creds[j], ask, now);
    }
    hide Matches, Suits, RequestFor, Referred, InOwnRealm;
  }

  /**
   * The cache answers exactly when it holds a suitable credential of a listed type: for the server, or,
   * where none of any type is and the server has no realm, for the server in the client's.
   */
  lemma AnsweredMeans(creds: seq<Cred>, ask: Ask, ktypes: seq<int>, now: nat)
    ensures Answered(creds, ask, Some(ktypes), now) <==>
      && (ask.etype.Some? ==> ask.etype.value in ktypes)
      && (|| SomeListed(creds, ask, ask.server, ktypes, now)
          || (&& ask.server.realm == "" && !SomeSuits(creds, ask, ask.server, now)
              && SomeListed(creds, ask, InOwnRealm(ask), ktypes, now)))
    ensures MissOf(creds, ask, Some(ktypes), now)
         == if ask.etype.Some? && ask.etype.value !in ktypes then NotKtype
            else if SomeSuits(creds, ask, ask.server, now) then NotKtype
            else if ask.server.realm == "" && SomeSuits(creds, ask, InOwnRealm(ask), now) then NotKtype
            else NotFound
  {
    hide NoneMatch, NoneListed, SomeSuits, SomeListed, RequestFor, Referred, InOwnRealm;
    NoneMeans(creds, ask, ktypes, now);
  }

  /** Suitable, of a listed type, and of those the earliest of the type listed first. */
  predicate BestFor(creds: seq<Cred>, ask: Ask, server: Princ, ktypes: seq<int>, now: nat, at: nat) {
    && at < |creds| && Suits(creds[at], ask, server, now) && creds[at].etype in ktypes
    && forall j :: 0 <= j < |creds| && Suits(creds[j], ask, server, now) && creds[j].etype in ktypes ==>
         var mine, other := Rank(creds[at].etype, ktypes).value, Rank(creds[j].etype, ktypes).value;
         mine < other || (mine == other && at <= j)
  }

  lemma BestMeans(creds: seq<Cred>, ask: Ask, ktypes: seq<int>, now: nat, at: nat)
    ensures BestAt(creds, RequestFor(ask, now), ktypes, at) ==> BestFor(creds, ask, ask.server, ktypes, now, at)
    ensures BestAt(creds, Referred(ask, now), ktypes, at) ==> BestFor(creds, ask, InOwnRealm(ask), ktypes, now, at)
  {
    hide Suits, Matches, Rank, RequestFor, Referred, InOwnRealm;
    forall j | 0 <= j < |creds|
      ensures Matches(creds[j], RequestFor(ask, now)) <==> Suits(creds[j], ask, ask.server, now)
      ensures Matches(creds[j], Referred(ask, now)) <==> Suits(creds[j], ask, InOwnRealm(ask), now)
    {
      MatchMeans(creds[j], ask, now);
    }
  }

  // ---------------------------------------------------------------- the cache

  class Cache {
    var creds: seq<Cred>

    method Find(ask: Ask, ktypes: Option<seq<int>>, now: nat) returns (found: Lookup)
      ensures found.Hit? <==> Answered(creds, ask, ktypes, now)
      ensures found.Hit? ==>
        && found.at < |creds|
        && (|| BestAt(creds, RequestFor(ask, now), ktypes.value, found.at)
            || BestAt(creds, Referred(ask, now), ktypes.value, found.at))
      ensures found.Hit? ==>
        || BestFor(creds, ask, ask.server, ktypes.value, now, found.at)
        || (ask.server.realm == "" && BestFor(creds, ask, InOwnRealm(ask), ktypes.value, now, found.at))
      ensures found.Missed? ==> found.miss == MissOf(creds, ask, ktypes, now)
    {
      hide BestFor, InOwnRealm, Suits;
      hide Matches, BestAt, NoneListed, NoneMatch;
      if ktypes.None? {
        return Missed(EtypeNosupp);
      }
      if ask.etype.Some? && ask.etype.value !in ktypes.value {
        return Missed(NotKtype);
      }
      found := Ranked(creds, RequestFor(ask, now), ktypes.value);
      MatchIsNeeded(creds, RequestFor(ask, now), ktypes.value);
      HitInside(creds, RequestFor(ask, now), ktypes.value);
      if found == Missed(NotFound) && ask.server.realm == "" {
        found := Ranked(creds, Referred(ask, now), ktypes.value);
        HitInside(creds, Referred(ask, now), ktypes.value);
      }
      if found.Hit? {
        BestMeans(creds, ask, ktypes.value, now, found.at);
      }
    }

    /** Answers from the cache where it can, and asks the KDC otherwise; counts the requests made. */
    method GetCredentials(ask: Ask, ktypes: Option<seq<int>>, now: nat, candidates: seq<Candidate>, storeWorks: bool)
      returns (r: Outcome, asked: nat)
      modifies this
      ensures candidates == [] || candidates[0].BadName? ==> (r, asked) == Walk(candidates, 0, ask)
      ensures candidates != [] && candidates[0].Named? ==>
        if Answered(old(creds), ask, ktypes, now) then
          && r.Ok? && asked == 0 && r.cred in old(creds)
          && (Suits(r.cred, ask, ask.server, now) || Suits(r.cred, ask, InOwnRealm(ask), now))
          && r.cred.etype in ktypes.value
        else if ask.cachedOnly || ktypes.None? then
          r == Failed(CacheMiss(MissOf(old(creds), ask, ktypes, now))) && asked == 0
        else (r, asked) == Walk(candidates, 0, ask)
      ensures asked <= |candidates|
      ensures creds == old(creds) + OnTheWay(candidates, asked)
                       + (if r.Ok? && asked > 0 && !ask.noStore && storeWorks then [r.cred] else [])
    {
      hide Answered, BestAt, MissOf, Kept, Suits, InOwnRealm;
      asked := 0;
      assert creds + [] + [] == creds;
      if candidates == [] {
        return Failed(NoServer), 0;
      }
      if candidates[0].BadName? {
        return Failed(NoName), 0;
      }
      var found := Find(ask, ktypes, now);
      if found.Hit? {
        return Ok(creds[found.at]), 0;
      }
      MissReason(creds, ask, ktypes, now);
      if ask.cachedOnly || found.miss == EtypeNosupp {
        return Failed(CacheMiss(found.miss)), 0;
      }
      while asked < |candidates|
        invariant asked <= |candidates|
        invariant creds == old(creds) + OnTheWay(candidates, asked)
        invariant asked < |candidates| ==> candidates[asked].Named?
        invariant Walk(candidates, 0, ask) == Walk(candidates, asked, ask)
      {
        var c := candidates[asked];
        asked := asked + 1;
        creds := creds + c.onTheWay;
        assert creds == old(creds) + OnTheWay(candidates, asked);
        match c.reply {
          case Refused =>
            return Failed(KdcError), asked;
          case Got(cred) =>
            var kept := Kept(cred, ask);
            if !ask.noStore && storeWorks {
              creds := creds + [kept];
            }
            return Ok(kept), asked;
          case UnknownServer =>
            if asked < |candidates| && candidates[asked].BadName? {
              return Failed(NoName), asked;
            }
        }
      }
      r := Failed(NoServer);
    }
  }

  lemma MissReason(creds: seq<Cred>, ask: Ask, ktypes: Option<seq<int>>, now: nat)
    ensures MissOf(creds, ask, ktypes, now) == EtypeNosupp <==> ktypes.None?
  {
  }

  lemma MatchIsNeeded(creds: seq<Cred>, r: Request, ktypes: seq<int>)
    ensures NoneMatch(creds, r) ==> NoneListed(creds, r, ktypes)
  {
  }

  lemma HitInside(creds: seq<Cred>, r: Request, ktypes: seq<int>)
    ensures forall at: nat :: BestAt(creds, r, ktypes, at) ==> at < |creds|
  {
  }

  // ---------------------------------------------------------------- asking again

  /** A credential from the KDC that lookups can find again: ordinary, of a listed type, the one asked for. */
  predicate Findable(cred: Cred, ask: Ask, ktypes: seq<int>) {
    && !cred.config && !cred.removed && cred.authdata == [] && cred.etype in ktypes
    && (ask.etype.Some? ==> ask.etype.value == cred.etype)
  }

  lemma {:induction false} WalkBringsKept(candidates: seq<Candidate>, i: nat, ask: Ask)
    requires i <= |candidates| && Walk(candidates, i, ask).0.Ok?
    ensures var k := Walk(candidates, i, ask).0.cred;
      k.client == ask.me && k.server == ask.server && k.isSkey == ask.second.Some?
      && (ask.second.Some? ==> k.second == ask.second.value)
    decreases |candidates| - i
  {
    if candidates[i].reply.UnknownServer? {
      WalkBringsKept(candidates, i + 1, ask);
    }
  }

  /**
   * What the KDC gave and the cache stored answers the same request until it ends, whatever else is
   * stored before or after: the second time no request is made.
   */
  lemma SecondAskIsFree(before: seq<Cred>, after: seq<Cred>, candidates: seq<Candidate>, ask: Ask, ktypes: seq<int>,
                        later: nat)
    requires Walk(candidates, 0, ask).0.Ok?
    requires var cred := Walk(candidates, 0, ask).0.cred; Findable(cred, ask, ktypes) && later <= cred.endtime
    ensures var cred := Walk(candidates, 0, ask).0.cred;
      Answered(before + [cred] + after, ask, Some(ktypes), later)
  {
    WalkBringsKept(candidates, 0, ask);
    hide Walk;
    var cred := Walk(candidates, 0, ask).0.cred;
    var creds := before + [cred] + after;
    assert creds[|before|] == cred && Listed(cred, RequestFor(ask, later), ktypes);
  }

  /** Nothing held answers the request but what may be added. */
  predicate NothingElse(creds: seq<Cred>, ask: Ask, now: nat) {
    NoneMatch(creds, RequestFor(ask, now)) && NoneMatch(creds, Referred(ask, now))
  }

  /** Among credentials that do not match, the one stored answers exactly while it is findable and has not ended. */
  lemma StoredAnswersExactly(before: seq<Cred>, after: seq<Cred>, cred: Cred, ask: Ask, ktypes: seq<int>, later: nat)
    requires NothingElse(before, ask, later) && NothingElse(after, ask, later)
    ensures var kept := Kept(cred, ask);
      Answered(before + [kept] + after, ask, Some(ktypes), later)
      <==> Findable(kept, ask, ktypes) && later <= kept.endtime
  {
    var kept := Kept(cred, ask);
    var creds := before + [kept] + after;
    assert creds[|before|] == kept;
    forall j | 0 <= j < |creds| && j != |before|
      ensures !Matches(creds[j], RequestFor(ask, later)) && !Matches(creds[j], Referred(ask, later))
    {
      assert creds[j] == if j < |before| then before[j] else after[j - |before| - 1];
    }
  }

  // ---------------------------------------------------------------- the names asked for

  predicate AllUnknown(candidates: seq<Candidate>, n: nat)
    requires n <= |candidates|
  {
    forall j :: 0 <= j < n ==> candidates[j].Named? && candidates[j].reply.UnknownServer?
  }

  /** The first name not unknown decides: a name not to be had ends it unasked, any other is asked for. */
  lemma {:induction false} WalkMeans(candidates: seq<Candidate>, i: nat, n: nat, ask: Ask)
    requires i <= n <= |candidates| && AllUnknown(candidates, n)
    requires n < |candidates| ==> !(candidates[n].Named? && candidates[n].reply.UnknownServer?)
    ensures Walk(candidates, i, ask)
         == if n == |candidates| then (Failed(NoServer), n)
            else if candidates[n].BadName? then (Failed(NoName), n)
            else if candidates[n].reply.Refused? then (Failed(KdcError), n + 1)
            else (Ok(Kept(candidates[n].reply.cred, ask)), n + 1)
    decreases n - i
  {
    if i < n {
      WalkMeans(candidates, i + 1, n, ask);
    }
  }

  /** What is stored on the way is what the names asked for brought, and all of it. */
  lemma {:induction false} OnTheWayMeans(candidates: seq<Candidate>, n: nat, c: Cred)
    requires n <= |candidates|
    ensures c in OnTheWay(candidates, n) <==>
      exists j :: 0 <= j < n && candidates[j].Named? && c in candidates[j].onTheWay
  {
    if n > 0 {
      OnTheWayMeans(candidates, n - 1, c);
    }
  }
}
