/**
 * Whether some string matches two patterns in which `*` stands for any run of characters.
 */
module Globs {
  /** The string matches the pattern. */
  predicate Matches(p: string, s: string)
    decreases |p| + |s|
  {
    if p == [] then s == []
    else if p[0] == '*' then Matches(p[1..], s) || (s != [] && Matches(p, s[1..]))
    else s != [] && s[0] == p[0] && Matches(p[1..], s[1..])
  }

  /** A leading `*` stands for any run. */
  lemma {:induction false} StarIsAnyRun(p: string, s: string)
    ensures Matches("*" + p, s) <==> exists k :: 0 <= k <= |s| && Matches(p, s[k..])
    decreases |s|
  {
    var star := "*" + p;
    assert star[1..] == p && s[0..] == s;
    if s != [] {
      StarIsAnyRun(p, s[1..]);
      if k :| 0 <= k <= |s[1..]| && Matches(p, s[1..][k..]) {
        assert s[1..][k..] == s[k + 1..];
      }
      if k :| 0 < k <= |s| && Matches(p, s[k..]) {
        assert s[1..][k - 1..] == s[k..];
      }
    }
  }

  predicate OnlyStars(p: string) {
    forall i :: 0 <= i < |p| ==> p[i] == '*'
  }

  /** The two patterns meet; every step drops a character of one of them. */
  predicate Meet(a: string, b: string)
    decreases |a| + |b|
  {
    if a == [] || b == [] then OnlyStars(a) && OnlyStars(b)
    else if a[0] == '*' then Meet(a[1..], b) || Meet(a, b[1..])
    else if b[0] == '*' then Meet(a, b[1..]) || Meet(a[1..], b)
    else a[0] == b[0] && Meet(a[1..], b[1..])
  }

  lemma {:induction false} StarsMatchNothing(p: string)
    ensures Matches(p, []) <==> OnlyStars(p)
  {
    if p != [] {
      StarsMatchNothing(p[1..]);
      assert OnlyStars(p) <==> p[0] == '*' && OnlyStars(p[1..]) by {
        assert forall i :: 0 <= i < |p[1..]| ==> p[1..][i] == p[i + 1];
        assert forall i :: 0 < i < |p| ==> p[i] == p[1..][i - 1];
      }
    }
  }

  /** A string that matches both. */
  function Common(a: string, b: string): (s: string)
    requires Meet(a, b)
    ensures Matches(a, s) && Matches(b, s)
    decreases |a| + |b|
  {
    if a == [] || b == [] then
      StarsMatchNothing(a);
      StarsMatchNothing(b);
      []
    else if a[0] == '*' then
      if Meet(a[1..], b) then Common(a[1..], b)
      else
        var s := Common(a, b[1..]);
        if b[0] == '*' then s
        else
          assert ([b[0]] + s)[1..] == s;
          [b[0]] + s
    else if b[0] == '*' then
      if Meet(a, b[1..]) then Common(a, b[1..])
      else
        var s := Common(a[1..], b);
        assert ([a[0]] + s)[1..] == s;
        [a[0]] + s
    else
      var s := Common(a[1..], b[1..]);
      assert ([a[0]] + s)[1..] == s;
      [a[0]] + s
  }

  lemma {:induction false} CommonMeans(a: string, b: string, s: string)
    requires Matches(a, s) && Matches(b, s)
    ensures Meet(a, b)
    decreases |a| + |b| + |s|
  {
    if a == [] || b == [] {
      StarsMatchNothing(a);
      StarsMatchNothing(b);
    } else if a[0] == '*' && Matches(a[1..], s) {
      CommonMeans(a[1..], b, s);
    } else if b[0] == '*' && Matches(b[1..], s) {
      CommonMeans(a, b[1..], s);
    } else {
      CommonMeans(if a[0] == '*' then a else a[1..], if b[0] == '*' then b else b[1..], s[1..]);
    }
  }

  predicate MatchesBoth(a: string, b: string, s: string) {
    Matches(a, s) && Matches(b, s)
  }

  /** The patterns meet exactly when some string matches both. */
  lemma MeetIsCommon(a: string, b: string)
    ensures Meet(a, b) <==> exists s :: MatchesBoth(a, b, s)
  {
    if Meet(a, b) {
      assert MatchesBoth(a, b, Common(a, b));
    }
    if s :| MatchesBoth(a, b, s) {
      CommonMeans(a, b, s);
    }
  }
}
