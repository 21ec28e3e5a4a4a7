/**
 * Checking the sequence number of a message against the one expected, with the allowance for peers
 * that sign-extend numbers of one to three octets.
 */
module SeqCheck {
  const WORD: int := 0x1_0000_0000

  /** The bits of 0xFF80_0000 are all set from here on. */
  const HIGH: int := 0xFF80_0000

  type Seq = x: int | 0 <= x < WORD

  datatype Remote = Remote(expected: Seq, sane: bool, heimdal: bool)

  /** The expected number has its top bit set in so many octets, and what came is its sign extension. */
  predicate SignExtended(expected: Seq, came: Seq) {
    || (0x80_0000 <= expected < 0x100_0000 && came >= 0xFF80_0000 && came % 0x100_0000 == expected)
    || (0x8000 <= expected < 0x1_0000 && came >= 0xFFFF_8000 && came % 0x1_0000 == expected)
    || (0x80 <= expected < 0x100 && came >= 0xFFFF_FF80 && came % 0x100 == expected)
  }

  /** Numbers a sign-extending peer would have sent differently. */
  predicate Telling(expected: Seq) {
    0x80 <= expected < 0x100 || 0x8000 <= expected < 0x1_0000 || 0x80_0000 <= expected < 0x100_0000
  }

  /** What a peer dropping leading zero octets makes of the number after the highest. */
  predicate Shortened(came: Seq) {
    came == 0x100 || came == 0x1_0000 || came == 0x100_0000
  }

  function Check(r: Remote, came: Seq): (bool, Remote) {
    if r.sane then (came == r.expected, r)
    else if came >= HIGH then
      if r.expected >= HIGH && came == r.expected then (true, r)
      else if !r.heimdal && came == r.expected then (true, r)
      else if SignExtended(r.expected, came) then (true, r.(heimdal := true))
      else (false, r)
    else if came == r.expected then (true, if Telling(r.expected) then r.(sane := true) else r)
    else if r.expected == 0 && !r.heimdal then
      if Shortened(came) then (true, r.(heimdal := true)) else (false, r)
    else (false, r)
  }

  function Advance(r: Remote): Remote {
    r.(expected := (r.expected + 1) % WORD)
  }

  /** The masks these numbers are compared under pick out these ranges. */
  lemma MasksAreRanges(x: bv32)
    ensures x & 0xFF80_0000 == 0xFF80_0000 <==> x >= 0xFF80_0000
    ensures x & 0xFFFF_8000 == 0xFFFF_8000 <==> x >= 0xFFFF_8000
    ensures x & 0xFFFF_FF80 == 0xFFFF_FF80 <==> x >= 0xFFFF_FF80
    ensures x & 0xFFFF_FF80 == 0x80 <==> 0x80 <= x < 0x100
    ensures x & 0xFFFF_8000 == 0x8000 <==> 0x8000 <= x < 0x1_0000
    ensures x & 0xFF80_0000 == 0x80_0000 <==> 0x80_0000 <= x < 0x100_0000
  {
  }

  class Peer {
    var expected: Seq
    var sane: bool
    var heimdal: bool

    function Value(): Remote
      reads this
    {
      Remote(expected, sane, heimdal)
    }

    /** The number expected is always taken; another only from a peer not known to be sane, mangled one way. */
    method CheckSeq(came: Seq) returns (ok: bool)
      modifies this
      ensures ok <==> came == old(expected) || (!old(sane) && Mangled(old(Value()), came))
      ensures (ok, Value()) == Check(old(Value()), came)
    {
      if sane {
        return came == expected;
      }
      if came >= HIGH {
        if expected >= HIGH && came == expected {
          return true;
        }
        if !heimdal && came == expected {
          return true;
        }
        if SignExtended(expected, came) {
          heimdal := true;
          return true;
        }
        return false;
      }
      if came == expected {
        if Telling(expected) {
          sane := true;
        }
        return true;
      }
      if expected == 0 && !heimdal {
        if Shortened(came) {
          heimdal := true;
          return true;
        }
      }
      return false;
    }
  }

  /** A number other than the expected one that an old peer may mean by it. */
  predicate Mangled(r: Remote, came: Seq) {
    SignExtended(r.expected, came) || (r.expected == 0 && !r.heimdal && Shortened(came))
  }

  /** What is taken: the expected number, or a mangling of it from a peer not known to be sane. */
  lemma Taken(r: Remote, came: Seq)
    ensures Check(r, came).0 <==> came == r.expected || (!r.sane && Mangled(r, came))
  {
  }

  /**
   * What taking a number changes: a peer whose telling number came as expected is sane from then on, and
   * one whose number came mangled is remembered as such; nothing else changes.
   */
  lemma CheckedState(r: Remote, came: Seq)
    ensures var (ok, next) := Check(r, came);
      && next.expected == r.expected
      && (next.sane <==>
            || r.sane
            || (came == r.expected
                && (0x80 <= came <= 0xFF || 0x8000 <= came <= 0xFFFF || 0x80_0000 <= came <= 0xFF_FFFF)))
      && (next.heimdal <==> r.heimdal || (ok && came != r.expected))
  {
  }

  /** Manglings, spelt out: a sign extended from one, two or three octets, or a zero octet too many after 0. */
  lemma MangledAre(r: Remote, came: Seq)
    ensures Mangled(r, came) <==>
      || (0x80 <= r.expected <= 0xFF && came == r.expected + 0xFFFF_FF00)
      || (0x8000 <= r.expected <= 0xFFFF && came == r.expected + 0xFFFF_0000)
      || (0x80_0000 <= r.expected <= 0xFF_FFFF && came == r.expected + 0xFF00_0000)
      || (r.expected == 0 && !r.heimdal && came in {0x100, 0x1_0000, 0x100_0000})
  {
  }

  // ---------------------------------------------------------------- numbers in order

  /** The number of the message so many after 0; 32-bit numbers wrap. */
  function Nth(n: nat): Seq {
    n % WORD
  }

  /** The first telling number from `first` on, counting on past the wrap. */
  function NextTelling(first: Seq): (t: int)
    ensures t >= first
  {
    if first < 0x80 then 0x80
    else if first < 0x100 then first
    else if first < 0x8000 then 0x8000
    else if first < 0x1_0000 then first
    else if first < 0x80_0000 then 0x80_0000
    else if first < 0x100_0000 then first
    else WORD + 0x80
  }

  /** Up to it nothing is telling, and it is. */
  lemma NextTellingIsFirst(first: Seq, x: int)
    requires first <= x <= NextTelling(first)
    ensures Telling(Nth(x)) <==> x == NextTelling(first)
  {
  }

  /** The state once the number `first` and `k` more have been taken in order. */
  function StateAt(first: Seq, k: nat): Remote {
    var r := if k == 0 then Remote(first, false, false) else StateAt(first, k - 1);
    Advance(Check(r, r.expected).1)
  }

  lemma ExpectedTaken(r: Remote)
    requires !r.heimdal
    ensures Advance(Check(r, r.expected).1)
         == Remote(Nth(r.expected + 1), r.sane || Telling(r.expected), false)
  {
  }

  lemma NextNth(n: nat)
    ensures Nth(Nth(n) + 1) == Nth(n + 1)
  {
  }

  /** The next number is expected, and the peer is known to be sane once a telling number was taken. */
  lemma {:induction false} StateIs(first: Seq, k: nat)
    ensures StateAt(first, k) == Remote(Nth(first + 1 + k), first + k >= NextTelling(first), false)
  {
    var r := if k == 0 then Remote(first, false, false) else StateAt(first, k - 1);
    if k == 0 {
      assert first == Nth(first);
    } else {
      StateIs(first, k - 1);
    }
    hide StateAt, Nth, NextTelling, Telling;
    ExpectedTaken(r);
    NextNth(first + k);
    if first + k <= NextTelling(first) {
      NextTellingIsFirst(first, first + k);
    }
    hide Check, Advance;
    StateStep(first, k);
  }

  lemma StateStep(first: Seq, k: nat)
    ensures var r := if k == 0 then Remote(first, false, false) else StateAt(first, k - 1);
      StateAt(first, k) == Advance(Check(r, r.expected).1)
  {
  }

  /** With `k` messages taken after the first, the `j`-th would be taken for the next. */
  predicate OutOfTurn(first: Seq, k: nat, j: nat) {
    j != k && Check(StateAt(first, k), Nth(first + 1 + j)).0
  }

  /**
   * What is taken for the number counted as `u`: the same number a wrap away, or, until the first
   * telling number has been taken, a mangling.
   */
  lemma OutOfTurnMeans(first: Seq, k: nat, j: nat)
    ensures var u, v := first + 1 + k, first + 1 + j;
      OutOfTurn(first, k, j) <==>
        j != k && (Nth(u) == Nth(v) || (u <= NextTelling(first) && Mangled(Remote(Nth(u), false, false), Nth(v))))
  {
    StateIs(first, k);
    Taken(StateAt(first, k), Nth(first + 1 + j));
  }

  /**
   * None of `n` messages after the first is taken out of turn at any of the first `m` places. Numbers
   * must not come round again; and, unless a telling number comes first, the run must not reach its
   * sign extension, nor go on from 0 to 0x100, nor come round to 0x80 after its sign extension.
   */
  predicate Unambiguous(first: Seq, n: nat, m: nat) {
    || m == 0 || n == 0
    || (&& n <= WORD && m <= WORD
        && !(first < 0x80 && first + m >= 0x80 && first + n >= 0xFFFF_FF80)
        && !(0x100 <= first < 0x8000 && first + m >= 0x8000 && first + n >= 0xFFFF_8000)
        && !(0x1_0000 <= first < 0x80_0000 && first + m >= 0x80_0000 && first + n >= 0xFF80_0000)
        && !(0x100_0000 <= first && first + m >= WORD && first + n >= WORD + 0x100)
        && !(0x100_0000 <= first < 0xFFFF_FF80 && first + m >= WORD + 0x80))
  }

  /** A message out of turn, where there is one: the place it is taken at and its own. */
  function Confused(first: Seq, n: nat, m: nat): (nat, nat)
    requires m <= n + 1 && !Unambiguous(first, n, m)
  {
    if n > WORD then (0, WORD)
    else if m > WORD then (WORD, 0)
    else if first < 0x80 then (0x80 - first - 1, 0xFFFF_FF80 - first - 1)
    else if first < 0x8000 then (0x8000 - first - 1, 0xFFFF_8000 - first - 1)
    else if first < 0x80_0000 then (0x80_0000 - first - 1, 0xFF80_0000 - first - 1)
    else if first + n >= WORD + 0x100 then (WORD - first - 1, WORD + 0x100 - first - 1)
    else (WORD + 0x80 - first - 1, 0xFFFF_FF80 - first - 1)
  }

  lemma NthIs(x: nat)
    requires x < 2 * WORD
    ensures Nth(x) == if x < WORD then x else x - WORD
  {
  }

  /** Before the first telling number is taken, only 0 and that number can be mangled. */
  lemma MangledMeans(first: Seq, u: int, came: Seq)
    requires first < u <= NextTelling(first)
    ensures Mangled(Remote(Nth(u), false, false), came) <==>
      || (Nth(u) == 0 && Shortened(came))
      || (u == NextTelling(first) && came == Extension(Nth(u)))
  {
    NextTellingIsFirst(first, u);
    NthIs(u);
    hide Nth;
    SignExtensionIs(Nth(u), came);
    hide SignExtended;
  }

  lemma SignExtensionIs(e: Seq, came: Seq)
    ensures !Telling(e) ==> !SignExtended(e, came)
    ensures e == 0x80 || e == 0x8000 || e == 0x80_0000 ==> (SignExtended(e, came) <==> came == Extension(e))
  {
  }

  /** The sign extension of a lowest telling number of one, two or three octets. */
  function Extension(e: Seq): Seq {
    if e == 0x80 then 0xFFFF_FF80 else if e == 0x8000 then 0xFFFF_8000 else 0xFF80_0000
  }

  lemma NthRound(x: nat)
    ensures Nth(x + WORD) == Nth(x)
  {
  }

  /** Where the confused places are: a wrap apart, or a number and its mangling. */
  lemma ConfusedPlaces(first: Seq, n: nat, m: nat)
    requires m <= n + 1 && !Unambiguous(first, n, m)
    ensures var (k, j) := Confused(first, n, m);
      var u, v := first + 1 + k, first + 1 + j;
      && k < m && j < n && k != j
      && (|| u == v + WORD || v == u + WORD
          || (u == WORD <= NextTelling(first) && v == WORD + 0x100)
          || (u == NextTelling(first) < WORD && v == Extension(u))
          || (u == NextTelling(first) == WORD + 0x80 && v == 0xFFFF_FF80))
  {
  }

  lemma ConfusedIsOutOfTurn(first: Seq, n: nat, m: nat)
    requires m <= n + 1 && !Unambiguous(first, n, m)
    ensures var (k, j) := Confused(first, n, m); k < m && j < n && OutOfTurn(first, k, j)
  {
    var (k, j) := Confused(first, n, m);
    var u, v := first + 1 + k, first + 1 + j;
    ConfusedPlaces(first, n, m);
    OutOfTurnMeans(first, k, j);
    hide OutOfTurn, Unambiguous, Confused, NextTelling;
    if u == v + WORD {
      NthRound(v);
    } else if v == u + WORD {
      NthRound(u);
    } else {
      NthIs(u);
      NthIs(v);
      hide Nth;
      MangledMeans(first, u, Nth(v));
      hide Mangled;
    }
  }

  lemma UnambiguousInTurn(first: Seq, n: nat, m: nat, k: nat, j: nat)
    requires Unambiguous(first, n, m) && m <= n + 1 && k < m && j < n
    ensures !OutOfTurn(first, k, j)
  {
    var u, v := first + 1 + k, first + 1 + j;
    OutOfTurnMeans(first, k, j);
    NthIs(u);
    NthIs(v);
    hide Nth, OutOfTurn;
    if u <= NextTelling(first) {
      MangledMeans(first, u, Nth(v));
      hide Mangled;
    }
  }

  /** The condition is exact, for every first number and every number of messages and places. */
  lemma UnambiguousMeans(first: Seq, n: nat, m: nat)
    requires m <= n + 1
    ensures Unambiguous(first, n, m) <==> forall k: nat, j: nat :: k < m && j < n ==> !OutOfTurn(first, k, j)
  {
    if Unambiguous(first, n, m) {
      forall k: nat, j: nat | k < m && j < n
        ensures !OutOfTurn(first, k, j)
      {
        UnambiguousInTurn(first, n, m, k, j);
      }
    } else {
      ConfusedIsOutOfTurn(first, n, m);
    }
  }
}
