/** Rotating a byte string right, as the n-fold does to each copy of its input. */
module Rotation {
  import opened Bytes

  function RotatedByte(s: Bytes, nbits: nat, i: nat): (b: Byte)
    requires i < |s|
  {
    var nbytes, remain := nbits / 8 % |s|, nbits % 8;
    var lo, hi := s[(i - nbytes) % |s|], s[(i - nbytes - 1) % |s|];
    HalvesShareNoBit(hi, lo, remain);
    Or(Shr(lo, remain), Shl(hi, 8 - remain) % 256)
  }

  /** `rotate_right`: the string as one ring of bits, turned right by `nbits`. */
  function RotateRight(s: Bytes, nbits: nat): (r: Bytes)
    requires s != []
    ensures |r| == |s|
  {
    seq(|s|, i requires 0 <= i < |s| => RotatedByte(s, nbits, i))
  }

  /** The last `r` bits of `hi`, then all but the last `r` of `lo`. */
  function Joined(hi: nat, lo: nat, r: nat): nat
    requires r <= 8
  {
    Shr(lo, r) + Shl(Low(hi, r), 8 - r)
  }

  lemma {:induction false} ShrBound(x: nat, r: nat, bits: nat)
    requires r <= bits && x < Shl(1, bits)
    ensures Shr(x, r) < Shl(1, bits - r)
  {
    if r > 0 {
      ShrBound(x / 2, r - 1, bits - 1);
    }
  }

  lemma {:induction false} LowBound(x: nat, r: nat)
    ensures Low(x, r) < Shl(1, r)
  {
    if r > 0 {
      LowBound(x / 2, r - 1);
    }
  }

  lemma {:induction false} ShlMonotone(x: nat, y: nat, n: nat)
    requires x < y
    ensures Shl(x, n) + Shl(1, n) <= Shl(y, n)
  {
    if n > 0 {
      ShlMonotone(x, y, n - 1);
    }
  }

  lemma {:induction false} ShlShl(x: nat, m: nat, n: nat)
    ensures Shl(Shl(x, m), n) == Shl(x, m + n)
  {
    if n > 0 {
      ShlShl(x, m, n - 1);
    }
  }

  lemma {:induction false} ShlSum(x: nat, y: nat, n: nat)
    ensures Shl(x + y, n) == Shl(x, n) + Shl(y, n)
  {
    if n > 0 {
      ShlSum(x, y, n - 1);
    }
  }

  lemma {:induction false} SplitAt(x: nat, r: nat)
    ensures x == Shl(Shr(x, r), r) + Low(x, r)
  {
    if r > 0 {
      SplitAt(x / 2, r - 1);
    }
  }

  lemma ShlEight(x: nat)
    ensures Shl(x, 8) == 256 * x
  {
    assert Shl(x, 2) == 2 * Shl(x, 1) == 4 * x;
    assert Shl(x, 4) == 2 * Shl(x, 3) == 4 * Shl(x, 2);
    assert Shl(x, 6) == 2 * Shl(x, 5) == 4 * Shl(x, 4);
    assert Shl(x, 8) == 2 * Shl(x, 7) == 4 * Shl(x, 6);
  }

  lemma JoinedBound(hi: nat, lo: Byte, r: nat)
    requires r <= 8
    ensures Joined(hi, lo, r) < 256
    ensures Shr(lo, r) < Shl(1, 8 - r)
  {
    assert Shl(1, 8) == 256;
    ShrBound(lo, r, 8);
    LowBound(hi, r);
    ShlMonotone(Low(hi, r), Shl(1, r), 8 - r);
    ShlShl(1, r, 8 - r);
  }

  /** Cutting the shifted byte to eight bits keeps its low bits. */
  lemma ShlCut(hi: nat, r: nat)
    requires r <= 8
    ensures Shl(hi, 8 - r) % 256 == Shl(Low(hi, r), 8 - r)
  {
    SplitAt(hi, r);
    ShlSum(Shl(Shr(hi, r), r), Low(hi, r), 8 - r);
    ShlShl(Shr(hi, r), r, 8 - r);
    ShlEight(Shr(hi, r));
    JoinedBound(hi, 0, r);
    DivModUnique(Shl(hi, 8 - r), Shr(hi, r), Shl(Low(hi, r), 8 - r), 256);
  }

  /** The two shifted halves share no bit, so `|` joins them. */
  lemma HalvesShareNoBit(hi: Byte, lo: Byte, r: nat)
    requires r <= 8
    ensures Or(Shr(lo, r), Shl(hi, 8 - r) % 256) == Joined(hi, lo, r) < 256
  {
    ShlCut(hi, r);
    JoinedBound(hi, lo, r);
    OrIsSum(Shr(lo, r), Low(hi, r), 8 - r);
  }

  // ---------------------------------------------------------------- bits

  function Bit(s: Bytes, j: nat): nat
    requires j < 8 * |s|
  {
    Shr(s[j / 8], 7 - j % 8) % 2
  }

  lemma {:induction false} ShrShr(x: nat, m: nat, n: nat)
    ensures Shr(Shr(x, m), n) == Shr(x, m + n)
  {
    if m > 0 {
      ShrShr(x / 2, m - 1, n);
    }
  }

  /** Shifting a join right by no more than its seam shifts both parts. */
  lemma {:induction false} ShrOfJoin(low: nat, high: nat, seam: nat, t: nat)
    requires t <= seam
    ensures Shr(low + Shl(high, seam), t) == Shr(low, t) + Shl(high, seam - t)
  {
    if t > 0 {
      assert (low + Shl(high, seam)) / 2 == low / 2 + Shl(high, seam - 1);
      ShrOfJoin(low / 2, high, seam - 1, t - 1);
    }
  }

  lemma {:induction false} ShrOfSmall(low: nat, seam: nat)
    requires low < Shl(1, seam)
    ensures Shr(low, seam) == 0
  {
    if seam > 0 {
      ShrOfSmall(low / 2, seam - 1);
    }
  }

  lemma {:induction false} LowKeepsBits(x: nat, r: nat, u: nat)
    requires u < r
    ensures Shr(Low(x, r), u) % 2 == Shr(x, u) % 2
  {
    if u > 0 {
      assert Low(x, r) / 2 == Low(x / 2, r - 1);
      LowKeepsBits(x / 2, r - 1, u - 1);
    }
  }

  lemma ShlIsEven(x: nat, n: nat)
    requires n > 0
    ensures Shl(x, n) % 2 == 0
  {
  }

  lemma BitBelowSeam(hi: nat, lo: Byte, r: nat, b: nat)
    requires r <= b < 8
    ensures Shr(Joined(hi, lo, r), 7 - b) % 2 == Shr(lo, 7 - (b - r)) % 2
  {
    hide Shr, Shl, Low;
    ShrOfJoin(Shr(lo, r), Low(hi, r), 8 - r, 7 - b);
    ShrShr(lo, r, 7 - b);
    ShlIsEven(Low(hi, r), 8 - r - (7 - b));
  }

  lemma BitAboveSeam(hi: nat, lo: Byte, r: nat, b: nat)
    requires b < r < 8
    ensures Shr(Joined(hi, lo, r), 7 - b) % 2 == Shr(hi, r - b - 1) % 2
  {
    JoinedBound(hi, lo, r);
    ShrShr(Joined(hi, lo, r), 8 - r, r - b - 1);
    ShrOfJoin(Shr(lo, r), Low(hi, r), 8 - r, 8 - r);
    ShrOfSmall(Shr(lo, r), 8 - r);
    LowKeepsBits(hi, r, r - b - 1);
  }

  lemma BitAt(s: Bytes, i: nat, b: nat)
    requires i < |s| && b < 8
    ensures Bit(s, 8 * i + b) == Shr(s[i], 7 - b) % 2
  {
  }

  lemma RotatedAt(s: Bytes, nbits: nat, i: nat)
    requires i < |s|
    ensures var at := i - nbits / 8 % |s|;
      RotateRight(s, nbits)[i] == Joined(s[(at - 1) % |s|], s[at % |s|], nbits % 8)
  {
    var at := i - nbits / 8 % |s|;
    HalvesShareNoBit(s[(at - 1) % |s|], s[at % |s|], nbits % 8);
  }

  /** Turning a ring of `n` bytes any number of times leaves the place in it. */
  lemma RingByte(at: int, turns: int, n: nat, c: nat)
    requires n > 0 && c < 8
    ensures (8 * (at + turns * n) + c) % (8 * n) == 8 * (at % n) + c
  {
    var q := at / n + turns;
    assert q * n == at / n * n + turns * n;
    DivFacts(at, n);
    DivModUnique(8 * (at + turns * n) + c, q, 8 * (at % n) + c, 8 * n);
  }

  /** Where bit `j` of a ring of `n` bytes comes from when the ring is turned by `nbits`. */
  lemma RingIndex(j: nat, nbits: nat, n: nat)
    requires n > 0
    ensures var at := j / 8 - nbits / 8 % n;
      (j - nbits) % (8 * n)
      == if j % 8 >= nbits % 8 then 8 * (at % n) + (j % 8 - nbits % 8)
         else 8 * ((at - 1) % n) + (8 + j % 8 - nbits % 8)
  {
    var turns := nbits / 8 / n;
    var at := j / 8 - nbits / 8 % n;
    DivFacts(nbits / 8, n);
    assert -turns * n == -(turns * n);
    if j % 8 >= nbits % 8 {
      RingByte(at, -turns, n, j % 8 - nbits % 8);
    } else {
      RingByte(at - 1, -turns, n, 8 + j % 8 - nbits % 8);
    }
  }

  /** Bit `j` of the rotated string is bit `j - nbits` of the original, round the ring. */
  lemma RotateRightMovesBits(s: Bytes, nbits: nat, j: nat)
    requires j < 8 * |s|
    ensures 0 <= (j - nbits) % (8 * |s|) < 8 * |s|
    ensures Bit(RotateRight(s, nbits), j) == Bit(s, (j - nbits) % (8 * |s|))
  {
    RotatedAt(s, nbits, j / 8);
    RingIndex(j, nbits, |s|);
    BitFromRing(s, j / 8, j % 8, nbits % 8, j / 8 - nbits / 8 % |s|, (j - nbits) % (8 * |s|), RotateRight(s, nbits));
  }

  lemma BitFromRing(s: Bytes, i: nat, b: nat, r: nat, at: int, from: int, rotated: Bytes)
    requires s != [] && i < |s| == |rotated| && b < 8 && r < 8
    requires rotated[i] == Joined(s[(at - 1) % |s|], s[at % |s|], r)
    requires from == if b >= r then 8 * (at % |s|) + (b - r) else 8 * ((at - 1) % |s|) + (8 + b - r)
    ensures 0 <= from < 8 * |s|
    ensures Shr(rotated[i], 7 - b) % 2 == Bit(s, from)
  {
    var hi, lo := (at - 1) % |s|, at % |s|;
    if b >= r {
      BitBelowSeam(s[hi], s[lo], r, b);
      BitAt(s, lo, b - r);
    } else {
      BitAboveSeam(s[hi], s[lo], r, b);
      BitAt(s, hi, 8 + b - r);
    }
  }
}
