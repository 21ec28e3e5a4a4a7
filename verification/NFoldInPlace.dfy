/** The one-pass n-fold: one output buffer, one running carry, the input read as a 16-bit window. */
module NFoldInPlace {
  import opened Options
  import opened Bytes
  import opened Rotation
  import opened OnesComplement
  import opened NFold

  // ---------------------------------------------------------------- the window

  function Window(hi: Byte, lo: Byte, shift: nat): (b: Byte) {
    Shr(Or(hi * 256, lo), shift) % 256
  }

  function MsBit(slen: nat, i: nat): (b: int)
    requires slen > 0
    ensures 0 <= b < 8 * slen
  {
    (8 * slen - 1 + (8 * slen + 13) * (i / slen) + 8 * (slen - i % slen)) % (8 * slen)
  }

  /** Byte `i` of the concatenated copies, read straight from the input. */
  function WindowByte(s: Bytes, i: nat): (b: Byte)
    requires s != []
  {
    var at := MsBit(|s|, i) / 8;
    Window(s[(|s| - 1 - at) % |s|], s[(|s| - at) % |s|], MsBit(|s|, i) % 8 + 1)
  }

  lemma MsBitIsRotation(slen: nat, i: nat)
    requires slen > 0
    ensures MsBit(slen, i) == (13 * (i / slen) - 8 * (i % slen) - 1) % (8 * slen)
  {
    MsBitArithmetic(slen, i / slen, i % slen);
  }

  lemma MsBitArithmetic(slen: int, k: int, j: int)
    requires slen > 0
    ensures (8 * slen - 1 + (8 * slen + 13) * k + 8 * (slen - j)) % (8 * slen) == (13 * k - 8 * j - 1) % (8 * slen)
  {
    var m := 8 * slen;
    assert (m + 13) * k == k * m + 13 * k;
    assert (k + 2) * m == k * m + 2 * m;
    ModPlusMultiple(13 * k - 8 * j - 1, k + 2, m);
  }

  lemma MsBitInside(n: nat, i: nat, nbits: nat)
    requires n > 0 && nbits == 13 * (i / n) && nbits % 8 > 0
    ensures MsBit(n, i) == 8 * ((nbits / 8 % n - i % n) % n) + (nbits % 8 - 1)
  {
    MsBitIsRotation(n, i);
    DivFacts(nbits / 8, n);
    RingByte(nbits / 8 % n - i % n, nbits / 8 / n, n, nbits % 8 - 1);
  }

  lemma MsBitAtEdge(n: nat, i: nat, nbits: nat)
    requires n > 0 && nbits == 13 * (i / n) && nbits % 8 == 0
    ensures MsBit(n, i) == 8 * ((nbits / 8 % n - i % n - 1) % n) + 7
  {
    MsBitIsRotation(n, i);
    DivFacts(nbits / 8, n);
    RingByte(nbits / 8 % n - i % n - 1, nbits / 8 / n, n, 7);
  }

  lemma OtherWayRound(z: int, n: nat)
    requires n > 0
    ensures 0 <= n - 1 - z % n < n && (n - 1 - z % n) % n == (-z - 1) % n
    ensures (n - z % n) % n == (-z) % n
  {
    DivFacts(z, n);
    assert (z / n + 1) * n == z / n * n + n;
    ModPlusMultiple(-z - 1, z / n + 1, n);
    ModPlusMultiple(-z, z / n + 1, n);
  }

  lemma WindowAt(s: Bytes, i: nat, z: int, c: nat)
    requires s != [] && c < 8
    requires MsBit(|s|, i) == 8 * (z % |s|) + c
    ensures WindowByte(s, i) == Window(s[(-z - 1) % |s|], s[(-z) % |s|], c + 1)
  {
    OtherWayRound(z, |s|);
    assert MsBit(|s|, i) / 8 == z % |s|;
  }

  /** A shifted window holds the low bits of its first byte, then the high bits of its second. */
  lemma WindowJoins(hi: Byte, lo: Byte, r: nat)
    requires r <= 8
    ensures Window(hi, lo, r) == Joined(hi, lo, r)
  {
    hide Shr, Shl, Or, Low;
    ShlEight(1);
    ShlEight(hi);
    OrIsSum(lo, hi, 8);
    ShrOfJoin(lo, hi, 8, r);
    ShlCut(hi, r);
    JoinedBound(hi, lo, r);
    LowByteOfSum(Shr(lo, r), Shl(hi, 8 - r));
  }

  lemma LowByteOfSum(a: nat, x: nat)
    requires a + x % 256 < 256
    ensures (a + x) % 256 == a + x % 256
  {
  }

  lemma {:induction false} AllShiftedOut(lo: Byte)
    ensures Shr(lo, 8) == 0
  {
    assert Shl(1, 8) == 256;
    ShrOfSmall(lo, 8);
  }

  lemma {:induction false} AllKept(hi: nat, n: nat)
    requires hi < Shl(1, n)
    ensures Low(hi, n) == hi
  {
    if n > 0 {
      AllKept(hi / 2, n - 1);
    }
  }

  /** The window reads the byte that rotation would have put there. */
  lemma WindowReadsRotation(s: Bytes, i: nat)
    requires s != []
    ensures i % |s| < |s|
    ensures WindowByte(s, i) == RotateRight(s, 13 * (i / |s|))[i % |s|]
  {
    var nbits := 13 * (i / |s|);
    var at := i % |s| - nbits / 8 % |s|;
    RotatedAt(s, nbits, i % |s|);
    if nbits % 8 > 0 {
      MsBitInside(|s|, i, nbits);
      WindowAt(s, i, -at, nbits % 8 - 1);
      WindowJoins(s[(at - 1) % |s|], s[at % |s|], nbits % 8);
    } else {
      WindowAtEdge(s, i, nbits);
      NothingJoined(s[(at - 1) % |s|], s[at % |s|]);
    }
  }

  lemma NothingJoined(hi: Byte, lo: Byte)
    ensures Joined(hi, lo, 0) == lo
  {
    assert Low(hi, 0) == 0;
    NoBits(8);
  }

  lemma WindowAtEdge(s: Bytes, i: nat, nbits: nat)
    requires s != [] && nbits == 13 * (i / |s|) && nbits % 8 == 0
    ensures WindowByte(s, i) == s[(i % |s| - nbits / 8 % |s|) % |s|]
  {
    var at := i % |s| - nbits / 8 % |s|;
    var hi, lo := s[at % |s|], s[(at + 1) % |s|];
    MsBitAtEdge(|s|, i, nbits);
    WindowAt(s, i, -at - 1, 7);
    WindowJoins(hi, lo, 8);
    AllShiftedOut(lo);
    assert Shl(1, 8) == 256;
    AllKept(hi, 8);
  }

  lemma {:induction false} ExpandedAt(s: Bytes, copies: nat, i: nat)
    requires s != [] && i < copies * |s|
    ensures i % |s| < |s|
    ensures Expanded(s, copies)[i] == RotateRight(s, 13 * (i / |s|))[i % |s|]
  {
    var done := (copies - 1) * |s|;
    if i < done {
      ExpandedAt(s, copies - 1, i);
    } else {
      DivModUnique(i, copies - 1, i - done, |s|);
    }
  }

  // ---------------------------------------------------------------- the running carry

  /** A digit sum goes into the buffer as a byte, and on as a carry. */
  ghost predicate Splits(sum: nat, low: Byte, carry: nat) {
    sum == 256 * carry + low
  }

  lemma DigitSplits(carry: int, b: int, o: int, low: int, carry': int, n: nat)
    requires carry + b + o == 256 * carry' + low
    ensures ShiftBytes(low, n) + ShiftBytes(carry', n + 1)
         == ShiftBytes(carry, n) + ShiftBytes(b, n) + ShiftBytes(o, n)
  {
    ShiftBytesInside(carry', n);
    ShiftBytesSum(256 * carry', low, n);
    ShiftBytesSum(carry + b, o, n);
    ShiftBytesSum(carry, b, n);
  }

  /** One digit: what leaves the buffer as a byte and as a carry is what went in. */
  lemma DigitStep(out: Bytes, prior: Bytes, slice: Bytes, carry: nat, cin: nat, o: Byte, b: Byte,
                  low: Byte, carry': nat)
    requires |out| == |prior| == |slice|
    requires BigEndian(out) + ShiftBytes(carry, |out|) == BigEndian(prior) + BigEndian(slice) + cin
    requires Splits(carry + b + o, low, carry')
    ensures BigEndian([low] + out) + ShiftBytes(carry', |out| + 1)
         == BigEndian([o] + prior) + BigEndian([b] + slice) + cin
  {
    DigitSplits(carry, b, o, low, carry', |out|);
    BigEndianCons(low, out);
    BigEndianCons(o, prior);
    BigEndianCons(b, slice);
  }

  /**
   * A buffer of `n` bytes worth `x` and a carry, after slices worth `done`: congruent to them,
   * zero only with them, and never all ones with a carry still out.
   */
  ghost predicate Folded(n: nat, x: int, carry: nat, done: int)
    requires n > 0
  {
    && carry <= 1
    && 0 <= x && x + carry < ShiftBytes(1, n)
    && (x + carry == 0 <==> done == 0)
    && (x + carry) % Modulus(n) == done % Modulus(n)
  }

  lemma CarryIsABit(carry: nat, n: nat)
    requires ShiftBytes(carry, n) < 2 * ShiftBytes(1, n)
    ensures carry <= 1
  {
    ShiftBytesSum(1, 1, n);
    if carry >= 2 {
      ShiftBytesMonotone(2, carry, n);
    }
  }

  lemma FoldedSlice(n: nat, prior: int, cin: nat, done: int, y: int, x: int, carry: nat, done': int)
    requires n > 0 && Folded(n, prior, cin, done)
    requires 0 <= y < ShiftBytes(1, n) && 0 <= x < ShiftBytes(1, n)
    requires x + ShiftBytes(carry, n) == prior + y + cin
    requires done' % Modulus(n) == (y + done) % Modulus(n)
    requires done' == 0 <==> y == 0 && done == 0
    ensures Folded(n, x, carry, done')
  {
    CarryIsABit(carry, n);
    WholeTurn(x, carry, n);
    ModSum(prior + cin, done, y, Modulus(n));
  }

  lemma SlicePrepended(slice: Bytes, done: Bytes)
    requires |slice| > 0 && |done| % |slice| == 0
    ensures |slice + done| % |slice| == 0
    ensures BigEndian(slice + done) % Modulus(|slice|) == (BigEndian(slice) + BigEndian(done)) % Modulus(|slice|)
    ensures BigEndian(slice + done) == 0 <==> BigEndian(slice) == 0 && BigEndian(done) == 0
  {
    ModPlusMultiple(|done|, 1, |slice|);
    ConcatCongruent(slice, done, |slice|);
    ConcatZero(slice, done);
  }

  /** Part way through a slice: the low digits are summed, the others still hold `prior`. */
  ghost predicate Summing(out: Bytes, carry: nat, prior: Bytes, cin: nat, slice: Bytes) {
    && |slice| <= |out| == |prior|
    && var q := |out| - |slice|;
    && out[..q] == prior[..q]
    && BigEndian(out[q..]) + ShiftBytes(carry, |slice|) == BigEndian(prior[q..]) + BigEndian(slice) + cin
  }

  lemma SummingStep(out: Bytes, carry: nat, prior: Bytes, cin: nat, slice: Bytes, b: Byte,
                    p: nat, low: Byte, carry': nat)
    requires Summing(out, carry, prior, cin, slice)
    requires p + 1 + |slice| == |out|
    requires Splits(carry + b + out[p], low, carry')
    ensures Summing(out[p := low], carry', prior, cin, [b] + slice)
  {
    var out' := out[p := low];
    assert out[p] == out[..p + 1][p] == prior[..p + 1][p] == prior[p];
    DigitStep(out[p + 1..], prior[p + 1..], slice, carry, cin, out[p], b, low, carry');
    assert out'[p..] == [low] + out[p + 1..];
    assert prior[p..] == [prior[p]] + prior[p + 1..];
    assert out'[..p] == out[..p + 1][..p] == prior[..p + 1][..p] == prior[..p];
  }

  lemma SummingDone(out: Bytes, carry: nat, prior: Bytes, cin: nat, slice: Bytes, done: Bytes)
    requires Summing(out, carry, prior, cin, slice) && |slice| == |out| > 0
    requires |done| % |out| == 0 && Folded(|out|, BigEndian(prior), cin, BigEndian(done))
    ensures Folded(|out|, BigEndian(out), carry, BigEndian(slice + done))
  {
    hide Summing, BigEndian, ShiftBytes, Folded;
    WholeSliceSummed(out, carry, prior, cin, slice);
    SlicePrepended(slice, done);
    FoldedSlice(|out|, BigEndian(prior), cin, BigEndian(done), BigEndian(slice), BigEndian(out), carry,
                BigEndian(slice + done));
  }

  lemma WholeSliceSummed(out: Bytes, carry: nat, prior: Bytes, cin: nat, slice: Bytes)
    requires Summing(out, carry, prior, cin, slice) && |slice| == |out|
    ensures BigEndian(out) + ShiftBytes(carry, |out|) == BigEndian(prior) + BigEndian(slice) + cin
    ensures 0 <= BigEndian(out) < ShiftBytes(1, |out|) && 0 <= BigEndian(slice) < ShiftBytes(1, |out|)
  {
    assert out[0..] == out && prior[0..] == prior;
    BigEndianBound(out);
    BigEndianBound(slice);
  }

  lemma NothingSummed(n: nat, zeros: Bytes)
    requires n > 0 && zeros == seq(n, _ => 0)
    ensures Folded(n, BigEndian(zeros), 0, BigEndian([]))
    ensures Summing(zeros, 0, zeros, 0, [])
  {
    BigEndianZero(zeros);
  }

  lemma PlaceInSlice(end: nat, i: nat, n: nat)
    requires n > 0 && end % n == 0 && end - n <= i < end
    ensures i % n == n - (end - i)
  {
    DivFacts(end, n);
    assert (end / n - 1) * n == end - n;
    DivModUnique(i, end / n - 1, n - (end - i), n);
  }

  /** The sum of the input's slices, by the backward pass; a carry may be left over. */
  method SumSlices(input: Bytes, lcm: nat, out: array<Byte>, ghost copies: nat) returns (carry: nat)
    requires input != [] && out.Length > 0
    requires lcm == |Expanded(input, copies)| && lcm >= out.Length && lcm % out.Length == 0
    requires out[..] == seq(out.Length, _ => 0)
    modifies out
    ensures Folded(out.Length, BigEndian(out[..]), carry, BigEndian(Expanded(input, copies)))
  {
    hide Summing, Folded, BigEndian, Expanded, WindowByte;
    var outLen := out.Length;
    ghost var big := Expanded(input, copies);
    carry := 0;
    var i := lcm;
    ghost var prior, cin: nat, end: nat := out[..], 0, lcm;
    NothingSummed(outLen, prior);
    assert big[end..] == [] && big[i..end] == [];
    while i > 0
      invariant 0 <= i <= end <= |big| && end - outLen <= i
      invariant end > 0 && end % outLen == 0
      invariant |prior| == outLen && Folded(outLen, BigEndian(prior), cin, BigEndian(big[end..]))
      invariant Summing(out[..], carry, prior, cin, big[i..end])
    {
      if i == end - outLen {
        NextSlice(out[..], carry, prior, cin, big, i, end);
        prior, cin, end := out[..], carry, i;
      }
      i := i - 1;
      PlaceInSlice(end, i, outLen);
      ExpandedByte(input, copies, i);
      HeadOfSlice(big, i, end);
      carry := AddDigit(out, i % outLen, carry, WindowByte(input, i), prior, cin, big[i + 1..end]);
    }
    PlaceZero(end, outLen);
    NextSlice(out[..], carry, prior, cin, big, 0, end);
    assert big[0..] == big;
  }

  lemma HeadOfSlice(big: Bytes, i: nat, end: nat)
    requires i < end <= |big|
    ensures big[i..end] == [big[i]] + big[i + 1..end]
  {
  }

  lemma ExpandedByte(s: Bytes, copies: nat, i: nat)
    requires s != [] && i < |Expanded(s, copies)|
    ensures Expanded(s, copies)[i] == WindowByte(s, i)
  {
    WindowReadsRotation(s, i);
    ExpandedAt(s, copies, i);
  }

  lemma NextSlice(out: Bytes, carry: nat, prior: Bytes, cin: nat, big: Bytes, i: nat, end: nat)
    requires |out| > 0 && i + |out| == end <= |big| && |big| % |out| == 0 && end % |out| == 0
    requires Summing(out, carry, prior, cin, big[i..end])
    requires Folded(|out|, BigEndian(prior), cin, BigEndian(big[end..]))
    ensures i % |out| == 0
    ensures Folded(|out|, BigEndian(out), carry, BigEndian(big[i..]))
    ensures Summing(out, carry, out, carry, big[i..i])
  {
    NoDigits(out, carry);
    hide Summing, Folded, BigEndian;
    ModPlusMultiple(end, -1, |out|);
    assert |big[end..]| % |out| == 0 by { WholeSlicesLeft(|big|, end, |out|); }
    SummingDone(out, carry, prior, cin, big[i..end], big[end..]);
    assert big[i..end] + big[end..] == big[i..];
    assert big[i..i] == [];
  }

  lemma NoDigits(out: Bytes, carry: nat)
    ensures Summing(out, carry, out, carry, [])
  {
  }

  lemma WholeSlicesLeft(len: int, end: int, n: int)
    requires n > 0 && len % n == 0 && end % n == 0
    ensures (len - end) % n == 0
  {
    DivFacts(end, n);
    assert len - end == len + -(end / n) * n;
    ModPlusMultiple(len, -(end / n), n);
  }

  lemma PlaceZero(end: nat, n: nat)
    requires n > 0 && end % n == 0 && 0 < end <= n
    ensures end == n
  {
    if end < n {
      DivModUnique(end, 0, end, n);
    }
  }

  /** One digit added in place: the low byte stays, the rest is the new carry. */
  method AddDigit(out: array<Byte>, p: nat, carry: nat, b: Byte, ghost prior: Bytes, ghost cin: nat, ghost slice: Bytes)
    returns (carry': nat)
    requires p + 1 + |slice| == out.Length
    requires Summing(out[..], carry, prior, cin, slice)
    modifies out
    ensures Summing(out[..], carry', prior, cin, [b] + slice)
  {
    ghost var before := out[..];
    var sum := carry + b + out[p];
    var low: Byte := sum % 256;
    out[p] := low;
    carry' := sum / 256;
    SummingStep(before, carry, prior, cin, slice, b, p, low, carry');
    assert out[..] == before[p := low];
  }

  /** The last carry, added once more from the end. */
  method AddLastCarry(out: array<Byte>, over: nat)
    requires BigEndian(out[..]) + over < ShiftBytes(1, out.Length)
    modifies out
    ensures BigEndian(out[..]) == old(BigEndian(out[..])) + over
  {
    ghost var folded := out[..];
    ghost var zeros: Bytes := [];
    var carry: nat, i := over, out.Length;
    while i > 0
      invariant 0 <= i && |zeros| == out.Length - i && BigEndian(zeros) == 0
      invariant Summing(out[..], carry, folded, over, zeros)
    {
      i := i - 1;
      carry := AddDigit(out, i, carry, 0, folded, over, zeros);
      BigEndianCons(0, zeros);
      zeros := [0] + zeros;
    }
    AllSummed(out[..], carry, folded, over, zeros);
  }

  lemma AllSummed(out: Bytes, carry: nat, folded: Bytes, over: nat, zeros: Bytes)
    requires Summing(out, carry, folded, over, zeros) && |zeros| == |out| && BigEndian(zeros) == 0
    requires BigEndian(folded) + over < ShiftBytes(1, |out|)
    ensures BigEndian(out) == BigEndian(folded) + over
  {
    WholeSliceSummed(out, carry, folded, over, zeros);
    if carry > 0 {
      ShiftBytesMonotone(1, carry, |out|);
    }
  }

  /** `nfold` of the Rust crate computes what the slices and carries of `Fold` do. */
  method FoldInPlace(input: Bytes, outLen: nat) returns (r: Option<Bytes>)
    ensures r == if input == [] || outLen == 0 then None else Some(Fold(input, outLen))
  {
    if input == [] || outLen == 0 {
      return None;
    }
    var a: nat, b: nat := outLen, |input|;
    while b != 0
      invariant a > 0
      invariant Gcd(a, b) == Gcd(outLen, |input|)
      decreases b
    {
      a, b := b, a % b;
    }
    CopiesFillSlices(|input|, outLen);
    var lcm := outLen * |input| / a;
    var out := new Byte[outLen](_ => 0);
    LcmAtLeast(lcm, outLen);
    var over := SumSlices(input, lcm, out, Copies(|input|, outLen));
    ghost var folded := out[..];
    if over != 0 {
      AddLastCarry(out, over);
    }
    FoldIsOnesComplementSum(input, outLen);
    ExpandedZero(input, Copies(|input|, outLen));
    SumIsUnique(out[..], Fold(input, outLen));
    r := Some(out[..]);
  }

  lemma LcmAtLeast(lcm: int, n: nat)
    requires n > 0 && lcm > 0 && lcm % n == 0
    ensures lcm >= n
  {
    SliceLength(lcm, n);
  }
}
