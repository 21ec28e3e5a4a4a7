/** The n-fold of section 5.1 of RFC 3961. */
module NFold {
  import opened Bytes
  import opened Rotation
  import opened OnesComplement

  function Gcd(a: nat, b: nat): (g: nat)
    ensures a > 0 || b > 0 ==> g > 0
    decreases b
  {
    if b == 0 then a else Gcd(b, a % b)
  }

  predicate Divides(d: nat, a: nat)
    requires d > 0
  {
    a % d == 0
  }

  /** `Gcd` divides both numbers, and every common divisor divides it. */
  lemma {:induction false} GcdIsGreatest(a: nat, b: nat)
    requires a > 0 || b > 0
    ensures Divides(Gcd(a, b), a) && Divides(Gcd(a, b), b)
    ensures forall d: nat | d > 0 && Divides(d, a) && Divides(d, b) :: Divides(d, Gcd(a, b))
    decreases b
  {
    if b > 0 {
      GcdIsGreatest(b, a % b);
      DividesRemainder(Gcd(a, b), a, b);
      forall d: nat | d > 0 && Divides(d, a) && Divides(d, b) ensures Divides(d, Gcd(a, b)) {
        DividesRemainder(d, a, b);
      }
    } else {
      DivModUnique(a, 1, 0, a);
    }
  }

  lemma DividesRemainder(d: nat, a: nat, b: nat)
    requires d > 0 && b > 0 && Divides(d, b)
    ensures Divides(d, a) <==> Divides(d, a % b)
  {
    var q, k := a / b, b / d;
    assert a == q * b + a % b && b == k * d;
    assert q * b == q * k * d;
    ModPlusMultiple(a % b, q * k, d);
  }

  function Lcm(n: nat, slen: nat): int
    requires slen > 0 && n > 0
  {
    n * slen / Gcd(n, slen)
  }

  /** The number of copies of the input: the least common multiple over its length. */
  function Copies(slen: nat, n: nat): (c: int)
    requires slen > 0 && n > 0
  {
    Lcm(n, slen) / slen
  }

  lemma Quotient(x: int, d: int) returns (q: int)
    requires d > 0 && x > 0 && x % d == 0
    ensures x == q * d && q >= 1
  {
    q := x / d;
    DivFacts(x, d);
  }

  lemma Regroup(a: int, b: int, g: int, n: int, slen: int)
    requires n == a * g && slen == b * g
    ensures n * slen == a * slen * g && a * slen == b * n
  {
    assert a * g * slen == a * slen * g;
    assert a * (b * g) == b * (a * g);
  }

  /** The copies fill whole slices. */
  lemma CopiesFillSlices(slen: nat, n: nat)
    requires slen > 0 && n > 0
    ensures Copies(slen, n) > 0
    ensures Lcm(n, slen) == Copies(slen, n) * slen >= slen
    ensures Lcm(n, slen) % n == 0
  {
    var g := Gcd(n, slen);
    GcdIsGreatest(n, slen);
    var a := Quotient(n, g);
    var b := Quotient(slen, g);
    Regroup(a, b, g, n, slen);
    DivModUnique(n * slen, a * slen, 0, g);
    DivModUnique(a * slen, a, 0, slen);
    DivModUnique(b * n, b, 0, n);
    MulAtLeast(a, slen);
  }

  /** The greatest common divisor is a sum of multiples of the two numbers. */
  lemma {:induction false} GcdIsCombination(a: nat, b: nat) returns (u: int, v: int)
    ensures Gcd(a, b) == a * u + b * v
    decreases b
  {
    if b == 0 {
      u, v := 1, 0;
    } else {
      var u', v' := GcdIsCombination(b, a % b);
      u, v := v', u' - a / b * v';
      Combined(a, b, a / b, a % b, u', v');
    }
  }

  lemma Combined(a: int, b: int, q: int, r: int, u: int, v: int)
    requires a == b * q + r
    ensures b * u + r * v == a * v + b * (u - q * v)
  {
    assert a * v == b * q * v + r * v;
    assert b * (u - q * v) == b * u - b * (q * v);
  }

  lemma CommonMultiple(c: int, n: int, slen: int, g: int, l: int, x: int, y: int, u: int, v: int)
    requires g > 0 && l * g == n * slen && g == n * u + slen * v && c == n * x && c == slen * y
    ensures c == l * (y * u + x * v)
  {
    Regrouped(n, x, slen, v);
    Regrouped(slen, y, n, u);
    assert c * g == c * (n * u) + c * (slen * v);
    var k := y * u + x * v;
    assert n * slen * k == n * slen * (y * u) + n * slen * (x * v);
    Reordered(l, g, k);
    SameFactor(c, l * k, g);
  }

  lemma Regrouped(a: int, x: int, b: int, v: int)
    ensures a * x * (b * v) == a * b * (x * v) == b * a * (x * v)
  {
  }

  lemma Reordered(l: int, g: int, k: int)
    ensures l * g * k == l * k * g
  {
  }

  lemma SameFactor(a: int, b: int, g: int)
    requires g > 0 && a * g == b * g
    ensures a == b
  {
  }

  /** The least common multiple divides every common multiple, so none is smaller. */
  lemma LcmIsLeast(n: nat, slen: nat, c: nat)
    requires n > 0 && slen > 0 && c > 0 && c % n == 0 && c % slen == 0
    ensures Lcm(n, slen) > 0 && c % Lcm(n, slen) == 0 && Lcm(n, slen) <= c
  {
    var g, l := Gcd(n, slen), Lcm(n, slen);
    CopiesFillSlices(slen, n);
    GcdIsGreatest(n, slen);
    var a := Quotient(n, g);
    assert n * slen == a * slen * g;
    DivModUnique(n * slen, a * slen, 0, g);
    var x := Quotient(c, n);
    var y := Quotient(c, slen);
    var u, v := GcdIsCombination(n, slen);
    CommonMultiple(c, n, slen, g, l, x, y, u, v);
    MultipleIsLarger(c, l, y * u + x * v);
  }

  lemma MultipleIsLarger(c: int, l: int, k: int)
    requires c > 0 && l > 0 && c == l * k
    ensures c % l == 0 && l <= c
  {
    assert k > 0;
    DivModUnique(c, k, 0, l);
    MulAtLeast(k, l);
  }

  /** The concatenated copies, the `i`-th rotated right by `13 * i` bits. */
  function Expanded(s: Bytes, copies: nat): (big: Bytes)
    requires s != []
    ensures |big| == copies * |s|
  {
    if copies == 0 then []
    else Expanded(s, copies - 1) + RotateRight(s, 13 * (copies - 1))
  }

  /** `reduce(add_ones_complement, slices)`, from the first slice on. */
  function FoldSlices(acc: Bytes, rest: Bytes, n: nat): (r: Bytes)
    requires n > 0 && |acc| == n && |rest| % n == 0
    ensures |r| == n
    decreases |rest|
  {
    if rest == [] then acc
    else
      SliceLength(|rest|, n);
      FoldSlices(Add(acc, rest[..n]), rest[n..], n)
  }

  lemma SliceLength(len: nat, n: nat)
    requires n > 0 && len > 0 && len % n == 0
    ensures len >= n && (len - n) % n == 0
  {
    if len < n {
      DivModUnique(len, 0, len, n);
    }
    ModPlusMultiple(len - n, 1, n);
  }

  /** `_nfold`. */
  function Fold(s: Bytes, n: nat): (r: Bytes)
    requires s != [] && n > 0
    ensures |r| == n
  {
    CopiesFillSlices(|s|, n);
    var big := Expanded(s, Copies(|s|, n));
    SliceLength(|big|, n);
    FoldSlices(big[..n], big[n..], n)
  }

  // ---------------------------------------------------------------- meaning

  lemma {:induction false} WholeTurns(x: int, c: int, k: nat, n: nat)
    requires n > 0
    ensures k * n >= 0
    ensures (x + ShiftBytes(c, k * n)) % Modulus(n) == (x + c) % Modulus(n)
  {
    if k > 0 {
      WholeTurns(x, c, k - 1, n);
      assert k * n == (k - 1) * n + n;
      ShiftBytesTwice(c, (k - 1) * n, n);
      WholeTurn(x, ShiftBytes(c, (k - 1) * n), n);
    }
  }

  /** Appending whole slices adds their value. */
  lemma ConcatCongruent(a: Bytes, b: Bytes, n: nat)
    requires n > 0 && |b| % n == 0
    ensures BigEndian(a + b) % Modulus(n) == (BigEndian(a) + BigEndian(b)) % Modulus(n)
  {
    DivFacts(|b|, n);
    WholeTurns(BigEndian(b), BigEndian(a), |b| / n, n);
    BigEndianConcat(a, b);
  }

  /** Congruent numbers are whole turns apart. */
  lemma TurnsApart(a: int, b: int, m: int) returns (k: int)
    requires m > 0 && a % m == b % m
    ensures a == b + k * m
  {
    k := a / m - b / m;
  }

  lemma TurnsAdd(i: int, j: int, k: int, m: int)
    ensures (i + j - k) * m == i * m + j * m - k * m
  {
  }

  /** Adding a slice makes a number of turns, and nothing of something. */
  lemma AddedTurns(acc: Bytes, first: Bytes) returns (k: int)
    requires |acc| == |first| > 0
    ensures BigEndian(Add(acc, first)) == BigEndian(acc) + BigEndian(first) + k * Modulus(|acc|)
    ensures BigEndian(Add(acc, first)) == 0 <==> BigEndian(acc) == 0 && BigEndian(first) == 0
  {
    AddValue(acc, first);
    hide BigEndian, Add;
    k := TurnsApart(BigEndian(Add(acc, first)), BigEndian(acc) + BigEndian(first), Modulus(|acc|));
  }

  lemma ConcatTurns(a: Bytes, b: Bytes, n: nat) returns (k: int)
    requires n > 0 && |b| % n == 0
    ensures BigEndian(a + b) == BigEndian(a) + BigEndian(b) + k * Modulus(n)
  {
    ConcatCongruent(a, b, n);
    hide BigEndian;
    k := TurnsApart(BigEndian(a + b), BigEndian(a) + BigEndian(b), Modulus(n));
  }

  lemma FoldSlicesStep(acc: Bytes, rest: Bytes, n: nat)
    requires n > 0 && |acc| == n && |rest| % n == 0 && rest != []
    ensures n <= |rest| && |rest[n..]| % n == 0
    ensures FoldSlices(acc, rest, n) == FoldSlices(Add(acc, rest[..n]), rest[n..], n)
  {
    SliceLength(|rest|, n);
    hide Add;
  }

  /** The fold is turns apart from the sum of the values, and zero only when both are. */
  lemma {:induction false} FoldSlicesTurns(acc: Bytes, rest: Bytes, n: nat) returns (k: int)
    requires n > 0 && |acc| == n && |rest| % n == 0
    ensures BigEndian(FoldSlices(acc, rest, n)) == BigEndian(acc) + BigEndian(rest) + k * Modulus(n)
    ensures BigEndian(FoldSlices(acc, rest, n)) == 0 <==> BigEndian(acc) == 0 && BigEndian(rest) == 0
    decreases |rest|
  {
    NoSlice();
    if rest == [] {
      k := 0;
    } else {
      FoldSlicesStep(acc, rest, n);
      hide BigEndian, Add, Modulus, FoldSlices;
      var first, rest' := rest[..n], rest[n..];
      var i := FoldSlicesTurns(Add(acc, first), rest', n);
      var j := AddedTurns(acc, first);
      var l := ConcatTurns(first, rest', n);
      assert rest == first + rest';
      ConcatZero(first, rest');
      k := i + j - l;
      TurnsAdd(i, j, l, Modulus(n));
    }
  }

  lemma FoldSlicesValue(acc: Bytes, rest: Bytes, n: nat)
    requires n > 0 && |acc| == n && |rest| % n == 0
    ensures BigEndian(FoldSlices(acc, rest, n)) % Modulus(n) == (BigEndian(acc) + BigEndian(rest)) % Modulus(n)
    ensures BigEndian(FoldSlices(acc, rest, n)) == 0 <==> BigEndian(acc) == 0 && BigEndian(rest) == 0
  {
    hide BigEndian, Modulus, FoldSlices;
    var k := FoldSlicesTurns(acc, rest, n);
    ModPlusMultiple(BigEndian(acc) + BigEndian(rest), k, Modulus(n));
  }

  lemma NoSlice()
    ensures BigEndian([]) == 0
  {
  }

  lemma ConcatZero(a: Bytes, b: Bytes)
    ensures BigEndian(a + b) == 0 <==> BigEndian(a) == 0 && BigEndian(b) == 0
  {
    BigEndianZero(a);
    BigEndianZero(b);
    BigEndianZero(a + b);
    assert forall i :: 0 <= i < |b| ==> b[i] == (a + b)[|a| + i];
    assert forall i :: 0 <= i < |a| ==> a[i] == (a + b)[i];
  }

  lemma RotateByNothing(s: Bytes)
    requires s != []
    ensures RotateRight(s, 0) == s
  {
    forall i | 0 <= i < |s| ensures RotateRight(s, 0)[i] == s[i] {
      RotatedAt(s, 0, i);
      DivModUnique(0, 0, 0, |s|);
      DivModUnique(i, 0, i, |s|);
      assert Low(s[(i - 1) % |s|], 0) == 0;
      NoBits(8);
    }
  }

  lemma {:induction false} NoBits(r: nat)
    ensures Shr(0, r) == 0 && Low(0, r) == 0 && Shl(0, r) == 0
  {
    if r > 0 {
      NoBits(r - 1);
    }
  }

  lemma RotateZero(s: Bytes, nbits: nat)
    requires s != [] && BigEndian(s) == 0
    ensures BigEndian(RotateRight(s, nbits)) == 0
  {
    BigEndianZero(s);
    forall i | 0 <= i < |s| ensures RotateRight(s, nbits)[i] == 0 {
      RotatedAt(s, nbits, i);
      NoBits(nbits % 8);
      NoBits(8 - nbits % 8);
    }
    BigEndianZero(RotateRight(s, nbits));
  }

  lemma OneCopy(s: Bytes)
    requires s != []
    ensures Expanded(s, 1) == s
  {
    RotateByNothing(s);
    assert Expanded(s, 1) == Expanded(s, 0) + RotateRight(s, 0);
  }

  lemma {:induction false} ExpandedZero(s: Bytes, copies: nat)
    requires s != [] && copies > 0
    ensures BigEndian(Expanded(s, copies)) == 0 <==> BigEndian(s) == 0
  {
    if copies == 1 {
      OneCopy(s);
    } else {
      ExpandedZero(s, copies - 1);
      ConcatZero(Expanded(s, copies - 1), RotateRight(s, 13 * (copies - 1)));
      if BigEndian(s) == 0 {
        RotateZero(s, 13 * (copies - 1));
      }
    }
  }

  /** The result is the ones' complement sum of the slices: these two facts leave one string only. */
  lemma FoldIsOnesComplementSum(s: Bytes, n: nat)
    requires s != [] && n > 0
    ensures BigEndian(Fold(s, n)) % Modulus(n) == BigEndian(Expanded(s, Copies(|s|, n))) % Modulus(n)
    ensures BigEndian(Fold(s, n)) == 0 <==> BigEndian(s) == 0
  {
    CopiesFillSlices(|s|, n);
    var big := Expanded(s, Copies(|s|, n));
    SliceLength(|big|, n);
    var first, rest := big[..n], big[n..];
    assert big == first + rest;
    FoldSlicesValue(first, rest, n);
    ConcatCongruent(first, rest, n);
    ConcatZero(first, rest);
    ExpandedZero(s, Copies(|s|, n));
  }

  /** Folding to its own length leaves a string as it is. */
  lemma FoldToOwnLength(s: Bytes)
    requires s != []
    ensures Fold(s, |s|) == s
  {
    var n := |s|;
    DivModUnique(n, 1, 0, n);
    DivModUnique(n * n, n, 0, n);
    assert Gcd(n, n) == Gcd(n, 0) == n;
    OneCopy(s);
  }

  lemma {:induction false} CopyAt(s: Bytes, copies: nat, k: nat)
    requires s != [] && k < copies
    ensures 0 <= k * |s| <= (k + 1) * |s| <= |Expanded(s, copies)|
    ensures Expanded(s, copies)[k * |s|..(k + 1) * |s|] == RotateRight(s, 13 * k)
  {
    var n, before := |s|, Expanded(s, copies - 1);
    var last := RotateRight(s, 13 * (copies - 1));
    hide RotateRight;
    TimesAtMost(k + 1, copies, n);
    assert (k + 1) * n == k * n + n;
    if k == copies - 1 {
      assert (before + last)[|before|..] == last;
    } else {
      CopyAt(s, copies - 1, k);
      assert (before + last)[k * n..(k + 1) * n] == before[k * n..(k + 1) * n];
    }
  }

  lemma TimesAtMost(a: nat, b: nat, n: nat)
    requires a <= b
    ensures 0 <= a * n <= b * n && (a > 0 ==> (a - 1) * n >= 0)
  {
  }

  /** Bit `j` of copy `k` is bit `j - 13 * k` of the string, round the ring. */
  lemma CopiesAreRotated(s: Bytes, copies: nat, k: nat, j: nat)
    requires s != [] && k < copies && j < 8 * |s|
    ensures 0 <= k * |s| <= (k + 1) * |s| <= |Expanded(s, copies)| && (k + 1) * |s| - k * |s| == |s|
    ensures 0 <= (j - 13 * k) % (8 * |s|) < 8 * |s|
    ensures Bit(Expanded(s, copies)[k * |s|..(k + 1) * |s|], j) == Bit(s, (j - 13 * k) % (8 * |s|))
  {
    hide Expanded, RotateRight, Bit;
    CopyAt(s, copies, k);
    assert (k + 1) * |s| == k * |s| + |s|;
    RotateRightMovesBits(s, 13 * k, j);
  }
}
