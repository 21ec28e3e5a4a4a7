/** Bytes, big-endian values, and the integer operators that the source applies to them. */
module Bytes {

  type Byte = b: int | 0 <= b < 256
  type Bytes = seq<Byte>

  // ---------------------------------------------------------------- division

  lemma MulAtLeast(a: int, m: int)
    requires a >= 1 && m >= 0
    ensures a * m >= m
  {
  }

  /** Quotient and remainder are unique. */
  lemma DivModUnique(x: int, q: int, r: int, m: int)
    requires 0 <= r < m
    requires x == q * m + r
    ensures x / m == q && x % m == r
  {
    var q', r' := x / m, x % m;
    assert x == q' * m + r';
    assert (q - q') * m == r' - r;
    if q > q' {
      MulAtLeast(q - q', m);
    } else if q < q' {
      MulAtLeast(q' - q, m);
    }
  }

  lemma DivFacts(x: int, m: int)
    requires m > 0
    ensures 0 <= x % m < m && x == x % m + x / m * m
    ensures x >= 0 ==> x / m >= 0
  {
  }

  lemma ModPlusMultiple(a: int, k: int, m: int)
    requires m > 0
    ensures (a + k * m) % m == a % m
  {
    DivModUnique(a + k * m, a / m + k, a % m, m);
  }

  lemma ModSum(a: int, a': int, b: int, m: int)
    requires m > 0 && a % m == a' % m
    ensures (a + b) % m == (a' + b) % m
  {
    var k := a / m - a' / m;
    assert a == a' + k * m;
    ModPlusMultiple(a' + b, k, m);
  }

  lemma FourDigits(n: nat)
    requires n < 0x1_0000_0000
    ensures var a, b, c, d := n / 0x100_0000 % 256, n / 0x1_0000 % 256, n / 0x100 % 256, n % 256;
      && n == 0x100_0000 * a + 0x1_0000 * b + 0x100 * c + d
      && (n <= 16777215 ==> a == 0) && (n <= 65535 ==> b == 0) && (n <= 255 ==> c == 0)
  {
    var q := n / 0x100;
    assert n / 0x1_0000 == q / 0x100;
    assert n / 0x100_0000 == q / 0x100 / 0x100;
  }

  // ---------------------------------------------------------------- bits

  /** `x << n`. */
  function Shl(x: nat, n: nat): nat {
    if n == 0 then x else 2 * Shl(x, n - 1)
  }

  /** `x >> n`. */
  function Shr(x: nat, n: nat): nat {
    if n == 0 then x else Shr(x / 2, n - 1)
  }

  /** The low `n` bits of `x`. */
  function Low(x: nat, n: nat): nat {
    if n == 0 then 0 else 2 * Low(x / 2, n - 1) + x % 2
  }

  /** Bitwise or, from the least significant bit up. */
  function Or(a: nat, b: nat): nat
    decreases a + b
  {
    if a == 0 && b == 0 then 0
    else 2 * Or(a / 2, b / 2) + (if a % 2 == 1 || b % 2 == 1 then 1 else 0)
  }

  /** Bitwise exclusive or, from the least significant bit up. */
  function Xor(a: nat, b: nat): nat
    decreases a + b
  {
    if a == 0 && b == 0 then 0 else 2 * Xor(a / 2, b / 2) + (a + b) % 2
  }

  lemma {:induction false} XorBound(a: nat, b: nat, bits: nat)
    requires a < Shl(1, bits) && b < Shl(1, bits)
    ensures Xor(a, b) < Shl(1, bits)
    decreases a + b
  {
    if a != 0 || b != 0 {
      XorBound(a / 2, b / 2, bits - 1);
    }
  }

  lemma XorHalves(a: nat, b: nat)
    ensures Xor(a, b) / 2 == Xor(a / 2, b / 2) && Xor(a, b) % 2 == (a + b) % 2
  {
  }

  lemma SameHalves(y: nat, a: nat, x: nat, b: nat)
    requires y / 2 == a / 2 && y % 2 == (x + b) % 2 && x % 2 == (a + b) % 2
    ensures y == a
  {
  }

  lemma {:induction false} XorCancels(a: nat, b: nat)
    ensures Xor(Xor(a, b), b) == a
    decreases a + b
  {
    if a != 0 || b != 0 {
      XorHalves(a, b);
      XorHalves(Xor(a, b), b);
      XorCancels(a / 2, b / 2);
      SameHalves(Xor(Xor(a, b), b), a, Xor(a, b), b);
    }
  }

  lemma {:induction false} XorSwap(a: nat, b: nat)
    ensures Xor(a, b) == Xor(b, a)
    decreases a + b
  {
    if a != 0 || b != 0 {
      XorSwap(a / 2, b / 2);
    }
  }

  lemma {:induction false} XorZero(a: nat)
    ensures Xor(a, 0) == a
  {
    if a != 0 {
      XorZero(a / 2);
    }
  }

  lemma {:induction false} OrZero(a: nat)
    ensures Or(a, 0) == a && Or(0, a) == a
  {
    if a != 0 {
      OrZero(a / 2);
    }
  }

  /** Operands that share no bit add. */
  lemma {:induction false} OrIsSum(low: nat, high: nat, bits: nat)
    requires low < Shl(1, bits)
    ensures Or(low, Shl(high, bits)) == low + Shl(high, bits)
    ensures Or(Shl(high, bits), low) == low + Shl(high, bits)
    decreases bits
  {
    if bits == 0 {
      OrZero(high);
    } else {
      OrIsSum(low / 2, high, bits - 1);
    }
  }

  // ---------------------------------------------------------------- values

  /** `x * 256^n`: `x` moved left by `n` bytes. */
  function ShiftBytes(x: int, n: nat): (r: int)
    ensures x >= 1 ==> r >= 1
    ensures x == 0 ==> r == 0
  {
    if n == 0 then x else 256 * ShiftBytes(x, n - 1)
  }

  lemma {:induction false} ShiftBytesSum(x: int, y: int, n: nat)
    ensures ShiftBytes(x + y, n) == ShiftBytes(x, n) + ShiftBytes(y, n)
  {
    if n > 0 {
      ShiftBytesSum(x, y, n - 1);
    }
  }

  lemma {:induction false} ShiftBytesMonotone(x: int, y: int, n: nat)
    requires x <= y
    ensures ShiftBytes(x, n) <= ShiftBytes(y, n)
  {
    if n > 0 {
      ShiftBytesMonotone(x, y, n - 1);
    }
  }

  lemma {:induction false} ShiftBytesInside(x: int, n: nat)
    ensures ShiftBytes(256 * x, n) == ShiftBytes(x, n + 1)
  {
    if n > 0 {
      ShiftBytesInside(x, n - 1);
    }
  }

  lemma {:induction false} ShiftBytesTwice(x: int, m: nat, n: nat)
    ensures ShiftBytes(ShiftBytes(x, m), n) == ShiftBytes(x, m + n)
  {
    if n > 0 {
      ShiftBytesTwice(x, m, n - 1);
    }
  }

  lemma {:induction false} ShiftBytesIsProduct(x: int, n: nat)
    ensures ShiftBytes(x, n) == x * ShiftBytes(1, n)
  {
    if n > 0 {
      ShiftBytesIsProduct(x, n - 1);
      assert 256 * (x * ShiftBytes(1, n - 1)) == x * (256 * ShiftBytes(1, n - 1));
    }
  }

  lemma ConcatAssoc(a: Bytes, b: Bytes, c: Bytes)
    ensures a + (b + c) == a + b + c
  {
  }

  /** The number a string of digits stands for, most significant first; a digit may exceed 255. */
  function BigEndian(s: seq<int>): int {
    if s == [] then 0 else 256 * BigEndian(s[..|s| - 1]) + s[|s| - 1]
  }

  lemma {:induction false} BigEndianConcat(a: seq<int>, b: seq<int>)
    ensures BigEndian(a + b) == ShiftBytes(BigEndian(a), |b|) + BigEndian(b)
  {
    if b == [] {
      assert a + b == a;
    } else {
      var b' := b[..|b| - 1];
      assert (a + b)[..|a + b| - 1] == a + b';
      BigEndianConcat(a, b');
    }
  }

  lemma BigEndianSnoc(s: seq<int>, x: int)
    ensures BigEndian(s + [x]) == 256 * BigEndian(s) + x
  {
    assert (s + [x])[..|s|] == s;
  }

  lemma BigEndianCons(x: int, s: seq<int>)
    ensures BigEndian([x] + s) == ShiftBytes(x, |s|) + BigEndian(s)
  {
    BigEndianConcat([x], s);
    BigEndianSnoc([], x);
    assert [] + [x] == [x] && BigEndian([]) == 0;
    hide BigEndian, ShiftBytes;
  }

  lemma {:induction false} BigEndianBound(s: Bytes)
    ensures 0 <= BigEndian(s) < ShiftBytes(1, |s|)
  {
    if s != [] {
      BigEndianBound(s[..|s| - 1]);
    }
  }

  /** Equal-length byte strings are equal exactly when their values are. */
  lemma {:induction false} BigEndianInjective(a: Bytes, b: Bytes)
    requires |a| == |b|
    requires BigEndian(a) == BigEndian(b)
    ensures a == b
  {
    if a != [] {
      var a', b' := a[..|a| - 1], b[..|b| - 1];
      BigEndianInjective(a', b');
      assert a == a' + [a[|a| - 1]] && b == b' + [b[|b| - 1]];
    }
  }

  lemma {:induction false} BigEndianZero(s: seq<nat>)
    ensures BigEndian(s) >= 0
    ensures BigEndian(s) == 0 <==> forall i :: 0 <= i < |s| ==> s[i] == 0
  {
    if s != [] {
      var s' := s[..|s| - 1];
      BigEndianZero(s');
      assert forall i :: 0 <= i < |s'| ==> s'[i] == s[i];
    }
  }

  /** The last `k` base-256 digits of `n`. */
  function Digits(n: nat, k: nat): (r: Bytes)
    ensures |r| == k
  {
    if k == 0 then [] else Digits(n / 256, k - 1) + [n % 256]
  }

  lemma {:induction false} DigitsValue(n: nat, k: nat)
    requires n < ShiftBytes(1, k)
    ensures BigEndian(Digits(n, k)) == n
  {
    if k > 0 {
      DigitsValue(n / 256, k - 1);
      BigEndianSnoc(Digits(n / 256, k - 1), n % 256);
    }
  }

  lemma {:induction false} DigitsOf(s: Bytes)
    ensures BigEndian(s) >= 0 && Digits(BigEndian(s), |s|) == s
  {
    BigEndianBound(s);
    if s != [] {
      var init, last := s[..|s| - 1], s[|s| - 1];
      DigitsOf(init);
      assert s == init + [last];
      BigEndianSnoc(init, last);
    }
  }

  lemma NextDigit(n: nat, k: nat)
    ensures Digits(n, k + 1) == Digits(n / 0x100, k) + [n % 0x100]
  {
  }

  lemma TwoDigits(n: nat)
    ensures Digits(n, 1) == [n % 0x100] && Digits(n, 2) == [n / 0x100 % 0x100, n % 0x100]
  {
    assert Digits(n, 0) == [] && Digits(n / 0x100, 0) == [];
    NextDigit(n, 0);
    NextDigit(n / 0x100, 0);
    NextDigit(n, 1);
  }

  lemma ThreeDigits(n: nat)
    ensures Digits(n, 3) == [n / 0x100 / 0x100 % 0x100, n / 0x100 % 0x100, n % 0x100]
  {
    hide Digits;
    TwoDigits(n / 0x100);
    NextDigit(n, 2);
  }

  /** The last one to four base-256 digits. */
  lemma DigitBytes(n: nat)
    requires n < 0x1_0000_0000
    ensures Digits(n, 1) == [n % 0x100] && Digits(n, 2) == [n / 0x100 % 0x100, n % 0x100]
    ensures Digits(n, 3) == [n / 0x1_0000 % 0x100, n / 0x100 % 0x100, n % 0x100]
    ensures Digits(n, 4) == [n / 0x100_0000, n / 0x1_0000 % 0x100, n / 0x100 % 0x100, n % 0x100]
  {
    hide Digits;
    TwoDigits(n);
    ThreeDigits(n);
    Quotients(n);
    ThreeDigits(n / 0x100);
    NextDigit(n, 3);
  }

  lemma Quotients(n: nat)
    ensures n / 0x100 / 0x100 == n / 0x1_0000 && n / 0x1_0000 / 0x100 == n / 0x100_0000
    ensures n < 0x1_0000_0000 ==> n / 0x100_0000 % 0x100 == n / 0x100_0000
  {
  }
}
