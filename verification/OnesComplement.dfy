/** Adding byte strings as big-endian ones' complement numbers: carries go round the end. */
module OnesComplement {
  import opened Bytes

  function Sum(v: seq<nat>): nat {
    if v == [] then 0 else v[0] + Sum(v[1..])
  }

  predicate Settled(v: seq<nat>) {
    forall i :: 0 <= i < |v| ==> v[i] < 256
  }

  /** One pass: each digit keeps its low byte and takes the carry of the digit to its right. */
  function CarryStep(v: seq<nat>): (w: seq<nat>)
    ensures |w| == |v|
  {
    seq(|v|, i requires 0 <= i < |v| => v[if i + 1 < |v| then i + 1 else 0] / 256 + v[i] % 256)
  }

  function Carries(v: seq<nat>): (c: seq<nat>)
    ensures |c| == |v|
  {
    seq(|v|, i requires 0 <= i < |v| => v[i] / 256)
  }

  function LowBytes(v: seq<nat>): (c: seq<nat>)
    ensures |c| == |v|
  {
    seq(|v|, i requires 0 <= i < |v| => v[i] % 256)
  }

  function Plus(a: seq<nat>, b: seq<nat>): (c: seq<nat>)
    requires |a| == |b|
    ensures |c| == |a|
  {
    seq(|a|, i requires 0 <= i < |a| => a[i] + b[i])
  }

  lemma CarryStepParts(v: seq<nat>)
    requires v != []
    ensures var c := Carries(v); CarryStep(v) == Plus(c[1..] + [c[0]], LowBytes(v))
  {
  }

  lemma {:induction false} SumPlus(a: seq<nat>, b: seq<nat>)
    requires |a| == |b|
    ensures Sum(Plus(a, b)) == Sum(a) + Sum(b)
  {
    if a != [] {
      assert Plus(a, b)[1..] == Plus(a[1..], b[1..]);
      SumPlus(a[1..], b[1..]);
    }
  }

  lemma {:induction false} SumConcat(a: seq<nat>, b: seq<nat>)
    ensures Sum(a + b) == Sum(a) + Sum(b)
  {
    if a == [] {
      assert a + b == b;
    } else {
      assert (a + b)[1..] == a[1..] + b;
      SumConcat(a[1..], b);
    }
  }

  lemma {:induction false} SumParts(v: seq<nat>)
    ensures Sum(v) == 256 * Sum(Carries(v)) + Sum(LowBytes(v))
  {
    if v != [] {
      assert Carries(v)[1..] == Carries(v[1..]) && LowBytes(v)[1..] == LowBytes(v[1..]);
      SumParts(v[1..]);
    }
  }

  lemma {:induction false} SumPositive(v: seq<nat>, i: nat)
    requires i < |v| && v[i] > 0
    ensures Sum(v) > 0
  {
    if i > 0 {
      SumPositive(v[1..], i - 1);
    }
  }

  /** A pass takes 255 off the element sum for every carry, so the passes end. */
  lemma CarryStepShrinks(v: seq<nat>)
    requires v != []
    ensures Sum(CarryStep(v)) == Sum(v) - 255 * Sum(Carries(v))
    ensures !Settled(v) ==> Sum(CarryStep(v)) < Sum(v)
  {
    var c := Carries(v);
    CarryStepParts(v);
    SumPlus(c[1..] + [c[0]], LowBytes(v));
    SumConcat(c[1..], [c[0]]);
    SumParts(v);
    if !Settled(v) {
      var i :| 0 <= i < |v| && v[i] >= 256;
      SumPositive(c, i);
    }
  }

  /** What the carry loop leaves. */
  function Settle(v: seq<nat>): (w: seq<nat>)
    ensures |w| == |v| && Settled(w)
    decreases Sum(v)
  {
    if Settled(v) then v
    else
      CarryStepShrinks(v);
      Settle(CarryStep(v))
  }

  function Add(a: Bytes, b: Bytes): (c: Bytes)
    requires |a| == |b|
    ensures |c| == |a|
  {
    var w := Settle(Plus(a, b));
    assert forall i :: 0 <= i < |w| ==> w[i] < 256;
    w
  }

  /** `add_ones_complement`. */
  method AddOnesComplement(a: Bytes, b: Bytes) returns (c: Bytes)
    requires |a| == |b|
    ensures c == Add(a, b)
  {
    var v: seq<nat> := Plus(a, b);
    while exists i :: 0 <= i < |v| && v[i] >= 256
      invariant |v| == |a|
      invariant Settle(v) == Settle(Plus(a, b))
      decreases Sum(v)
    {
      CarryStepShrinks(v);
      v := CarryStep(v);
    }
    assert Settled(v);
    c := v;
  }

  // ---------------------------------------------------------------- meaning

  /** All ones, `256^n - 1`: the modulus of ones' complement addition on `n` bytes. */
  function Modulus(n: nat): (m: nat)
    requires n > 0
    ensures m >= 255
  {
    assert ShiftBytes(1, n - 1) >= 1;
    ShiftBytes(1, n) - 1
  }

  /** `n` bytes to the left is no distance at all. */
  lemma WholeTurn(x: int, c: int, n: nat)
    requires n > 0
    ensures (x + ShiftBytes(c, n)) % Modulus(n) == (x + c) % Modulus(n)
  {
    ShiftBytesIsProduct(c, n);
    assert c * ShiftBytes(1, n) == c + c * Modulus(n);
    ModPlusMultiple(x + c, c, Modulus(n));
  }

  lemma {:induction false} ValuePlus(a: seq<nat>, b: seq<nat>)
    requires |a| == |b|
    ensures BigEndian(Plus(a, b)) == BigEndian(a) + BigEndian(b)
  {
    if a != [] {
      var n := |a| - 1;
      assert Plus(a, b)[..n] == Plus(a[..n], b[..n]);
      ValuePlus(a[..n], b[..n]);
    }
  }

  lemma {:induction false} ValueParts(v: seq<nat>)
    ensures BigEndian(v) == 256 * BigEndian(Carries(v)) + BigEndian(LowBytes(v))
  {
    if v != [] {
      var n := |v| - 1;
      assert Carries(v)[..n] == Carries(v[..n]) && LowBytes(v)[..n] == LowBytes(v[..n]);
      ValueParts(v[..n]);
    }
  }

  /** A pass moves the first digit's carry round the end, and no other out of its place. */
  lemma CarryStepValue(v: seq<nat>)
    requires v != []
    ensures BigEndian(CarryStep(v)) == BigEndian(v) - ShiftBytes(v[0] / 256, |v|) + v[0] / 256
  {
    var c := Carries(v);
    var rest := c[1..];
    CarryStepParts(v);
    ValuePlus(rest + [c[0]], LowBytes(v));
    ValueParts(v);
    assert c == [c[0]] + rest;
    BigEndianCons(c[0], rest);
    BigEndianSnoc(rest, c[0]);
  }

  lemma CarryStepCongruent(v: seq<nat>)
    requires v != []
    ensures BigEndian(CarryStep(v)) % Modulus(|v|) == BigEndian(v) % Modulus(|v|)
  {
    CarryStepValue(v);
    CarryRound(BigEndian(v), BigEndian(CarryStep(v)), v[0] / 256, |v|);
  }

  lemma CarryRound(x: int, y: int, c: int, n: nat)
    requires n > 0 && y == x - ShiftBytes(c, n) + c
    ensures y % Modulus(n) == x % Modulus(n)
  {
    WholeTurn(y - c, c, n);
  }

  lemma CarryStepZero(v: seq<nat>)
    requires v != []
    ensures BigEndian(CarryStep(v)) == 0 <==> BigEndian(v) == 0
  {
    var w := CarryStep(v);
    BigEndianZero(v);
    BigEndianZero(w);
    if BigEndian(w) == 0 {
      forall i | 0 <= i < |v| ensures v[i] == 0 {
        var j := if i == 0 then |v| - 1 else i - 1;
        assert w[i] == 0 && w[j] == 0;
      }
    }
  }

  lemma {:induction false} SettleValue(v: seq<nat>)
    requires v != []
    ensures BigEndian(Settle(v)) % Modulus(|v|) == BigEndian(v) % Modulus(|v|)
    ensures BigEndian(Settle(v)) == 0 <==> BigEndian(v) == 0
    decreases Sum(v)
  {
    if !Settled(v) {
      CarryStepShrinks(v);
      CarryStepCongruent(v);
      CarryStepZero(v);
      SettleValue(CarryStep(v));
    }
  }

  /** The sum is congruent to the sum of the values, and zero only when both operands are. */
  lemma AddValue(a: Bytes, b: Bytes)
    requires |a| == |b| > 0
    ensures BigEndian(Add(a, b)) % Modulus(|a|) == (BigEndian(a) + BigEndian(b)) % Modulus(|a|)
    ensures BigEndian(Add(a, b)) == 0 <==> BigEndian(a) == 0 && BigEndian(b) == 0
  {
    SettleValue(Plus(a, b));
    ValuePlus(a, b);
    BigEndianBound(a);
    BigEndianBound(b);
  }

  /** Congruence and being zero or not determine a byte string of a given length. */
  lemma SumIsUnique(a: Bytes, b: Bytes)
    requires |a| == |b| > 0
    requires BigEndian(a) % Modulus(|a|) == BigEndian(b) % Modulus(|a|)
    requires BigEndian(a) == 0 <==> BigEndian(b) == 0
    ensures a == b
  {
    var m := Modulus(|a|);
    BigEndianBound(a);
    BigEndianBound(b);
    Residue(BigEndian(a), m);
    Residue(BigEndian(b), m);
    BigEndianInjective(a, b);
  }

  lemma Residue(x: nat, m: nat)
    requires 0 < m && x <= m
    ensures x % m == if x == m then 0 else x
  {
    DivModUnique(x, if x == m then 1 else 0, if x == m then 0 else x, m);
  }
}
