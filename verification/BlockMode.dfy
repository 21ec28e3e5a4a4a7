/** CBC with ciphertext stealing over an arbitrary 16-byte block permutation. */
module BlockMode {
  import opened Bytes

  const BLOCK: nat := 16

  type Block = b: Bytes | |b| == BLOCK witness [0, 0, 0, 0, 0, 0, 0, 0, 0, 0, 0, 0, 0, 0, 0, 0]

  /** The initial vector: sixteen zero bytes. */
  const ZERO: Block := Zeros(BLOCK)

  function Zeros(n: nat): (z: Bytes)
    ensures |z| == n
  {
    seq(n, _ => 0)
  }

  /** `e` and `d` undo each other on every block. */
  ghost predicate Inverses(e: Block -> Block, d: Block -> Block) {
    forall b: Block :: d(e(b)) == b && e(d(b)) == b
  }

  function ZeroPad(s: Bytes, padSize: nat): (r: Bytes)
    requires padSize > 0
    ensures |r| % padSize == 0
    ensures |s| <= |r| < |s| + padSize && s <= r
  {
    var padLen := (padSize - |s| % padSize) % padSize;
    PadLength(|s|, padSize);
    s + Zeros(padLen)
  }

  lemma PadLength(n: nat, pad: nat)
    requires pad > 0
    ensures (n + (pad - n % pad) % pad) % pad == 0
  {
    var q := n / pad;
    assert n == q * pad + n % pad;
    if n % pad != 0 {
      DivModUnique(pad - n % pad, 0, pad - n % pad, pad);
      DivModUnique(n + (pad - n % pad), q + 1, 0, pad);
    } else {
      DivModUnique(pad, 1, 0, pad);
    }
  }

  function XorByte(a: Byte, b: Byte): Byte {
    assert Shl(1, 8) == 256;
    XorBound(a, b, 8);
    Xor(a, b)
  }

  function XorBytes(a: Bytes, b: Bytes): (r: Bytes)
    requires |a| == |b|
    ensures |r| == |a|
  {
    seq(|a|, i requires 0 <= i < |a| => XorByte(a[i], b[i]))
  }

  lemma XorBytesCancels(a: Bytes, b: Bytes)
    requires |a| == |b|
    ensures XorBytes(XorBytes(a, b), b) == a
  {
    forall i | 0 <= i < |a| ensures XorBytes(XorBytes(a, b), b)[i] == a[i] {
      XorCancels(a[i], b[i]);
    }
  }

  lemma XorBytesZero(a: Bytes)
    ensures XorBytes(a, Zeros(|a|)) == a
  {
    forall i | 0 <= i < |a| ensures XorBytes(a, Zeros(|a|))[i] == a[i] {
      XorZero(a[i]);
    }
  }

  lemma XorBytesConcat(a: Bytes, a': Bytes, b: Bytes, b': Bytes)
    requires |a| == |b| && |a'| == |b'|
    ensures XorBytes(a + a', b + b') == XorBytes(a, b) + XorBytes(a', b')
  {
  }

  /** CBC over whole blocks. */
  function CbcEncrypt(e: Block -> Block, iv: Block, p: Bytes): (c: Bytes)
    requires |p| % BLOCK == 0
    ensures |c| == |p|
    decreases |p|
  {
    if p == [] then []
    else
      var b := e(XorBytes(p[..BLOCK], iv));
      b + CbcEncrypt(e, b, p[BLOCK..])
  }

  /** `basic_encrypt`: CBC of the padded text, the last two blocks swapped and the final one cut. */
  function BasicEncrypt(e: Block -> Block, p: Bytes): (c: Bytes)
    requires |p| >= BLOCK
    ensures |c| == |p|
  {
    var ctext := CbcEncrypt(e, ZERO, ZeroPad(p, BLOCK));
    if |p| > BLOCK then SwapAndCut(ctext, |p|) else ctext
  }

  /** The last two blocks swapped, the new last one cut to the text's length. */
  function SwapAndCut(ctext: Bytes, len: nat): (c: Bytes)
    requires |ctext| >= 32 && |ctext| % BLOCK == 0
    requires |ctext| - BLOCK < len <= |ctext|
    ensures |c| == len
  {
    var n := |ctext|;
    var lastLen := if len % BLOCK == 0 then BLOCK else len % BLOCK;
    ctext[..n - 32] + ctext[n - 16..] + ctext[n - 32..n - 16][..lastLen]
  }

  /** Ciphertext stealing block by block: what `BasicEncrypt` gets by slicing, for any vector. */
  function CtsEncrypt(e: Block -> Block, iv: Block, p: Bytes): (c: Bytes)
    requires |p| > BLOCK
    ensures |c| == |p|
    decreases |p|
  {
    var b := e(XorBytes(p[..BLOCK], iv));
    if |p| > 2 * BLOCK then
      b + CtsEncrypt(e, b, p[BLOCK..])
    else
      var last := p[BLOCK..] + Zeros(2 * BLOCK - |p|);
      e(XorBytes(last, b)) + b[..|p| - BLOCK]
  }

  function CtsDecrypt(d: Block -> Block, iv: Block, c: Bytes): (p: Bytes)
    requires |c| > BLOCK
    ensures |p| == |c|
    decreases |c|
  {
    if |c| > 2 * BLOCK then
      XorBytes(d(c[..BLOCK]), iv) + CtsDecrypt(d, c[..BLOCK], c[BLOCK..])
    else
      var b := d(c[..BLOCK]);
      var lastLen := |c| - BLOCK;
      XorBytes(d(c[BLOCK..] + b[lastLen..]), iv) + XorBytes(b[..lastLen], c[BLOCK..])
  }

  function BasicDecryption(d: Block -> Block, c: Bytes): (p: Bytes)
    requires |c| >= BLOCK
    ensures |p| == |c|
  {
    if |c| == BLOCK then XorBytes(d(c), ZERO) else CtsDecrypt(d, ZERO, c)
  }

  /** The first block at `at`, with more than one to come. */
  lemma BlockAt(d: Block -> Block, prev: Block, c: Bytes, at: nat)
    requires at + 2 * BLOCK < |c|
    ensures var b: Block := c[at..at + BLOCK];
      CtsDecrypt(d, prev, c[at..]) == XorBytes(d(b), prev) + CtsDecrypt(d, b, c[at + BLOCK..])
  {
    var rest := c[at..];
    assert rest[..BLOCK] == c[at..at + BLOCK] && rest[BLOCK..] == c[at + BLOCK..];
    hide XorBytes;
  }

  method DecryptBlocks(d: Block -> Block, c: Bytes, blocks: nat) returns (p: Bytes, prev: Block)
    requires (blocks + 1) * BLOCK < |c|
    ensures p + CtsDecrypt(d, prev, c[blocks * BLOCK..]) == CtsDecrypt(d, ZERO, c)
  {
    hide CtsDecrypt, XorBytes;
    p, prev := [], ZERO;
    assert c[0..] == c;
    for i := 0 to blocks
      invariant p + CtsDecrypt(d, prev, c[i * BLOCK..]) == CtsDecrypt(d, ZERO, c)
    {
      BlockAt(d, prev, c, i * BLOCK);
      var b: Block := c[i * BLOCK..(i + 1) * BLOCK];
      ConcatAssoc(p, XorBytes(d(b), prev), CtsDecrypt(d, b, c[(i + 1) * BLOCK..]));
      p := p + XorBytes(d(b), prev);
      prev := b;
    }
  }

  /** The last two blocks: the stolen bytes complete the last but one. */
  method DecryptLast(d: Block -> Block, prev: Block, c: Bytes) returns (p: Bytes)
    requires BLOCK < |c| <= 2 * BLOCK
    ensures p == CtsDecrypt(d, prev, c)
  {
    hide XorBytes;
    var last := c[BLOCK..];
    var b := d(c[..BLOCK]);
    var lastPlaintext := XorBytes(b[..|last|], last);
    var omitted := b[|last|..];
    p := XorBytes(d(last + omitted), prev);
    p := p + lastPlaintext;
  }

  /** `basic_decrypt`: the loop over all but the last two blocks, then the stolen bytes. */
  method BasicDecrypt(d: Block -> Block, c: Bytes) returns (p: Bytes)
    requires |c| >= BLOCK
    ensures p == BasicDecryption(d, c)
  {
    if |c| == BLOCK {
      return XorBytes(d(c), ZERO);
    }
    hide CtsDecrypt, XorBytes;
    var blocks := (|c| + BLOCK - 1) / BLOCK;
    var prev: Block;
    p, prev := DecryptBlocks(d, c, blocks - 2);
    var last := DecryptLast(d, prev, c[(blocks - 2) * BLOCK..]);
    p := p + last;
  }

  lemma SwapAndCutPrefix(b: Block, ctext: Bytes, len: nat)
    requires |ctext| >= 32 && |ctext| % BLOCK == 0
    requires |ctext| - BLOCK < len <= |ctext|
    ensures SwapAndCut(b + ctext, BLOCK + len) == b + SwapAndCut(ctext, len)
  {
    var n, whole := |ctext|, b + ctext;
    assert whole[..|whole| - 32] == b + ctext[..n - 32];
    assert whole[|whole| - 16..] == ctext[n - 16..];
    assert whole[|whole| - 32..|whole| - 16] == ctext[n - 32..n - 16];
  }

  lemma ZeroPadPastFirstBlock(p: Bytes)
    requires |p| > BLOCK
    ensures var padded := ZeroPad(p, BLOCK);
            && |padded| > BLOCK
            && padded[..BLOCK] == p[..BLOCK]
            && padded[BLOCK..] == ZeroPad(p[BLOCK..], BLOCK)
  {
    assert (|p| - BLOCK) % BLOCK == |p| % BLOCK;
    assert ZeroPad(p, BLOCK)[BLOCK..] == p[BLOCK..] + Zeros((BLOCK - |p| % BLOCK) % BLOCK);
  }

  lemma ZeroPadPartialBlock(p: Bytes)
    requires 0 < |p| <= BLOCK
    ensures ZeroPad(p, BLOCK) == p + Zeros(BLOCK - |p|)
  {
  }

  lemma CbcOneBlock(e: Block -> Block, iv: Block, p: Block)
    ensures CbcEncrypt(e, iv, p) == e(XorBytes(p, iv))
  {
    assert p[..BLOCK] == p && p[BLOCK..] == [];
  }

  lemma CbcFirstBlock(e: Block -> Block, iv: Block, p: Bytes)
    requires |p| > BLOCK
    ensures var b := e(XorBytes(p[..BLOCK], iv));
      CbcEncrypt(e, iv, ZeroPad(p, BLOCK)) == b + CbcEncrypt(e, b, ZeroPad(p[BLOCK..], BLOCK))
  {
    ZeroPadPastFirstBlock(p);
    hide ZeroPad, XorBytes;
  }

  /** Slicing the CBC text is the same as stealing block by block. */
  lemma {:induction false} SlicingIsStealing(e: Block -> Block, iv: Block, p: Bytes)
    requires |p| > BLOCK
    ensures SwapAndCut(CbcEncrypt(e, iv, ZeroPad(p, BLOCK)), |p|) == CtsEncrypt(e, iv, p)
    decreases |p|
  {
    hide CbcEncrypt, SwapAndCut, XorBytes, ZeroPad;
    CbcFirstBlock(e, iv, p);
    var b := e(XorBytes(p[..BLOCK], iv));
    var ctext := CbcEncrypt(e, b, ZeroPad(p[BLOCK..], BLOCK));
    if |p| > 2 * BLOCK {
      SlicingIsStealing(e, b, p[BLOCK..]);
      SwapAndCutPrefix(b, ctext, |p| - BLOCK);
    } else {
      ZeroPadPartialBlock(p[BLOCK..]);
      CbcOneBlock(e, b, ZeroPad(p[BLOCK..], BLOCK));
      SwapTwo(b, ctext, |p|);
    }
  }

  lemma SwapTwo(b: Block, b': Block, len: nat)
    requires BLOCK < len <= 2 * BLOCK
    ensures SwapAndCut(b + b', len) == b' + b[..len - BLOCK]
  {
  }

  lemma {:induction false} CtsDecryptUndoes(e: Block -> Block, d: Block -> Block, iv: Block, p: Bytes)
    requires Inverses(e, d)
    requires |p| > BLOCK
    ensures CtsDecrypt(d, iv, CtsEncrypt(e, iv, p)) == p
    decreases |p|
  {
    var c := CtsEncrypt(e, iv, p);
    var x := XorBytes(p[..BLOCK], iv);
    var b := e(x);
    XorBytesCancels(p[..BLOCK], iv);
    if |p| > 2 * BLOCK {
      assert c[..BLOCK] == b && c[BLOCK..] == CtsEncrypt(e, b, p[BLOCK..]);
      CtsDecryptUndoes(e, d, b, p[BLOCK..]);
    } else {
      var n := |p| - BLOCK;
      var tail, pad := p[BLOCK..], Zeros(BLOCK - n);
      var y := XorBytes(tail + pad, b);
      assert c[..BLOCK] == e(y) && c[BLOCK..] == b[..n];
      assert b == b[..n] + b[n..];
      XorBytesConcat(tail, pad, b[..n], b[n..]);
      assert y[..n] == XorBytes(tail, b[..n]) && y[n..] == XorBytes(pad, b[n..]);
      XorBytesCancels(tail, b[..n]);
      ZeroXor(b[n..]);
    }
  }

  lemma ZeroXor(a: Bytes)
    ensures XorBytes(Zeros(|a|), a) == a
  {
    forall i | 0 <= i < |a| ensures XorBytes(Zeros(|a|), a)[i] == a[i] {
      XorSwap(0, a[i]);
      XorZero(a[i]);
    }
  }

  lemma {:induction false} CtsEncryptUndoes(e: Block -> Block, d: Block -> Block, iv: Block, c: Bytes)
    requires Inverses(e, d)
    requires |c| > BLOCK
    ensures CtsEncrypt(e, iv, CtsDecrypt(d, iv, c)) == c
    decreases |c|
  {
    var p := CtsDecrypt(d, iv, c);
    if |c| > 2 * BLOCK {
      var b := c[..BLOCK];
      XorBytesCancels(d(b), iv);
      assert p[..BLOCK] == XorBytes(d(b), iv) && p[BLOCK..] == CtsDecrypt(d, b, c[BLOCK..]);
      CtsEncryptUndoes(e, d, b, c[BLOCK..]);
    } else {
      var b := d(c[..BLOCK]);
      var n := |c| - BLOCK;
      var tail := c[BLOCK..];
      var first := tail + b[n..];
      XorBytesCancels(d(first), iv);
      assert p[..BLOCK] == XorBytes(d(first), iv) && p[BLOCK..] == XorBytes(b[..n], tail);
      XorBytesConcat(p[BLOCK..], Zeros(BLOCK - n), tail, b[n..]);
      XorBytesCancels(b[..n], tail);
      ZeroXor(b[n..]);
      assert b == b[..n] + b[n..];
    }
  }

  /** Decryption undoes encryption for every text of at least one block. */
  lemma DecryptUndoesEncrypt(e: Block -> Block, d: Block -> Block, p: Bytes)
    requires Inverses(e, d)
    requires |p| >= BLOCK
    ensures BasicDecryption(d, BasicEncrypt(e, p)) == p
  {
    if |p| == BLOCK {
      SingleBlock(e, p);
      XorBytesZero(p);
      assert XorBytes(d(e(p)), ZERO) == p;
    } else {
      SlicingIsStealing(e, ZERO, p);
      CtsDecryptUndoes(e, d, ZERO, p);
    }
  }

  /** Encryption undoes decryption too, so each is a bijection on the strings of one length. */
  lemma EncryptUndoesDecrypt(e: Block -> Block, d: Block -> Block, c: Bytes)
    requires Inverses(e, d)
    requires |c| >= BLOCK
    ensures BasicEncrypt(e, BasicDecryption(d, c)) == c
  {
    if |c| == BLOCK {
      XorBytesZero(d(c));
      SingleBlock(e, d(c));
    } else {
      SlicingIsStealing(e, ZERO, CtsDecrypt(d, ZERO, c));
      CtsEncryptUndoes(e, d, ZERO, c);
    }
  }

  lemma SingleBlock(e: Block -> Block, p: Block)
    ensures BasicEncrypt(e, p) == e(p)
  {
    var padded := ZeroPad(p, BLOCK);
    assert padded == p && padded[..BLOCK] == p && padded[BLOCK..] == [];
    XorBytesZero(p);
  }

  // ---------------------------------------------------------------- block by block

  /** Each block of CBC is its text, masked with the block before or the vector, enciphered. */
  lemma {:induction false} CbcBlock(e: Block -> Block, iv: Block, p: Bytes, i: nat)
    requires |p| % 16 == 0 && 16 * (i + 1) <= |p|
    ensures var c := CbcEncrypt(e, iv, p);
      c[16 * i..16 * (i + 1)]
      == e(XorBytes(p[16 * i..16 * (i + 1)], if i == 0 then iv else c[16 * (i - 1)..16 * i]))
    decreases i
  {
    var b, c := e(XorBytes(p[..BLOCK], iv)), CbcEncrypt(e, iv, p);
    var rest := CbcEncrypt(e, b, p[BLOCK..]);
    assert c == b + rest;
    hide XorBytes;
    if i > 0 {
      CbcBlock(e, b, p[BLOCK..], i - 1);
      hide CbcEncrypt;
      assert p[BLOCK..][16 * (i - 1)..16 * i] == p[16 * i..16 * (i + 1)];
      assert c[16 * i..16 * (i + 1)] == rest[16 * (i - 1)..16 * i];
      if i == 1 {
        assert c[..16] == b;
      } else {
        assert c[16 * (i - 1)..16 * i] == rest[16 * (i - 2)..16 * (i - 1)];
      }
    }
  }

  lemma {:induction false} XorBit(a: nat, b: nat, k: nat)
    ensures Shr(Xor(a, b), k) % 2 == (Shr(a, k) + Shr(b, k)) % 2
    decreases k
  {
    XorHalves(a, b);
    if k > 0 {
      XorBit(a / 2, b / 2, k - 1);
    }
  }

  /** Masking works bit by bit. */
  lemma XorBytesBit(a: Bytes, b: Bytes, i: nat, k: nat)
    requires |a| == |b| && i < |a|
    ensures Shr(XorBytes(a, b)[i], k) % 2 == (Shr(a[i], k) + Shr(b[i], k)) % 2
  {
    XorBit(a[i], b[i], k);
  }
}
