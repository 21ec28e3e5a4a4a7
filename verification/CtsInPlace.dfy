/** Ciphertext stealing written block by block into one output buffer, from any initial vector. */
module CtsInPlace {
  import opened Options
  import opened Bytes
  import opened BlockMode

  method CopyInto(out: array<Byte>, at: nat, s: Bytes)
    requires at + |s| <= out.Length
    modifies out
    ensures out[..at] == old(out[..at])
    ensures out[at..at + |s|] == s
    ensures out[at + |s|..] == old(out[at + |s|..])
  {
    forall k | 0 <= k < |s| {
      out[at + k] := s[k];
    }
  }

  /** The blocks before the last two, in the plain chaining order. */
  method EncryptPrefix(e: Block -> Block, iv: Block, p: Bytes, blocks: nat, out: array<Byte>) returns (prev: Block)
    requires out.Length == |p| > (blocks + 1) * BLOCK
    modifies out
    ensures out[..blocks * BLOCK] + CtsEncrypt(e, prev, p[blocks * BLOCK..]) == CtsEncrypt(e, iv, p)
  {
    prev := iv;
    assert p[0..] == p;
    for i := 0 to blocks
      invariant out[..i * BLOCK] + CtsEncrypt(e, prev, p[i * BLOCK..]) == CtsEncrypt(e, iv, p)
    {
      var at := i * BLOCK;
      var block := e(XorBytes(p[at..at + BLOCK], prev));
      ghost var rest := p[at..];
      assert rest[..BLOCK] == p[at..at + BLOCK] && rest[BLOCK..] == p[at + BLOCK..];
      CopyInto(out, at, block);
      ConcatAssoc(out[..at], block, CtsEncrypt(e, block, p[at + BLOCK..]));
      assert out[..at + BLOCK] == out[..at] + block;
      prev := block;
    }
  }

  /** The last two blocks, swapped, the second cut to what is left of the buffer. */
  method EncryptTail(e: Block -> Block, prev: Block, p: Bytes, prefix: nat, out: array<Byte>)
    requires out.Length == |p| && prefix + BLOCK < |p| <= prefix + 2 * BLOCK
    modifies out
    ensures out[..] == old(out[..prefix]) + CtsEncrypt(e, prev, p[prefix..])
  {
    var n2 := e(XorBytes(p[prefix..prefix + BLOCK], prev));
    var last := p[prefix + BLOCK..];
    var n1 := e(XorBytes(last + Zeros(BLOCK - |last|), n2));
    ghost var rest := p[prefix..];
    assert rest[..BLOCK] == p[prefix..prefix + BLOCK] && rest[BLOCK..] == last;
    ghost var done := out[..prefix];
    CopyInto(out, prefix, n1);
    assert out[..prefix + BLOCK] == done + n1;
    CopyInto(out, prefix + BLOCK, n2[..|last|]);
    assert out[..] == out[..prefix + BLOCK] + n2[..|last|];
    ConcatAssoc(done, n1, n2[..|last|]);
  }

  /** `encrypt_with`: a text of at most one block is padded and cut without the vector. */
  method EncryptWith(e: Block -> Block, iv: Block, p: Bytes) returns (r: Option<Bytes>)
    ensures p == [] ==> r == None
    ensures 0 < |p| <= BLOCK ==> r == Some(e(p + Zeros(BLOCK - |p|))[..|p|])
    ensures |p| > BLOCK ==> r == Some(CtsEncrypt(e, iv, p))
  {
    if p == [] {
      return None;
    }
    var blocks := (|p| + BLOCK - 1) / BLOCK;
    if blocks == 1 {
      return Some(e(p + Zeros(BLOCK - |p|))[..|p|]);
    }
    var out := new Byte[|p|](_ => 0);
    var prev := EncryptPrefix(e, iv, p, blocks - 2, out);
    EncryptTail(e, prev, p, (blocks - 2) * BLOCK, out);
    r := Some(out[..]);
  }

  method DecryptPrefix(d: Block -> Block, iv: Block, c: Bytes, blocks: nat, out: array<Byte>) returns (prev: Block)
    requires out.Length == |c| > (blocks + 1) * BLOCK
    modifies out
    ensures out[..blocks * BLOCK] + CtsDecrypt(d, prev, c[blocks * BLOCK..]) == CtsDecrypt(d, iv, c)
  {
    prev := iv;
    assert c[0..] == c;
    for i := 0 to blocks
      invariant out[..i * BLOCK] + CtsDecrypt(d, prev, c[i * BLOCK..]) == CtsDecrypt(d, iv, c)
    {
      var at := i * BLOCK;
      var next: Block := c[at..at + BLOCK];
      var block := XorBytes(d(next), prev);
      ghost var rest := c[at..];
      assert rest[..BLOCK] == next && rest[BLOCK..] == c[at + BLOCK..];
      CopyInto(out, at, block);
      ConcatAssoc(out[..at], block, CtsDecrypt(d, next, c[at + BLOCK..]));
      assert out[..at + BLOCK] == out[..at] + block;
      prev := next;
    }
  }

  /** The zero-padded last block stands in for the vector, so its tail keeps the stolen bytes. */
  method DecryptTail(d: Block -> Block, prev: Block, c: Bytes, prefix: nat, out: array<Byte>)
    requires out.Length == |c| && prefix + BLOCK < |c| <= prefix + 2 * BLOCK
    modifies out
    ensures out[..] == old(out[..prefix]) + CtsDecrypt(d, prev, c[prefix..])
  {
    hide XorBytes;
    var last := c[prefix + BLOCK..];
    var n1 := last + Zeros(BLOCK - |last|);
    var b := d(c[prefix..prefix + BLOCK]);
    var pn := XorBytes(b, n1);
    ghost var rest := c[prefix..];
    assert rest[..BLOCK] == c[prefix..prefix + BLOCK] && rest[BLOCK..] == last;
    StolenBytes(b, last);
    var pn1 := XorBytes(d(last + pn[|last|..]), prev);
    ghost var done := out[..prefix];
    CopyInto(out, prefix, pn1);
    assert out[..prefix + BLOCK] == done + pn1;
    CopyInto(out, prefix + BLOCK, pn[..|last|]);
    assert out[..] == out[..prefix + BLOCK] + pn[..|last|];
    ConcatAssoc(done, pn1, pn[..|last|]);
  }

  lemma StolenBytes(b: Block, last: Bytes)
    requires |last| <= BLOCK
    ensures var pn := XorBytes(b, last + Zeros(BLOCK - |last|));
      pn[..|last|] == XorBytes(b[..|last|], last) && pn[|last|..] == b[|last|..]
  {
    var n := |last|;
    assert b == b[..n] + b[n..];
    XorBytesConcat(b[..n], b[n..], last, Zeros(BLOCK - n));
    XorBytesZero(b[n..]);
  }

  /** `decrypt_with`. */
  method DecryptWith(d: Block -> Block, iv: Block, c: Bytes) returns (r: Option<Bytes>)
    ensures c == [] ==> r == None
    ensures 0 < |c| <= BLOCK ==> r == Some(d(c + Zeros(BLOCK - |c|))[..|c|])
    ensures |c| > BLOCK ==> r == Some(CtsDecrypt(d, iv, c))
  {
    if c == [] {
      return None;
    }
    var blocks := (|c| + BLOCK - 1) / BLOCK;
    if blocks == 1 {
      return Some(d(c + Zeros(BLOCK - |c|))[..|c|]);
    }
    var out := new Byte[|c|](_ => 0);
    var prev := DecryptPrefix(d, iv, c, blocks - 2, out);
    DecryptTail(d, prev, c, (blocks - 2) * BLOCK, out);
    r := Some(out[..]);
  }

  /** From the zero vector, the buffer form computes the slicing form on every text of a block or more. */
  method EncryptAgrees(e: Block -> Block, p: Bytes) returns (r: Option<Bytes>)
    requires |p| >= BLOCK
    ensures r == Some(BasicEncrypt(e, p))
  {
    r := EncryptWith(e, ZERO, p);
    if |p| == BLOCK {
      SingleBlock(e, p);
      assert p + Zeros(0) == p && e(p)[..BLOCK] == e(p);
    } else {
      SlicingIsStealing(e, ZERO, p);
    }
  }

  /** Decrypting in place what was encrypted in place, under one vector, gives the text back. */
  method RoundTrip(e: Block -> Block, d: Block -> Block, iv: Block, p: Bytes) returns (r: Option<Bytes>)
    requires Inverses(e, d) && |p| >= BLOCK
    ensures r == Some(p)
  {
    var c := EncryptWith(e, iv, p);
    r := DecryptWith(d, iv, c.value);
    if |p| == BLOCK {
      assert p + Zeros(0) == p && e(p) + Zeros(0) == e(p);
    } else {
      CtsDecryptUndoes(e, d, iv, p);
    }
  }
}
