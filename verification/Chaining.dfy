/**
 * Encryption that carries its vector from one message to the next, for the suites that authenticate
 * the text (section 6 of RFC 3962) and those that authenticate vector and ciphertext (section 5 of
 * RFC 8009).
 */
module Chaining {
  import opened BlockMode
  import opened Bytes
  import opened CtsInPlace
  import opened Options
  import Transfer

  /** The derived keys are fixed: a block permutation, a keyed hash of `size` bytes, and what it covers. */
  datatype Suite = Suite(enc: Block -> Block, dec: Block -> Block, mac: Bytes -> Bytes, size: nat, coversCipher: bool)

  ghost predicate Sound(x: Suite) {
    Inverses(x.enc, x.dec) && forall text :: |x.mac(text)| == x.size
  }

  // ---------------------------------------------------------------- reference

  /** A single block does not use the vector. */
  function Encipher(e: Block -> Block, iv: Block, p: Bytes): (c: Bytes)
    requires |p| >= BLOCK
    ensures |c| == |p|
  {
    if |p| == BLOCK then e(p) else CtsEncrypt(e, iv, p)
  }

  function Decipher(d: Block -> Block, iv: Block, c: Bytes): (p: Bytes)
    requires |c| >= BLOCK
    ensures |p| == |c|
  {
    if |c| == BLOCK then d(c) else CtsDecrypt(d, iv, c)
  }

  /** The vector after a ciphertext: its last block but one. */
  function NextVector(iv: Block, c: Bytes): Block {
    var blocks := (|c| + BLOCK - 1) / BLOCK;
    if blocks >= 2 then c[(blocks - 2) * BLOCK..(blocks - 1) * BLOCK] else iv
  }

  /** What the hash covers when `c` is opened under `iv`. */
  function Covered(x: Suite, iv: Block, c: Bytes): Bytes
    requires |c| >= BLOCK
  {
    if x.coversCipher then iv + c else Decipher(x.dec, iv, c)
  }

  function Ciphertext(x: Suite, iv: Block, confounder: Block, text: Bytes): (c: Bytes)
    ensures |c| == BLOCK + |text|
  {
    Encipher(x.enc, iv, confounder + text)
  }

  function Sealed(x: Suite, iv: Block, confounder: Block, text: Bytes): Bytes {
    var c := Ciphertext(x, iv, confounder, text);
    c + x.mac(if x.coversCipher then iv + c else confounder + text)
  }

  function Opened(x: Suite, iv: Block, s: Bytes): Option<Bytes> {
    if |s| < BLOCK + x.size then None
    else
      var c, tag := s[..|s| - x.size], s[|s| - x.size..];
      if tag != x.mac(Covered(x, iv, c)) then None else Some(Decipher(x.dec, iv, c)[BLOCK..])
  }

  // ---------------------------------------------------------------- the operations

  class CipherState {
    var iv: Block

    constructor ()
      ensures iv == ZERO
    {
      iv := ZERO;
    }

    method Update(c: Bytes)
      modifies this
      ensures iv == NextVector(old(iv), c)
    {
      var blocks := (|c| + BLOCK - 1) / BLOCK;
      if blocks >= 2 {
        var start := (blocks - 2) * BLOCK;
        iv := c[start..start + BLOCK];
      }
    }

    method Encrypt(x: Suite, confounder: Block, text: Bytes) returns (out: Bytes)
      modifies this
      ensures out == Sealed(x, old(iv), confounder, text)
      ensures var c := if text == [] then x.enc(confounder) else CtsEncrypt(x.enc, old(iv), confounder + text);
        out == c + x.mac(if x.coversCipher then old(iv) + c else confounder + text)
      ensures iv == NextVector(old(iv), Ciphertext(x, old(iv), confounder, text))
    {
      hide CtsEncrypt, NextVector;
      var data := confounder + text;
      assert data + Zeros(0) == data && (text == [] ==> data == confounder);
      var r := EncryptWith(x.enc, iv, data);
      var c := r.value;
      assert c == Ciphertext(x, iv, confounder, text);
      var h := x.mac(if x.coversCipher then iv + c else data);
      Update(c);
      out := c + h;
    }

    /** Where the hash covers the text the vector moves on even if the message is refused. */
    method Decrypt(x: Suite, s: Bytes) returns (r: Option<Bytes>)
      modifies this
      ensures r == Opened(x, old(iv), s)
      ensures |s| >= 16 + x.size ==>
        var c, tag := s[..|s| - x.size], s[|s| - x.size..];
        var p := if |c| == 16 then x.dec(c) else CtsDecrypt(x.dec, old(iv), c);
        r == if tag == x.mac(if x.coversCipher then old(iv) + c else p) then Some(p[16..]) else None
      ensures iv == if |s| < BLOCK + x.size || (x.coversCipher && r.None?) then old(iv)
                    else NextVector(old(iv), s[..|s| - x.size])
    {
      hide CtsDecrypt, NextVector;
      if |s| < BLOCK + x.size {
        return None;
      }
      var c, tag := s[..|s| - x.size], s[|s| - x.size..];
      assert c + Zeros(0) == c;
      if x.coversCipher && tag != x.mac(iv + c) {
        return None;
      }
      var p := DecryptWith(x.dec, iv, c);
      assert p.value == Decipher(x.dec, iv, c);
      ghost var covered := Covered(x, iv, c);
      Update(c);
      if !x.coversCipher && tag != x.mac(p.value) {
        return None;
      }
      r := Some(p.value[BLOCK..]);
    }
  }

  // ---------------------------------------------------------------- another vector

  lemma FirstBlockEnciphered(e: Block -> Block, d: Block -> Block, iv: Block, p: Bytes, iv': Block)
    requires Inverses(e, d) && |p| > BLOCK
    ensures var c := CtsEncrypt(e, iv, p);
      CtsDecrypt(d, iv', c) == XorBytes(XorBytes(p[..BLOCK], iv), iv') + CtsDecrypt(d, iv, c)[BLOCK..]
  {
    hide XorBytes;
    var c := CtsEncrypt(e, iv, p);
    var masked := XorBytes(p[..BLOCK], iv);
    if |p| > 2 * BLOCK {
      assert c[..BLOCK] == e(masked);
    } else {
      StolenFirstBlock(e, d, iv, p);
    }
  }

  /** The stolen bytes put the first of two blocks together again. */
  lemma StolenFirstBlock(e: Block -> Block, d: Block -> Block, iv: Block, p: Bytes)
    requires Inverses(e, d) && BLOCK < |p| <= 2 * BLOCK
    ensures var c := CtsEncrypt(e, iv, p);
      d(c[BLOCK..] + d(c[..BLOCK])[|p| - BLOCK..]) == XorBytes(p[..BLOCK], iv)
  {
    var n, c := |p| - BLOCK, CtsEncrypt(e, iv, p);
    var b := e(XorBytes(p[..BLOCK], iv));
    var tail, pad := p[BLOCK..], Zeros(BLOCK - n);
    var y := XorBytes(tail + pad, b);
    assert c[..BLOCK] == e(y) && c[BLOCK..] == b[..n];
    assert b == b[..n] + b[n..];
    XorBytesConcat(tail, pad, b[..n], b[n..]);
    ZeroXor(b[n..]);
    assert y[n..] == b[n..];
  }

  /** Under another vector only the first block of a text changes, by the difference of the two. */
  lemma UnderAnotherVector(e: Block -> Block, d: Block -> Block, iv: Block, p: Bytes, iv': Block)
    requires Inverses(e, d) && |p| > BLOCK
    ensures CtsDecrypt(d, iv', CtsEncrypt(e, iv, p)) == XorBytes(XorBytes(p[..BLOCK], iv), iv') + p[BLOCK..]
  {
    hide CtsEncrypt, CtsDecrypt, XorBytes;
    FirstBlockEnciphered(e, d, iv, p, iv');
    CtsDecryptUndoes(e, d, iv, p);
  }

  lemma XorBytesSwap(a: Bytes, b: Bytes)
    requires |a| == |b|
    ensures XorBytes(a, b) == XorBytes(b, a)
  {
    forall i | 0 <= i < |a|
      ensures XorBytes(a, b)[i] == XorBytes(b, a)[i]
    {
      XorSwap(a[i], b[i]);
    }
  }

  /** Different vectors mask differently. */
  lemma MasksDiffer(b: Block, iv: Block, iv': Block)
    ensures XorBytes(XorBytes(b, iv), iv') == b <==> iv == iv'
  {
    hide XorBytes;
    var masked := XorBytes(b, iv);
    XorBytesCancels(b, iv);
    if XorBytes(masked, iv') == b {
      XorBytesSwap(masked, iv);
      XorBytesSwap(masked, iv');
      XorBytesCancels(iv, masked);
      XorBytesCancels(iv', masked);
    }
  }

  lemma DeciphersUnder(x: Suite, iv: Block, confounder: Block, text: Bytes, iv': Block)
    requires Sound(x)
    ensures var p := Decipher(x.dec, iv', Ciphertext(x, iv, confounder, text));
      p[BLOCK..] == text && (p == confounder + text <==> iv == iv' || text == [])
  {
    var data := confounder + text;
    assert data[..BLOCK] == confounder && data[BLOCK..] == text;
    hide CtsEncrypt, CtsDecrypt, XorBytes;
    if text != [] {
      UnderAnotherVector(x.enc, x.dec, iv, data, iv');
      MasksDiffer(confounder, iv, iv');
    }
  }

  /** What the hash covers tells vectors apart, unless the text is empty and the vector not covered. */
  lemma CoversTellVectors(x: Suite, iv: Block, confounder: Block, text: Bytes, iv': Block)
    requires Sound(x)
    ensures var c := Ciphertext(x, iv, confounder, text);
      Covered(x, iv, c) == Covered(x, iv', c) <==> iv == iv' || (!x.coversCipher && text == [])
  {
    hide Decipher, Ciphertext;
    var c := Ciphertext(x, iv, confounder, text);
    DeciphersUnder(x, iv, confounder, text, iv);
    DeciphersUnder(x, iv, confounder, text, iv');
    assert (iv + c)[..BLOCK] == iv && (iv' + c)[..BLOCK] == iv';
  }

  /**
   * A sealed message opens under a vector, and then to its text, if and only if the hash of what that
   * vector covers agrees with the hash of what its own vector covers.
   */
  lemma OpensWhereHashesAgree(x: Suite, iv: Block, confounder: Block, text: Bytes, iv': Block)
    requires Sound(x)
    ensures var s, c := Sealed(x, iv, confounder, text), Ciphertext(x, iv, confounder, text);
      Opened(x, iv', s) == if x.mac(Covered(x, iv', c)) == x.mac(Covered(x, iv, c)) then Some(text) else None
  {
    var s, c := Sealed(x, iv, confounder, text), Ciphertext(x, iv, confounder, text);
    hide Decipher, Ciphertext;
    DeciphersUnder(x, iv, confounder, text, iv);
    DeciphersUnder(x, iv, confounder, text, iv');
    assert |s| == |c| + x.size && s[..|c|] == c && s[|c|..] == x.mac(Covered(x, iv, c));
  }

  // ---------------------------------------------------------------- the vector that follows

  /** The vector after a message is the last block of its CBC text, which stealing puts last but one. */
  lemma NextVectorIsLastBlock(e: Block -> Block, iv: Block, p: Bytes)
    requires |p| > BLOCK
    ensures var cbc := CbcEncrypt(e, iv, ZeroPad(p, BLOCK));
      |cbc| >= 16 && NextVector(iv, CtsEncrypt(e, iv, p)) == cbc[|cbc| - 16..]
  {
    hide CtsEncrypt, CbcEncrypt, ZeroPad, SwapAndCut, NextVector;
    SlicingIsStealing(e, iv, p);
    var cbc := CbcEncrypt(e, iv, ZeroPad(p, BLOCK));
    BlockBeforeLast(cbc, |p|);
    NextVectorAt(iv, CtsEncrypt(e, iv, p), |cbc|);
  }

  lemma NextVectorAt(iv: Block, c: Bytes, n: nat)
    requires n >= 32 && n % BLOCK == 0 && n - BLOCK < |c| <= n
    ensures NextVector(iv, c) == c[n - 32..n - 16]
  {
    var blocks := n / BLOCK;
    assert (|c| + BLOCK - 1) / BLOCK == blocks && n == blocks * BLOCK;
  }

  /** A message of one block leaves the vector as it is. */
  lemma NextVectorStays(iv: Block, c: Block)
    ensures NextVector(iv, c) == iv
  {
  }

  lemma BlockBeforeLast(ctext: Bytes, len: nat)
    requires |ctext| >= 32 && |ctext| % BLOCK == 0 && |ctext| - BLOCK < len <= |ctext|
    ensures SwapAndCut(ctext, len)[|ctext| - 32..|ctext| - 16] == ctext[|ctext| - 16..]
  {
  }

  // ---------------------------------------------------------------- a chain of messages

  datatype Piece = Piece(confounder: Block, text: Bytes)

  /** The vector once the first `k` pieces have been sealed. */
  function VectorAt(x: Suite, ps: seq<Piece>, k: nat): Block
    requires k <= |ps|
    decreases k, 0
  {
    if k == 0 then ZERO else NextVector(VectorAt(x, ps, k - 1), CipherAt(x, ps, k - 1))
  }

  function CipherAt(x: Suite, ps: seq<Piece>, j: nat): (c: Bytes)
    requires j < |ps|
    ensures |c| >= BLOCK
    decreases j, 1
  {
    Ciphertext(x, VectorAt(x, ps, j), ps[j].confounder, ps[j].text)
  }

  function SealedAt(x: Suite, ps: seq<Piece>, j: nat): Bytes
    requires j < |ps|
  {
    Sealed(x, VectorAt(x, ps, j), ps[j].confounder, ps[j].text)
  }

  /** Opened in the place of the `k`-th, the `j`-th message has the hash it was sealed with. */
  predicate HashesAgree(x: Suite, ps: seq<Piece>, j: nat, k: nat)
    requires j < |ps| && k <= |ps|
  {
    var c := CipherAt(x, ps, j);
    x.mac(Covered(x, VectorAt(x, ps, k), c)) == x.mac(Covered(x, VectorAt(x, ps, j), c))
  }

  /**
   * In its own place every message opens to its text. In another it opens if and only if two hashes
   * agree, and those are hashes of different texts unless the two places have the same vector or the
   * message is empty.
   */
  lemma OpensInPlace(x: Suite, ps: seq<Piece>, j: nat, k: nat)
    requires Sound(x) && j < |ps| && k <= |ps|
    ensures Opened(x, VectorAt(x, ps, k), SealedAt(x, ps, j))
         == if HashesAgree(x, ps, j, k) then Some(ps[j].text) else None
    ensures j == k ==> HashesAgree(x, ps, j, k)
    ensures var c := CipherAt(x, ps, j);
      Covered(x, VectorAt(x, ps, k), c) == Covered(x, VectorAt(x, ps, j), c)
      <==> VectorAt(x, ps, k) == VectorAt(x, ps, j) || (!x.coversCipher && ps[j].text == [])
  {
    hide Opened, Covered, Ciphertext, Sealed, VectorAt;
    OpensWhereHashesAgree(x, VectorAt(x, ps, j), ps[j].confounder, ps[j].text, VectorAt(x, ps, k));
    CoversTellVectors(x, VectorAt(x, ps, j), ps[j].confounder, ps[j].text, VectorAt(x, ps, k));
  }

  /** Opening messages in order leads through the vectors they were sealed under. */
  lemma OpeningAdvances(x: Suite, ps: seq<Piece>, k: nat)
    requires Sound(x) && k < |ps|
    ensures var s := SealedAt(x, ps, k);
      && Opened(x, VectorAt(x, ps, k), s) == Some(ps[k].text)
      && |s| >= x.size && NextVector(VectorAt(x, ps, k), s[..|s| - x.size]) == VectorAt(x, ps, k + 1)
  {
    OpensInPlace(x, ps, k, k);
    hide Opened, Ciphertext, NextVector, Covered;
    var s, c := SealedAt(x, ps, k), CipherAt(x, ps, k);
    assert s[..|c|] == c && |s| == |c| + x.size;
  }

  /** Where no two hashes agree by chance, the places of blocks stand for the states of the cipher. */
  lemma PlacesStandForStates(x: Suite, ps: seq<Piece>, j: nat, k: nat, m: Transfer.Message, s: Transfer.Session)
    requires Sound(x) && j < |ps| && k <= |ps| && (j != k ==> !HashesAgree(x, ps, j, k))
    requires m.Priv? && m.place == j && s.place == k && s.chains
    ensures Transfer.Opens(m, s) <==> Opened(x, VectorAt(x, ps, k), SealedAt(x, ps, j)).Some?
  {
    hide Opened, HashesAgree, VectorAt, SealedAt;
    OpensInPlace(x, ps, j, k);
  }
}
