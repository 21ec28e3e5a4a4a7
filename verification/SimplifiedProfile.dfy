/** The simplified profile of section 5.3 of RFC 3961, with the AES sizes, over any cipher and MAC. */
module SimplifiedProfile {
  import opened Bytes
  import opened BlockMode
  import NFold

  const PADSIZE: nat := 1
  const MACSIZE: nat := 12

  /** A keyed block permutation, a keyed hash and the seed size of the enctype. */
  datatype Suite = Suite(enc: (Bytes, Block) -> Block, dec: (Bytes, Block) -> Block,
                         hmac: (Bytes, Bytes) -> Bytes, seedSize: nat)

  datatype Decrypted = Plaintext(text: Bytes) | TooShort | BadPadding | InvalidChecksum

  type Usage = u: int | -0x8000_0000 <= u < 0x8000_0000

  function Enc(x: Suite, key: Bytes): Block -> Block {
    b => x.enc(key, b)
  }

  function Dec(x: Suite, key: Bytes): Block -> Block {
    b => x.dec(key, b)
  }

  /** The block functions undo each other under every key, and the hash is long enough to cut. */
  ghost predicate Sound(x: Suite) {
    && (forall key :: Inverses(Enc(x, key), Dec(x, key)))
    && (forall key, text :: |x.hmac(key, text)| >= MACSIZE)
  }

  // ---------------------------------------------------------------- key derivation

  /** Each block the encryption of the one before, up to at least `len` bytes. */
  function KeyStream(e: Block -> Block, p: Block, len: nat): (s: Bytes)
    ensures |s| >= len
    decreases len
  {
    if len == 0 then []
    else
      var c := BasicEncrypt(e, p);
      c + KeyStream(e, c, if len > BLOCK then len - BLOCK else 0)
  }

  function Derivation(x: Suite, key: Bytes, constant: Bytes): (k: Bytes)
    requires constant != []
    ensures |k| == x.seedSize
  {
    KeyStream(Enc(x, key), NFold.Fold(constant, BLOCK), x.seedSize)[..x.seedSize]
  }

  /** `derive`. */
  method Derive(x: Suite, key: Bytes, constant: Bytes) returns (k: Bytes)
    requires constant != []
    ensures k == Derivation(x, key, constant)
  {
    var plaintext: Block := NFold.Fold(constant, BLOCK);
    ghost var whole := KeyStream(Enc(x, key), plaintext, x.seedSize);
    var seed: Bytes := [];
    ghost var left := x.seedSize;
    while |seed| < x.seedSize
      invariant left == if |seed| < x.seedSize then x.seedSize - |seed| else 0
      invariant seed + KeyStream(Enc(x, key), plaintext, left) == whole
      decreases left
    {
      var ciphertext := BasicEncrypt(Enc(x, key), plaintext);
      left := if left > BLOCK then left - BLOCK else 0;
      ConcatAssoc(seed, ciphertext, KeyStream(Enc(x, key), ciphertext, left));
      seed := seed + ciphertext;
      plaintext := ciphertext;
    }
    assert seed == whole;
    k := seed[..x.seedSize];
  }

  /** The usage as four big-endian bytes in two's complement, then the kind of key. */
  function Constant(usage: Usage, kind: Byte): (c: Bytes)
    ensures |c| == 5
  {
    var u := if usage < 0 then usage + 0x1_0000_0000 else usage;
    [u / 0x100_0000 % 256, u / 0x1_0000 % 256, u / 0x100 % 256, u % 256, kind]
  }

  function Ki(x: Suite, key: Bytes, usage: Usage): Bytes {
    Derivation(x, key, Constant(usage, 0x55))
  }

  function Ke(x: Suite, key: Bytes, usage: Usage): Bytes {
    Derivation(x, key, Constant(usage, 0xAA))
  }

  /** Different usages or kinds never derive from the same constant. */
  lemma ConstantInjective(u: Usage, kind: Byte, u': Usage, kind': Byte)
    requires Constant(u, kind) == Constant(u', kind')
    ensures u == u' && kind == kind'
  {
    var c, c' := Constant(u, kind), Constant(u', kind');
    assert c[0] == c'[0] && c[1] == c'[1] && c[2] == c'[2] && c[3] == c'[3] && c[4] == c'[4];
    var v := if u < 0 then u + 0x1_0000_0000 else u;
    var v' := if u' < 0 then u' + 0x1_0000_0000 else u';
    FourDigits(v);
    FourDigits(v');
  }

  // ---------------------------------------------------------------- encryption

  function Encryption(x: Suite, key: Bytes, usage: Usage, text: Bytes, confounder: Block): (c: Bytes)
    requires |x.hmac(Ki(x, key, usage), confounder + ZeroPad(text, PADSIZE))| >= MACSIZE
  {
    var basic := confounder + ZeroPad(text, PADSIZE);
    BasicEncrypt(Enc(x, Ke(x, key, usage)), basic) + x.hmac(Ki(x, key, usage), basic)[..MACSIZE]
  }

  function Decryption(x: Suite, key: Bytes, usage: Usage, c: Bytes): (r: Decrypted)
    requires forall basic :: |x.hmac(Ki(x, key, usage), basic)| >= MACSIZE
  {
    if |c| < BLOCK + MACSIZE then TooShort
    else
      var ctext, mac := c[..|c| - MACSIZE], c[|c| - MACSIZE..];
      if |ctext| % PADSIZE != 0 then BadPadding
      else
        var basic := BasicDecryption(Dec(x, Ke(x, key, usage)), ctext);
        if mac != x.hmac(Ki(x, key, usage), basic)[..MACSIZE] then InvalidChecksum
        else Plaintext(basic[BLOCK..])
  }

  lemma {:induction false} XorIsZero(a: nat, b: nat)
    ensures Xor(a, b) == 0 <==> a == b
    decreases a + b
  {
    if a != 0 || b != 0 {
      XorIsZero(a / 2, b / 2);
    }
  }

  lemma OrIsNonzero(a: nat, b: nat)
    ensures Or(a, b) == 0 <==> a == 0 && b == 0
    decreases a + b
  {
    if a != 0 || b != 0 {
      OrIsNonzero(a / 2, b / 2);
    }
  }

  /** `_mac_equal`: every byte is looked at, whatever the first ones were. */
  method MacEqual(a: Bytes, b: Bytes) returns (same: bool)
    requires |a| == |b|
    ensures same <==> a == b
  {
    var res: nat := 0;
    for i := 0 to |a|
      invariant res == 0 <==> a[..i] == b[..i]
    {
      XorIsZero(a[i], b[i]);
      OrIsNonzero(res, Xor(a[i], b[i]));
      assert a[..i + 1] == a[..i] + [a[i]] && b[..i + 1] == b[..i] + [b[i]];
      res := Or(res, Xor(a[i], b[i]));
    }
    assert a[..|a|] == a && b[..|b|] == b;
    same := res == 0;
  }

  /** `encrypt`. */
  method Encrypt(x: Suite, key: Bytes, usage: Usage, text: Bytes, confounder: Block) returns (c: Bytes)
    requires Sound(x)
    ensures c == Encryption(x, key, usage, text, confounder)
  {
    var ki := Derive(x, key, Constant(usage, 0x55));
    var ke := Derive(x, key, Constant(usage, 0xAA));
    var basic := confounder + ZeroPad(text, PADSIZE);
    c := BasicEncrypt(Enc(x, ke), basic) + x.hmac(ki, basic)[..MACSIZE];
  }

  /** `decrypt`. */
  method Decrypt(x: Suite, key: Bytes, usage: Usage, c: Bytes) returns (r: Decrypted)
    requires Sound(x)
    ensures r == Decryption(x, key, usage, c)
  {
    var ki := Derive(x, key, Constant(usage, 0x55));
    var ke := Derive(x, key, Constant(usage, 0xAA));
    if |c| < BLOCK + MACSIZE {
      return TooShort;
    }
    var ctext, mac := c[..|c| - MACSIZE], c[|c| - MACSIZE..];
    if |ctext| % PADSIZE != 0 {
      return BadPadding;
    }
    var basic := BasicDecrypt(Dec(x, ke), ctext);
    var same := MacEqual(mac, x.hmac(ki, basic)[..MACSIZE]);
    if !same {
      return InvalidChecksum;
    }
    r := Plaintext(basic[BLOCK..]);
  }

  // ---------------------------------------------------------------- meaning

  lemma NoPadding(text: Bytes)
    ensures ZeroPad(text, PADSIZE) == text
  {
  }

  /** Decryption returns what was encrypted, for every key, usage, text and full-block confounder. */
  lemma DecryptUndoesEncrypt(x: Suite, key: Bytes, usage: Usage, text: Bytes, confounder: Block)
    requires Sound(x)
    ensures Decryption(x, key, usage, Encryption(x, key, usage, text, confounder)) == Plaintext(text)
  {
    NoPadding(text);
    var ke, basic := Ke(x, key, usage), confounder + text;
    var c := Encryption(x, key, usage, text, confounder);
    assert c[..|c| - MACSIZE] == BasicEncrypt(Enc(x, ke), basic);
    BlockMode.DecryptUndoesEncrypt(Enc(x, ke), Dec(x, ke), basic);
    assert basic[BLOCK..] == text;
  }

  /** What decrypts is the encryption of its text under some confounder. */
  lemma DecryptedIsEncryption(x: Suite, key: Bytes, usage: Usage, c: Bytes, text: Bytes) returns (confounder: Block)
    requires Sound(x) && Decryption(x, key, usage, c) == Plaintext(text)
    ensures c == Encryption(x, key, usage, text, confounder)
  {
    hide BasicDecryption, BasicEncrypt, Derivation;
    var ke, ctext := Ke(x, key, usage), c[..|c| - MACSIZE];
    var basic := BasicDecryption(Dec(x, ke), ctext);
    confounder := basic[..BLOCK];
    NoPadding(text);
    assert confounder + text == basic;
    EncryptUndoesDecrypt(Enc(x, ke), Dec(x, ke), ctext);
  }

  /** Decryption yields `text` for the encryptions of `text`, and for no other string. */
  lemma DecryptAcceptsOnlyEncryptions(x: Suite, key: Bytes, usage: Usage, c: Bytes, text: Bytes)
    requires Sound(x)
    ensures Decryption(x, key, usage, c) == Plaintext(text)
       <==> exists confounder: Block :: c == Encryption(x, key, usage, text, confounder)
  {
    hide Decryption, Encryption;
    if Decryption(x, key, usage, c) == Plaintext(text) {
      var confounder := DecryptedIsEncryption(x, key, usage, c, text);
    }
    forall confounder: Block | c == Encryption(x, key, usage, text, confounder)
      ensures Decryption(x, key, usage, c) == Plaintext(text)
    {
      DecryptUndoesEncrypt(x, key, usage, text, confounder);
    }
  }

  // ---------------------------------------------------------------- keys and messages, byte by byte

  /** A block enciphered `n` times over. */
  function Iterate(e: Block -> Block, n: nat, p: Block): Block {
    if n == 0 then p else e(Iterate(e, n - 1, p))
  }

  lemma {:induction false} IterateFirst(e: Block -> Block, n: nat, p: Block)
    ensures Iterate(e, n, e(p)) == Iterate(e, n + 1, p)
  {
    if n > 0 {
      IterateFirst(e, n - 1, p);
    }
  }

  /** Block `i` of the stream is the first one enciphered `i + 1` times. */
  lemma {:induction false} KeyStreamIs(e: Block -> Block, p: Block, len: nat, i: nat)
    requires 16 * i < len
    ensures 16 * (i + 1) <= |KeyStream(e, p, len)|
    ensures KeyStream(e, p, len)[16 * i..16 * (i + 1)] == Iterate(e, i + 1, p)
    decreases i
  {
    SingleBlock(e, p);
    var c, stream := BasicEncrypt(e, p), KeyStream(e, p, len);
    var rest := KeyStream(e, c, if len > BLOCK then len - BLOCK else 0);
    assert stream == c + rest;
    hide KeyStream, BasicEncrypt;
    if i == 0 {
      assert stream[..16] == c;
      assert Iterate(e, 1, p) == e(Iterate(e, 0, p));
    } else {
      KeyStreamIs(e, c, len - BLOCK, i - 1);
      IterateFirst(e, i, p);
      assert stream[16 * i..16 * (i + 1)] == rest[16 * (i - 1)..16 * i];
    }
  }

  /**
   * Byte `k` of a derived key is byte `k % 16` of the folded constant enciphered `k / 16 + 1` times
   * under the key it is derived from.
   */
  lemma DerivedKeyIs(x: Suite, key: Bytes, constant: Bytes, k: nat)
    requires constant != [] && k < x.seedSize
    ensures Derivation(x, key, constant)[k]
         == Iterate(Enc(x, key), k / 16 + 1, NFold.Fold(constant, 16))[k % 16]
  {
    var e, p, i := Enc(x, key), NFold.Fold(constant, BLOCK), k / 16;
    KeyStreamIs(e, p, x.seedSize, i);
    hide KeyStream, Iterate;
    var stream := KeyStream(e, p, x.seedSize);
    assert stream[16 * i..16 * (i + 1)][k % 16] == stream[k];
  }

  /** The constant is the usage as a big-endian word in two's complement, then the kind of key. */
  lemma ConstantMeans(usage: Usage, kind: Byte)
    ensures |Constant(usage, kind)| == 5 && Constant(usage, kind)[4] == kind
    ensures BigEndian(Constant(usage, kind)[..4]) == if usage < 0 then usage + 0x1_0000_0000 else usage
  {
    var c := Constant(usage, kind);
    var u := if usage < 0 then usage + 0x1_0000_0000 else usage;
    FourDigits(u);
    assert c[..4] == c[..3] + [c[3]] && c[..3] == c[..2] + [c[2]] && c[..2] == c[..1] + [c[1]] && c[..1] == [] + [c[0]];
    BigEndianSnoc([], c[0]);
    BigEndianSnoc(c[..1], c[1]);
    BigEndianSnoc(c[..2], c[2]);
    BigEndianSnoc(c[..3], c[3]);
  }

  /**
   * A message: confounder and text, with stealing from the zero vector under the key for 0xAA, then
   * twelve bytes of their code under the key for 0x55.
   */
  lemma MessageIs(x: Suite, key: Bytes, usage: Usage, text: Bytes, confounder: Block)
    requires Sound(x)
    ensures var ke, ki := Derivation(x, key, Constant(usage, 0xAA)), Derivation(x, key, Constant(usage, 0x55));
      Encryption(x, key, usage, text, confounder)
      == (if text == [] then x.enc(ke, confounder) else CtsEncrypt(Enc(x, ke), Zeros(16), confounder + text))
         + x.hmac(ki, confounder + text)[..12]
  {
    NoPadding(text);
    var ke := Ke(x, key, usage);
    hide Derivation, CtsEncrypt;
    if text == [] {
      assert confounder + text == confounder;
      SingleBlock(Enc(x, ke), confounder);
    } else {
      SlicingIsStealing(Enc(x, ke), ZERO, confounder + text);
    }
  }
}
