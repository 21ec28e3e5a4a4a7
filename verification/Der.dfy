/** Replacing the PAC inside an encoded ticket, element by element (section 2.8.3 of MS-PAC). */
module Der {
  import opened Options
  import opened Bytes

  const OCTET_STRING: Byte := 0x04
  const SEQUENCE: Byte := 0x30

  // ---------------------------------------------------------------- lengths (section 8.1.3 of X.690)

  function ReadLen(data: Bytes, off: nat): (r: Option<(nat, nat)>)
    ensures r.Some? ==> r.value.1 >= 1 && off + r.value.1 <= |data|
  {
    if off >= |data| then None
    else if data[off] < 0x80 then Some((data[off], 1))
    else
      var nbytes := data[off] % 0x80;
      if nbytes == 0 || nbytes > 4 || off + 1 + nbytes > |data| then None
      else
        var digits := data[off + 1..off + 1 + nbytes];
        BigEndianBound(digits);
        Some((BigEndian(digits), 1 + nbytes))
  }

  /** `read_der_len`. */
  method ReadDerLen(data: Bytes, off: nat) returns (r: Option<(nat, nat)>)
    ensures r == ReadLen(data, off)
  {
    if off >= |data| {
      return None;
    }
    var b := data[off];
    if b < 0x80 {
      return Some((b, 1));
    }
    var nbytes := b % 0x80;
    if nbytes == 0 || nbytes > 4 || off + 1 + nbytes > |data| {
      return None;
    }
    var n: nat := 0;
    ghost var digits := data[off + 1..off + 1 + nbytes];
    for i := 0 to nbytes
      invariant n == BigEndian(digits[..i])
    {
      ShiftIn(n, digits[i]);
      assert digits[..i + 1] == digits[..i] + [digits[i]];
      BigEndianSnoc(digits[..i], digits[i]);
      n := Or(Shl(n, 8), data[off + 1 + i]);
    }
    assert digits[..nbytes] == digits;
    r := Some((n, 1 + nbytes));
  }

  lemma ShiftIn(n: nat, b: Byte)
    ensures Or(Shl(n, 8), b) == 256 * n + b
  {
    assert Shl(n, 2) == 2 * Shl(n, 1) == 4 * n;
    assert Shl(n, 4) == 2 * Shl(n, 3) == 4 * Shl(n, 2);
    assert Shl(n, 6) == 2 * Shl(n, 5) == 4 * Shl(n, 4);
    assert Shl(n, 8) == 2 * Shl(n, 7) == 4 * Shl(n, 6);
    assert Shl(1, 8) == 256;
    OrIsSum(b, n, 8);
  }

  function LenDigits(n: nat): (k: nat)
    ensures 1 <= k <= 4
  {
    if n <= 255 then 1 else if n <= 65535 then 2 else if n <= 16777215 then 3 else 4
  }

  /** `encode_der_len`; from 2^32 on the high bits are lost. */
  function EncodeLen(n: nat): (r: Bytes)
    ensures |r| >= 1
  {
    if n <= 127 then [n] else [0x80 + LenDigits(n)] + Digits(n, LenDigits(n))
  }

  /** The bytes of an encoded length. */
  lemma EncodedLenBytes(n: nat)
    requires n < 0x1_0000_0000
    ensures EncodeLen(n)
         == if n < 0x80 then [n]
            else if n < 0x100 then [0x81, n]
            else if n < 0x1_0000 then [0x82, n / 0x100, n % 0x100]
            else if n < 0x100_0000 then [0x83, n / 0x1_0000, n / 0x100 % 0x100, n % 0x100]
            else [0x84, n / 0x100_0000, n / 0x1_0000 % 0x100, n / 0x100 % 0x100, n % 0x100]
  {
    hide Digits;
    DigitBytes(n);
    if n < 0x100 {
      SmallQuotients(n);
    } else if n < 0x1_0000 {
      SmallQuotients(n / 0x100);
    } else if n < 0x100_0000 {
      SmallQuotients(n / 0x1_0000);
    }
  }

  lemma SmallQuotients(q: nat)
    requires q < 0x100
    ensures q % 0x100 == q
  {
  }

  /** A length is refused exactly where it is missing, indefinite, over four octets or cut off. */
  lemma LenRefused(data: Bytes, off: nat)
    ensures ReadLen(data, off).None? <==>
      || off >= |data| || data[off] == 0x80 || data[off] > 0x84
      || (data[off] > 0x80 && |data| - off < data[off] - 0x7F)
  {
  }

  lemma EncodedDigits(n: nat)
    requires 127 < n < 0x1_0000_0000
    ensures var e := EncodeLen(n); 2 <= |e| <= 5 && e[0] == 0x80 + |e| - 1 && BigEndian(e[1..]) == n
  {
    var e, k := EncodeLen(n), LenDigits(n);
    assert ShiftBytes(1, 2) == 256 * ShiftBytes(1, 1) == 65536;
    assert ShiftBytes(1, 4) == 256 * ShiftBytes(1, 3) == 65536 * ShiftBytes(1, 2);
    DigitsValue(n, k);
    assert e[1..] == Digits(n, k);
  }

  lemma LongFormReads(e: Bytes, pre: Bytes, post: Bytes)
    requires 2 <= |e| <= 5 && e[0] == 0x80 + |e| - 1
    ensures BigEndian(e[1..]) >= 0
    ensures ReadLen(pre + e + post, |pre|) == Some((BigEndian(e[1..]), |e|))
  {
    hide BigEndian;
    BigEndianBound(e[1..]);
    var data := pre + e + post;
    assert data[|pre|] == e[0];
    assert data[|pre| + 1..|pre| + |e|] == e[1..];
  }

  /** An encoded length reads back, wherever it stands, for every length below 2^32. */
  lemma ReadLenOfEncoded(n: nat, pre: Bytes, post: Bytes)
    requires n < 0x1_0000_0000
    ensures ReadLen(pre + EncodeLen(n) + post, |pre|) == Some((n, |EncodeLen(n)|))
  {
    var e := EncodeLen(n);
    if n > 127 {
      EncodedDigits(n);
      hide EncodeLen, ReadLen, BigEndian;
      LongFormReads(e, pre, post);
    } else {
      assert (pre + e + post)[|pre|] == n;
    }
  }

  /** No other form of a length is shorter. */
  lemma EncodedLenIsShortest(data: Bytes, off: nat)
    requires ReadLen(data, off).Some?
    ensures |EncodeLen(ReadLen(data, off).value.0)| <= ReadLen(data, off).value.1
  {
    var (n, k) := ReadLen(data, off).value;
    if data[off] >= 0x80 {
      var digits := data[off + 1..off + k];
      BigEndianBound(digits);
      assert ShiftBytes(1, 1) == 256 && ShiftBytes(1, 2) == 65536;
      assert ShiftBytes(1, 3) == 256 * ShiftBytes(1, 2);
    }
  }

  // ---------------------------------------------------------------- elements

  datatype Tlv = Tlv(tag: Byte, constructed: bool, content: Bytes, len: nat)

  predicate HighTag(tag: Byte) {
    tag % 0x20 == 0x1F
  }

  predicate IsConstructed(tag: Byte) {
    tag / 0x20 % 2 == 1
  }

  /** The class, the constructed bit and the number of a tag. */
  lemma TagFields(kind: nat, constructed: nat, number: nat)
    requires kind < 4 && constructed < 2 && number < 32
    ensures IsConstructed(64 * kind + 32 * constructed + number) <==> constructed == 1
    ensures HighTag(64 * kind + 32 * constructed + number) <==> number == 31
  {
  }

  /** `read_tlv`. */
  function ReadTlv(data: Bytes, off: nat): (r: Option<Tlv>)
    ensures r.Some? ==> off + r.value.len <= |data| && |r.value.content| + 2 <= r.value.len
  {
    if off >= |data| || HighTag(data[off]) then None
    else
      match ReadLen(data, off + 1)
      case None => None
      case Some((length, lenBytes)) =>
        var start := off + 1 + lenBytes;
        if start + length > |data| then None
        else Some(Tlv(data[off], IsConstructed(data[off]), data[start..start + length], 1 + lenBytes + length))
  }

  /** `encode_tlv`. */
  function EncodeTlv(tag: Byte, content: Bytes): (r: Bytes) {
    [tag] + EncodeLen(|content|) + content
  }

  lemma ReadTlvOfEncoded(tag: Byte, content: Bytes, pre: Bytes, post: Bytes)
    requires !HighTag(tag) && |content| < 0x1_0000_0000
    ensures var e := EncodeTlv(tag, content); Reads(ReadTlv(pre + e + post, |pre|), tag, content, |e|)
  {
    var e, len := EncodeTlv(tag, content), EncodeLen(|content|);
    var data := pre + e + post;
    assert ReadLen(data, |pre| + 1) == Some((|content|, |len|)) by {
      assert data == (pre + [tag]) + len + (content + post);
      ReadLenOfEncoded(|content|, pre + [tag], content + post);
    }
    assert data[|pre|] == tag;
    assert data[|pre| + 1 + |len|..|pre| + |e|] == content;
  }

  // ---------------------------------------------------------------- rewriting

  /** The rewritten element, whether anything in it was replaced, and how much was read. */
  datatype Rewritten = Rewritten(out: Bytes, replaced: bool, len: nat)

  predicate StartsSequence(content: Bytes) {
    content != [] && content[0] == SEQUENCE
  }

  /** The bytes are one element, with nothing after it. */
  predicate IsOneElement(content: Bytes) {
    ReadTlv(content, 0).Some? && ReadTlv(content, 0).value.len == |content|
  }

  function Rewrite(data: Bytes, off: nat, pac: Bytes): (r: Option<Rewritten>)
    ensures r.Some? ==> 2 <= r.value.len && off + r.value.len <= |data|
    decreases |data| - off, 1
  {
    match ReadTlv(data, off)
    case None => None
    case Some(t) => RewriteElement(data[off..off + t.len], t, pac)
  }

  /** An element `t` with its own bytes `orig`. */
  function RewriteElement(orig: Bytes, t: Tlv, pac: Bytes): (r: Option<Rewritten>)
    ensures r.Some? ==> r.value.len == t.len
    decreases |t.content| + 1, 0
  {
    if t.tag == OCTET_STRING && t.content == pac then
      Some(Rewritten(EncodeTlv(OCTET_STRING, [0]), true, t.len))
    else if t.constructed then
      match RewriteAll(t.content, 0, pac)
      case None => None
      case Some((children, any)) =>
        Some(Rewritten(if any then EncodeTlv(t.tag, children) else orig, any, t.len))
    else if t.tag == OCTET_STRING && StartsSequence(t.content) then
      var inner := Rewrite(t.content, 0, pac);
      if inner.Some? && inner.value.replaced && inner.value.len == |t.content|
      then Some(Rewritten(EncodeTlv(t.tag, inner.value.out), true, t.len))
      else Some(Rewritten(orig, false, t.len))
    else
      Some(Rewritten(orig, false, t.len))
  }

  function RewriteAll(content: Bytes, pos: nat, pac: Bytes): (r: Option<(Bytes, bool)>)
    requires pos <= |content|
    decreases |content| - pos, 2
  {
    if pos == |content| then Some(([], false))
    else
      match Rewrite(content, pos, pac)
      case None => None
      case Some(inner) =>
        match RewriteAll(content, pos + inner.len, pac)
        case None => None
        case Some((rest, any)) => Some((inner.out + rest, inner.replaced || any))
  }

  /** `rewrite_one`. */
  method RewriteOne(data: Bytes, off: nat, pac: Bytes) returns (r: Option<Rewritten>)
    ensures r == Rewrite(data, off, pac)
    decreases |data| - off, 0
  {
    var parsed := ReadTlv(data, off);
    if parsed.None? {
      return None;
    }
    var t := parsed.value;
    var orig := data[off..off + t.len];
    if t.tag == OCTET_STRING && t.content == pac {
      return Some(Rewritten(EncodeTlv(OCTET_STRING, [0]), true, t.len));
    }
    if t.constructed {
      var children := RewriteChildren(t.content, pac);
      if children.None? {
        return None;
      }
      if children.value.1 {
        return Some(Rewritten(EncodeTlv(t.tag, children.value.0), true, t.len));
      }
      return Some(Rewritten(orig, false, t.len));
    }
    if t.tag == OCTET_STRING && StartsSequence(t.content) {
      var inner := RewriteOne(t.content, 0, pac);
      if inner.Some? && inner.value.replaced && inner.value.len == |t.content| {
        return Some(Rewritten(EncodeTlv(t.tag, inner.value.out), true, t.len));
      }
    }
    r := Some(Rewritten(orig, false, t.len));
  }

  lemma ChildRewritten(content: Bytes, pos: nat, pac: Bytes, inner: Rewritten, children: Bytes, any: bool)
    requires pos < |content| && Rewrite(content, pos, pac) == Some(inner)
    ensures Prepend(children, any, RewriteAll(content, pos, pac))
         == Prepend(children + inner.out, any || inner.replaced, RewriteAll(content, pos + inner.len, pac))
  {
    var rest := RewriteAll(content, pos + inner.len, pac);
    assert RewriteAll(content, pos, pac) == Prepend(inner.out, inner.replaced, rest);
    hide RewriteAll, Rewrite, Prepend;
    PrependTwice(children, any, inner.out, inner.replaced, RewriteAll(content, pos + inner.len, pac));
  }

  /** The loop of `rewrite_one` over the contents of a constructed element. */
  method RewriteChildren(content: Bytes, pac: Bytes) returns (r: Option<(Bytes, bool)>)
    ensures r == RewriteAll(content, 0, pac)
    decreases |content|, 1
  {
    hide RewriteAll, Rewrite;
    var children: Bytes, pos, any := [], 0, false;
    ghost var whole := RewriteAll(content, 0, pac);
    PrependNothing(whole);
    while pos < |content|
      invariant 0 <= pos <= |content|
      invariant whole == Prepend(children, any, RewriteAll(content, pos, pac))
    {
      var inner := RewriteOne(content, pos, pac);
      if inner.None? {
        ChildRefused(content, pos, pac);
        return None;
      }
      ChildRewritten(content, pos, pac, inner.value, children, any);
      children := children + inner.value.out;
      any := any || inner.value.replaced;
      pos := pos + inner.value.len;
    }
    NoChildren(content, pac);
    assert children + [] == children;
    r := Some((children, any));
  }

  lemma ChildRefused(content: Bytes, pos: nat, pac: Bytes)
    requires pos < |content| && Rewrite(content, pos, pac).None?
    ensures RewriteAll(content, pos, pac).None?
  {
  }

  lemma NoChildren(content: Bytes, pac: Bytes)
    ensures RewriteAll(content, |content|, pac) == Some(([], false))
  {
  }

  /** Children already rewritten, in front of those still to come. */
  function Prepend(children: Bytes, any: bool, rest: Option<(Bytes, bool)>): Option<(Bytes, bool)> {
    if rest.None? then None else Some((children + rest.value.0, any || rest.value.1))
  }

  lemma PrependNothing(rest: Option<(Bytes, bool)>)
    ensures Prepend([], false, rest) == rest
  {
    if rest.Some? {
      assert [] + rest.value.0 == rest.value.0;
    }
  }

  lemma PrependTwice(a: Bytes, any: bool, b: Bytes, any': bool, rest: Option<(Bytes, bool)>)
    ensures Prepend(a, any, Prepend(b, any', rest)) == Prepend(a + b, any || any', rest)
  {
    if rest.Some? {
      assert a + (b + rest.value.0) == a + b + rest.value.0;
    }
  }

  /** `zero_pac_ad_data`. */
  function ZeroPac(ticket: Bytes, pac: Bytes): (r: Option<Bytes>) {
    if pac == [] then None
    else
      match Rewrite(ticket, 0, pac)
      case None => None
      case Some(inner) =>
        if inner.replaced && inner.len == |ticket| then Some(inner.out) else None
  }

  // ---------------------------------------------------------------- meaning

  ghost predicate Gives(r: Option<Rewritten>, out: Bytes, replaced: bool, len: nat) {
    r.Some? && r.value.out == out && r.value.replaced == replaced && r.value.len == len
  }

  ghost predicate GivesAll(r: Option<(Bytes, bool)>, out: Bytes, any: bool) {
    r.Some? && r.value.0 == out && r.value.1 == any
  }

  ghost predicate Reads(r: Option<Tlv>, tag: Byte, content: Bytes, len: nat) {
    && r.Some? && r.value.tag == tag && r.value.constructed == IsConstructed(tag)
    && r.value.content == content && r.value.len == len
  }

  lemma RewriteWhereItStands(pre: Bytes, e: Bytes, post: Bytes, pac: Bytes, tag: Byte, content: Bytes)
    requires Reads(ReadTlv(pre + e + post, |pre|), tag, content, |e|)
    ensures Rewrite(pre + e + post, |pre|, pac) == RewriteElement(e, Tlv(tag, IsConstructed(tag), content, |e|), pac)
  {
    assert (pre + e + post)[|pre|..|pre| + |e|] == e;
  }

  lemma ElementConstructed(orig: Bytes, t: Tlv, pac: Bytes)
    requires t.constructed && t.tag != OCTET_STRING
    ensures forall children, any :: GivesAll(RewriteAll(t.content, 0, pac), children, any) ==>
      Gives(RewriteElement(orig, t, pac), if any then EncodeTlv(t.tag, children) else orig, any, t.len)
  {
  }

  lemma ElementWrapped(orig: Bytes, t: Tlv, pac: Bytes)
    requires !t.constructed && t.tag == OCTET_STRING && t.content != pac && StartsSequence(t.content)
    ensures forall out, replaced :: Gives(Rewrite(t.content, 0, pac), out, replaced, |t.content|) ==>
      Gives(RewriteElement(orig, t, pac), if replaced then EncodeTlv(OCTET_STRING, out) else orig, replaced, t.len)
  {
  }

  /** A string that starts like a SEQUENCE but is not one whole element stays as it is. */
  lemma ElementNotWrapped(orig: Bytes, t: Tlv, pac: Bytes)
    requires !t.constructed && t.tag == OCTET_STRING && t.content != pac && !IsOneElement(t.content)
    ensures Gives(RewriteElement(orig, t, pac), orig, false, t.len)
  {
    var inner := ReadTlv(t.content, 0);
    if inner.Some? {
      assert inner.value.len != |t.content|;
    }
  }

  lemma RewriteNext(content: Bytes, pos: nat, pac: Bytes, out: Bytes, replaced: bool, next: nat, rest: Bytes, any: bool)
    requires pos < next <= |content| && Gives(Rewrite(content, pos, pac), out, replaced, next - pos)
    requires GivesAll(RewriteAll(content, next, pac), rest, any)
    ensures GivesAll(RewriteAll(content, pos, pac), out + rest, replaced || any)
  {
    assert pos + (next - pos) == next;
  }

  /** What is not replaced comes back byte for byte, whatever its form. */
  lemma UnreplacedIsUnchanged(data: Bytes, off: nat, pac: Bytes)
    requires Rewrite(data, off, pac).Some? && !Rewrite(data, off, pac).value.replaced
    ensures Rewrite(data, off, pac).value.out == data[off..off + Rewrite(data, off, pac).value.len]
  {
    var t := ReadTlv(data, off).value;
    var r := RewriteElement(data[off..off + t.len], t, pac);
    assert !r.value.replaced ==> r.value.out == data[off..off + t.len];
  }

  ghost predicate Occurs(pac: Bytes, data: Bytes) {
    exists i :: OccursAt(pac, data, i)
  }

  ghost predicate OccursAt(pac: Bytes, data: Bytes, i: int) {
    0 <= i <= |data| - |pac| && data[i..i + |pac|] == pac
  }

  lemma OccursInItself(pac: Bytes)
    ensures Occurs(pac, pac)
  {
    assert OccursAt(pac, pac, 0);
  }

  lemma SubSlice(s: Bytes, from: nat, to: nat, i: nat, j: nat)
    requires from <= to <= |s| && i <= j <= to - from
    ensures s[from..to][i..j] == s[from + i..from + j]
  {
    var inside, direct := s[from..to][i..j], s[from + i..from + j];
    assert forall k :: 0 <= k < j - i ==> inside[k] == direct[k];
  }

  lemma OccursInside(pac: Bytes, data: Bytes, from: nat, to: nat)
    requires from <= to <= |data| && Occurs(pac, data[from..to])
    ensures Occurs(pac, data)
  {
    var i :| OccursAt(pac, data[from..to], i);
    SubSlice(data, from, to, i, i + |pac|);
    assert OccursAt(pac, data, from + i);
  }

  /** Where the PAC's bytes do not stand, nothing is replaced. */
  lemma {:induction false} NothingToReplace(data: Bytes, off: nat, pac: Bytes)
    requires !Occurs(pac, data)
    ensures Rewrite(data, off, pac).Some? ==> !Rewrite(data, off, pac).value.replaced
    decreases |data| - off, 0
  {
    var parsed := ReadTlv(data, off);
    if parsed.Some? {
      var t := parsed.value;
      var from, to := off + t.len - |t.content|, off + t.len;
      OccursInItself(pac);
      assert t.content == data[from..to];
      if Occurs(pac, t.content) {
        OccursInside(pac, data, from, to);
      }
      if t.constructed {
        NothingToReplaceAll(t.content, 0, pac);
      } else if t.content != [] {
        NothingToReplace(t.content, 0, pac);
      }
    }
  }

  lemma {:induction false} NothingToReplaceAll(content: Bytes, pos: nat, pac: Bytes)
    requires pos <= |content| && !Occurs(pac, content)
    ensures RewriteAll(content, pos, pac).Some? ==> !RewriteAll(content, pos, pac).value.1
    decreases |content| - pos, 1
  {
    if pos < |content| {
      NothingToReplace(content, pos, pac);
      var inner := Rewrite(content, pos, pac);
      if inner.Some? {
        NothingToReplaceAll(content, pos + inner.value.len, pac);
      }
    }
  }
}
