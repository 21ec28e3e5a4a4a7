/** What zeroing a PAC means: encoded trees with a hole where each copy of the PAC stands. */
module DerTree {
  import opened Options
  import opened Bytes
  import opened Der

  /**
   * An element: a hole for the PAC, any other primitive element, a constructed element, or an
   * OCTET STRING that wraps one SEQUENCE.
   */
  datatype Node =
    | Hole
    | Primitive(tag: Byte, content: Bytes)
    | Constructed(tag: Byte, kids: seq<Node>)
    | Wrapper(kids: seq<Node>)

  function Encode(t: Node, fill: Bytes): Bytes {
    match t
    case Hole => EncodeTlv(OCTET_STRING, fill)
    case Primitive(tag, content) => EncodeTlv(tag, content)
    case Constructed(tag, kids) => EncodeTlv(tag, EncodeAll(kids, fill))
    case Wrapper(kids) => EncodeTlv(OCTET_STRING, EncodeTlv(SEQUENCE, EncodeAll(kids, fill)))
  }

  function EncodeAll(kids: seq<Node>, fill: Bytes): Bytes {
    if kids == [] then [] else Encode(kids[0], fill) + EncodeAll(kids[1..], fill)
  }

  predicate HasHole(t: Node) {
    match t
    case Hole => true
    case Primitive(_, _) => false
    case Constructed(_, kids) => AnyHole(kids)
    case Wrapper(kids) => AnyHole(kids)
  }

  predicate AnyHole(kids: seq<Node>) {
    kids != [] && (HasHole(kids[0]) || AnyHole(kids[1..]))
  }

  predicate Short(content: Bytes) {
    |content| < 0x1_0000_0000
  }

  /**
   * A tree the encoding can carry (single-byte tags, lengths below 2^32) in which only the holes
   * are OCTET STRINGs equal to the PAC. An OCTET STRING whose contents are exactly one SEQUENCE
   * element is either given as a `Wrapper` or does not hold the PAC's bytes.
   */
  ghost predicate WellFormed(t: Node, pac: Bytes) {
    match t
    case Hole => Short(pac)
    case Primitive(tag, content) =>
      && !HighTag(tag) && !IsConstructed(tag) && Short(content)
      && (tag == OCTET_STRING ==>
            content != pac && (StartsSequence(content) && IsOneElement(content) ==> !Occurs(pac, content)))
    case Constructed(tag, kids) =>
      !HighTag(tag) && IsConstructed(tag) && AllWellFormed(kids, pac) && Short(EncodeAll(kids, pac))
    case Wrapper(kids) =>
      var inner := EncodeTlv(SEQUENCE, EncodeAll(kids, pac));
      AllWellFormed(kids, pac) && Short(EncodeAll(kids, pac)) && Short(inner) && inner != pac
  }

  ghost predicate AllWellFormed(kids: seq<Node>, pac: Bytes) {
    kids == [] || (WellFormed(kids[0], pac) && AllWellFormed(kids[1..], pac))
  }

  lemma {:induction false} NoHoleNoDifference(t: Node, fill: Bytes, fill': Bytes)
    requires !HasHole(t)
    ensures Encode(t, fill) == Encode(t, fill')
  {
    match t
    case Hole =>
    case Primitive(_, _) =>
    case Constructed(_, kids) => NoHoleNoDifferenceAll(kids, fill, fill');
    case Wrapper(kids) => NoHoleNoDifferenceAll(kids, fill, fill');
  }

  lemma {:induction false} NoHoleNoDifferenceAll(kids: seq<Node>, fill: Bytes, fill': Bytes)
    requires !AnyHole(kids)
    ensures EncodeAll(kids, fill) == EncodeAll(kids, fill')
  {
    if kids != [] {
      NoHoleNoDifference(kids[0], fill, fill');
      NoHoleNoDifferenceAll(kids[1..], fill, fill');
    }
  }

  /** The element of the tree, wherever it stands, rewrites to the tree with its holes zeroed. */
  lemma {:induction false} ElementRewrites(t: Node, pac: Bytes, pre: Bytes, post: Bytes)
    requires WellFormed(t, pac)
    ensures var e := Encode(t, pac);
      Gives(Rewrite(pre + e + post, |pre|, pac), Encode(t, [0]), HasHole(t), |e|)
    decreases t, 0
  {
    match t
    case Hole =>
      ReadTlvOfEncoded(OCTET_STRING, pac, pre, post);
      RewriteWhereItStands(pre, Encode(t, pac), post, pac, OCTET_STRING, pac);
    case Primitive(tag, content) =>
      ReadTlvOfEncoded(tag, content, pre, post);
      RewriteWhereItStands(pre, Encode(t, pac), post, pac, tag, content);
      if tag == OCTET_STRING {
        if IsOneElement(content) && StartsSequence(content) {
          NothingToReplace(content, 0, pac);
        } else if !IsOneElement(content) {
          ElementNotWrapped(Encode(t, pac), Tlv(tag, IsConstructed(tag), content, |Encode(t, pac)|), pac);
        }
      }
    case Constructed(tag, kids) =>
      ConstructedRewrites(tag, kids, pac, pre, post);
    case Wrapper(kids) =>
      WrapperRewrites(kids, pac, pre, post);
  }

  lemma {:induction false} ChildrenRewrite(kids: seq<Node>, pac: Bytes, pre: Bytes)
    requires AllWellFormed(kids, pac)
    ensures GivesAll(RewriteAll(pre + EncodeAll(kids, pac), |pre|, pac), EncodeAll(kids, [0]), AnyHole(kids))
    decreases kids, 1
  {
    if kids != [] {
      var first, rest := Encode(kids[0], pac), EncodeAll(kids[1..], pac);
      var content := pre + first + rest;
      assert content == pre + EncodeAll(kids, pac);
      ElementRewrites(kids[0], pac, pre, rest);
      ChildrenRewrite(kids[1..], pac, pre + first);
      RewriteNext(content, |pre|, pac, Encode(kids[0], [0]), HasHole(kids[0]), |pre + first|,
                  EncodeAll(kids[1..], [0]), AnyHole(kids[1..]));
    } else {
      assert pre + EncodeAll(kids, pac) == pre;
    }
  }

  lemma {:induction false} ConstructedRewrites(tag: Byte, kids: seq<Node>, pac: Bytes, pre: Bytes, post: Bytes)
    requires !HighTag(tag) && IsConstructed(tag) && AllWellFormed(kids, pac) && Short(EncodeAll(kids, pac))
    ensures var e := EncodeTlv(tag, EncodeAll(kids, pac));
      Gives(Rewrite(pre + e + post, |pre|, pac), EncodeTlv(tag, EncodeAll(kids, [0])), AnyHole(kids), |e|)
    decreases kids, 2
  {
    var content := EncodeAll(kids, pac);
    var e := EncodeTlv(tag, content);
    ReadTlvOfEncoded(tag, content, pre, post);
    RewriteWhereItStands(pre, e, post, pac, tag, content);
    assert [] + content == content;
    ChildrenRewrite(kids, pac, []);
    ElementConstructed(e, Tlv(tag, IsConstructed(tag), content, |e|), pac);
    if !AnyHole(kids) {
      NoHoleNoDifferenceAll(kids, pac, [0]);
    }
  }

  lemma {:induction false} SequenceRewrites(content: Bytes, kids: seq<Node>, pac: Bytes)
    requires AllWellFormed(kids, pac) && Short(EncodeAll(kids, pac))
    requires content == EncodeTlv(SEQUENCE, EncodeAll(kids, pac))
    ensures Gives(Rewrite(content, 0, pac), EncodeTlv(SEQUENCE, EncodeAll(kids, [0])), AnyHole(kids), |content|)
    decreases kids, 3
  {
    NothingAround(content);
    ConstructedRewrites(SEQUENCE, kids, pac, [], []);
  }

  lemma {:induction false} WrapperRewrites(kids: seq<Node>, pac: Bytes, pre: Bytes, post: Bytes)
    requires WellFormed(Wrapper(kids), pac)
    ensures var e := Encode(Wrapper(kids), pac);
      Gives(Rewrite(pre + e + post, |pre|, pac), Encode(Wrapper(kids), [0]), AnyHole(kids), |e|)
    decreases kids, 4
  {
    var content := EncodeTlv(SEQUENCE, EncodeAll(kids, pac));
    var e := EncodeTlv(OCTET_STRING, content);
    ReadTlvOfEncoded(OCTET_STRING, content, pre, post);
    RewriteWhereItStands(pre, e, post, pac, OCTET_STRING, content);
    SequenceRewrites(content, kids, pac);
    StringAndSequence(EncodeAll(kids, pac));
    var t := Tlv(OCTET_STRING, IsConstructed(OCTET_STRING), content, |e|);
    assert t.content == content;
    ElementWrapped(e, t, pac);
    if !AnyHole(kids) {
      NoHoleNoDifferenceAll(kids, pac, [0]);
    }
  }

  lemma StringAndSequence(content: Bytes)
    ensures !IsConstructed(OCTET_STRING) && StartsSequence(EncodeTlv(SEQUENCE, content))
  {
  }

  lemma NothingAround(e: Bytes)
    ensures [] + e + [] == e
  {
  }

  /**
   * Zeroing the tree filled with the PAC gives the encoding of the tree filled with one zero byte;
   * a tree without a hole has no preimage.
   */
  lemma ZeroPacFillsHoles(t: Node, pac: Bytes)
    requires pac != [] && WellFormed(t, pac)
    ensures ZeroPac(Encode(t, pac), pac) == if HasHole(t) then Some(Encode(t, [0])) else None
  {
    NothingAround(Encode(t, pac));
    ElementRewrites(t, pac, [], []);
  }

  /** A ticket as it is encoded, 0x63 around a SEQUENCE, is zeroed wherever a hole stands in it. */
  lemma TicketIsZeroed(kids: seq<Node>, pac: Bytes)
    requires pac != [] && AllWellFormed(kids, pac) && AnyHole(kids)
    requires |EncodeAll(kids, pac)| < 0xFFFF_FFF0
    ensures ZeroPac([0x63] + EncodeLen(|[0x30] + EncodeLen(|EncodeAll(kids, pac)|) + EncodeAll(kids, pac)|)
                    + ([0x30] + EncodeLen(|EncodeAll(kids, pac)|) + EncodeAll(kids, pac)), pac)
         == Some([0x63] + EncodeLen(|[0x30] + EncodeLen(|EncodeAll(kids, [0])|) + EncodeAll(kids, [0])|)
                 + ([0x30] + EncodeLen(|EncodeAll(kids, [0])|) + EncodeAll(kids, [0])))
  {
    var inner := Constructed(0x30, kids);
    var ticket := Constructed(0x63, [inner]);
    TagFields(1, 1, 3);
    TagFields(0, 1, 16);
    hide EncodeLen;
    OnlyKid(inner, pac);
    OnlyKid(inner, [0]);
    ZeroPacFillsHoles(ticket, pac);
  }

  lemma OnlyKid(t: Node, fill: Bytes)
    ensures EncodeAll([t], fill) == Encode(t, fill)
    ensures AnyHole([t]) == HasHole(t)
    ensures AllWellFormed([t], fill) == WellFormed(t, fill)
  {
    assert [t][1..] == [];
    assert EncodeAll([], fill) == [] && Encode(t, fill) + [] == Encode(t, fill);
  }

  lemma SmallTicket()
    ensures ZeroPac([0x63, 5, 0x30, 3, 0x04, 1, 0xAA], [0xAA]) == Some([0x63, 5, 0x30, 3, 0x04, 1, 0])
  {
    OnlyKid(Hole, [0xAA]);
    OnlyKid(Hole, [0]);
    assert EncodeAll([Hole], [0xAA]) == [0x04, 1, 0xAA] && EncodeAll([Hole], [0]) == [0x04, 1, 0];
    assert [0x30] + [3] + [0x04, 1, 0xAA] == [0x30, 3, 0x04, 1, 0xAA];
    assert [0x30] + [3] + [0x04, 1, 0] == [0x30, 3, 0x04, 1, 0];
    assert [0x63] + [5] + [0x30, 3, 0x04, 1, 0xAA] == [0x63, 5, 0x30, 3, 0x04, 1, 0xAA];
    assert [0x63] + [5] + [0x30, 3, 0x04, 1, 0] == [0x63, 5, 0x30, 3, 0x04, 1, 0];
    TicketIsZeroed([Hole], [0xAA]);
  }

  lemma SmallWrapper(fill: Byte)
    ensures Encode(Wrapper([Hole]), [fill]) == [0x04, 5, 0x30, 3, 0x04, 1, fill]
  {
    OnlyKid(Hole, [fill]);
    assert EncodeAll([Hole], [fill]) == [0x04, 1, fill];
    assert EncodeTlv(SEQUENCE, [0x04, 1, fill]) == [0x30, 3, 0x04, 1, fill];
  }

  lemma SmallWrappedTicket()
    ensures ZeroPac([0x04, 5, 0x30, 3, 0x04, 1, 0xAA], [0xAA]) == Some([0x04, 5, 0x30, 3, 0x04, 1, 0])
  {
    SmallWrapper(0xAA);
    SmallWrapper(0);
    OnlyKid(Hole, [0xAA]);
    assert EncodeAll([Hole], [0xAA]) == [0x04, 1, 0xAA];
    assert EncodeTlv(SEQUENCE, [0x04, 1, 0xAA]) == [0x30, 3, 0x04, 1, 0xAA];
    ZeroPacFillsHoles(Wrapper([Hole]), [0xAA]);
  }

  /** Two small tickets, byte by byte; in the second the PAC stands in a wrapped SEQUENCE. */
  lemma SmallTicketsAreZeroed()
    ensures ZeroPac([0x63, 5, 0x30, 3, 0x04, 1, 0xAA], [0xAA]) == Some([0x63, 5, 0x30, 3, 0x04, 1, 0])
    ensures ZeroPac([0x04, 5, 0x30, 3, 0x04, 1, 0xAA], [0xAA]) == Some([0x04, 5, 0x30, 3, 0x04, 1, 0])
  {
    hide ZeroPac;
    SmallTicket();
    SmallWrappedTicket();
  }
}
