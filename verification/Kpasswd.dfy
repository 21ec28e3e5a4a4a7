/**
 * Framing of password-change requests and replies, as in section 2 of RFC 3244: a length, a version
 * and the length of the first part, two octets each, then the two parts.
 */
module Kpasswd {
  import opened Bytes
  import opened Options

  const RFC3244_VERSION := 0xFF80

  const AP_REP := 15
  const KRB_ERROR := 30

  /** A 16-bit number, or 0 for what does not fit. */
  function U16(n: nat): Bytes {
    if n < 0x1_0000 then [n / 256, n % 256] else [0, 0]
  }

  function ReadU16(high: Byte, low: Byte): nat {
    256 * high + low
  }

  /** The parts, framed. */
  function Frame(first: Bytes, second: Bytes): Bytes {
    U16(6 + |first| + |second|) + U16(1) + U16(|first|) + first + second
  }

  /** The first octet is the application tag, primitive or constructed. */
  predicate IsAppTag(s: Bytes, tag: nat) {
    s != [] && (s[0] == 0x40 + tag || s[0] == 0x60 + tag)
  }

  /** Masking the constructed bit off leaves these two forms of each tag. */
  lemma TagMask(b: bv8)
    ensures b & 0xDF == 0x40 | 15 <==> b == 0x4F || b == 0x6F
    ensures b & 0xDF == 0x40 | 30 <==> b == 0x5E || b == 0x7E
  {
  }

  datatype Parts = Parts(first: Bytes, second: Bytes)

  /** What the server makes of a request before it reads the parts. */
  function Split(raw: Bytes): Option<Parts> {
    if |raw| < 4 || ReadU16(raw[0], raw[1]) != |raw| then None
    else
      var version := ReadU16(raw[2], raw[3]);
      if (version != 1 && version != RFC3244_VERSION) || |raw| < 6 then None
      else
        var n := ReadU16(raw[4], raw[5]);
        if 6 + n >= |raw| || n == 0 || IsAppTag(raw[6..6 + n], AP_REP) || IsAppTag(raw[6..6 + n], KRB_ERROR) then None
        else Some(Parts(raw[6..6 + n], raw[6 + n..]))
  }

  /** What a client makes of a reply. */
  function ParseReply(raw: Bytes): Option<Parts> {
    if |raw| < 6 then None
    else
      var n := ReadU16(raw[4], raw[5]);
      if n == 0 || 6 + n > |raw| then None else Some(Parts(raw[6..6 + n], raw[6 + n..]))
  }

  /** Builds the frame of a request: the length goes on last, in front. */
  method EncodeRequest(apReq: Bytes, krbPriv: Bytes) returns (out: Bytes)
    ensures out == Frame(apReq, krbPriv)
  {
    var inner := U16(1);
    inner := inner + U16(|apReq|);
    inner := inner + apReq;
    inner := inner + krbPriv;
    out := U16(|inner| + 2);
    out := out + inner;
    assert |inner| + 2 == 6 + |apReq| + |krbPriv|;
    assert out == Frame(apReq, krbPriv);
  }

  /** Builds the frame of a reply. */
  method FrameReply(apRep: Bytes, krbPriv: Bytes) returns (out: Bytes)
    ensures out == Frame(apRep, krbPriv)
  {
    var total := 6 + |apRep| + |krbPriv|;
    out := U16(total);
    out := out + U16(1);
    out := out + U16(|apRep|);
    out := out + apRep;
    out := out + krbPriv;
  }

  // ---------------------------------------------------------------- laws

  lemma U16Reads(n: nat)
    ensures |U16(n)| == 2 && ReadU16(U16(n)[0], U16(n)[1]) == if n < 0x1_0000 then n else 0
  {
  }

  /** The fields of a frame. */
  lemma FrameFields(first: Bytes, second: Bytes)
    ensures var raw := Frame(first, second);
      && |raw| == 6 + |first| + |second|
      && ReadU16(raw[0], raw[1]) == (if |raw| < 0x1_0000 then |raw| else 0)
      && ReadU16(raw[2], raw[3]) == 1
      && ReadU16(raw[4], raw[5]) == (if |first| < 0x1_0000 then |first| else 0)
      && raw[6..6 + |first|] == first && raw[6 + |first|..] == second
  {
    U16Reads(6 + |first| + |second|);
    U16Reads(1);
    U16Reads(|first|);
    hide U16, ReadU16;
    var a, b, c := U16(6 + |first| + |second|), U16(1), U16(|first|);
    var raw := a + b + c + first + second;
    assert raw[0] == a[0] && raw[1] == a[1] && raw[2] == b[0] && raw[3] == b[1] && raw[4] == c[0] && raw[5] == c[1];
  }

  /** The server splits a framed request into its parts exactly when it fits and does not start like a reply. */
  lemma RequestSplits(apReq: Bytes, krbPriv: Bytes)
    ensures Split(Frame(apReq, krbPriv)) == Some(Parts(apReq, krbPriv)) <==>
      && 6 + |apReq| + |krbPriv| < 0x1_0000 && apReq != [] && krbPriv != []
      && !IsAppTag(apReq, AP_REP) && !IsAppTag(apReq, KRB_ERROR)
    ensures Split(Frame(apReq, krbPriv)).Some? ==> Split(Frame(apReq, krbPriv)) == Some(Parts(apReq, krbPriv))
  {
    FrameFields(apReq, krbPriv);
    hide Frame, ReadU16;
  }

  /** The client splits a framed reply into its parts exactly when its first part can be counted. */
  lemma ReplyParses(apRep: Bytes, krbPriv: Bytes)
    ensures ParseReply(Frame(apRep, krbPriv)) == Some(Parts(apRep, krbPriv)) <==> 0 < |apRep| < 0x1_0000
    ensures ParseReply(Frame(apRep, krbPriv)).Some? ==> 0 < |apRep| < 0x1_0000
  {
    FrameFields(apRep, krbPriv);
    hide Frame, ReadU16;
  }

  /** A reply: an AP-REP and a KRB-PRIV, or nothing and a KRB-ERROR. */
  ghost predicate IsReply(raw: Bytes) {
    exists first: Bytes, second: Bytes :: (first == [] || IsAppTag(first, AP_REP)) && raw == Frame(first, second)
  }

  /** A reply sent on to a server is refused, whatever its size. */
  lemma ReplyIsRefused(raw: Bytes)
    requires IsReply(raw)
    ensures Split(raw).None?
  {
    var first: Bytes, second: Bytes :| (first == [] || IsAppTag(first, AP_REP)) && raw == Frame(first, second);
    FrameFields(first, second);
    hide Frame, ReadU16;
  }

  // ---------------------------------------------------------------- the server

  /** What reading the AP-REQ comes to: the contents of an AP-REP, or why it was refused. */
  datatype Reading = Accepted(apRep: Bytes) | Refused(why: Bytes)

  /**
   * What the handler calls: reading the AP-REQ, opening the KRB-PRIV, changing the password as the
   * message asks (which gives the result to send), sealing a result, and encoding an error; the last
   * two may fail.
   */
  datatype Server = Server(read: Bytes -> Reading, open: Bytes -> Option<Bytes>, change: (Bytes, Bytes) -> Bytes,
                           cannotOpen: Bytes, seal: Bytes -> Option<Bytes>, error: Bytes -> Option<Bytes>)
  {
    /** A framed KRB-ERROR. */
    function Failing(data: Bytes): Option<Bytes> {
      match error(data)
      case None => None
      case Some(der) => Some(Frame([], der))
    }

    /** A result, sealed after the AP-REP; unsealed, it goes out in an error. */
    function Result(apRep: Bytes, result: Bytes): Option<Bytes> {
      match seal(result)
      case None => Failing(result)
      case Some(krbPriv) => Some(Frame([0x60 + AP_REP] + apRep, krbPriv))
    }

    /** The answer to a message, if it gets one. */
    function Handle(raw: Bytes): Option<Bytes> {
      match Split(raw)
      case None => None
      case Some(parts) =>
        match read(parts.first)
        case Refused(why) => Failing(why)
        case Accepted(apRep) =>
          match open(parts.second)
          case None => Result(apRep, cannotOpen)
          case Some(data) => Result(apRep, change(raw, data))
    }

    /** Every answer is a reply. */
    lemma AnswersAreReplies(raw: Bytes)
      ensures Handle(raw).Some? ==> Split(raw).Some? && IsReply(Handle(raw).value)
    {
      if Handle(raw).Some? {
        hide Frame;
        var parts := Split(raw).value;
        match read(parts.first) {
          case Refused(why) =>
            assert Handle(raw).value == Frame([], error(why).value);
          case Accepted(apRep) =>
            var data := open(parts.second);
            var result := if data.None? then cannotOpen else change(raw, data.value);
            assert Handle(raw) == Result(apRep, result);
            if seal(result).None? {
              assert Handle(raw).value == Frame([], error(result).value);
            } else {
              assert Handle(raw).value == Frame([0x60 + AP_REP] + apRep, seal(result).value);
            }
        }
      }
    }
  }

  /** Servers that send each answer on to the next: how many answer. */
  function Answered(servers: seq<Server>, raw: Bytes): nat {
    if servers == [] then 0
    else
      match servers[0].Handle(raw)
      case None => 0
      case Some(reply) => 1 + Answered(servers[1..], reply)
  }

  /** Whatever is sent first, servers never answer each other. */
  lemma {:induction false} ReflectionStops(servers: seq<Server>, raw: Bytes)
    ensures Answered(servers, raw) <= 1
    ensures Split(raw).None? ==> Answered(servers, raw) == 0
    ensures servers != [] ==> (Answered(servers, raw) == 1 <==> servers[0].Handle(raw).Some?)
  {
    if servers != [] && servers[0].Handle(raw).Some? {
      var reply := servers[0].Handle(raw).value;
      servers[0].AnswersAreReplies(raw);
      ReplyIsRefused(reply);
      ReflectionStops(servers[1..], reply);
    }
  }

  // ---------------------------------------------------------------- fields, spelt out

  /** Lengths are big-endian. */
  lemma U16Means(n: nat, high: Byte, low: Byte)
    ensures n < 0x1_0000 ==> BigEndian(U16(n)) == n
    ensures ReadU16(high, low) == BigEndian([high, low])
  {
    BigEndianSnoc([high], low);
    BigEndianSnoc([], high);
    assert [] + [high] == [high] && [high] + [low] == [high, low];
    if n < 0x1_0000 {
      BigEndianSnoc([n / 256], n % 256);
      BigEndianSnoc([], n / 256);
      assert [] + [n / 256] == [n / 256] && [n / 256] + [n % 256] == U16(n);
    }
  }

  /** An application tag is told by its octet with the constructed bit masked off. */
  lemma AppTagMeans(b: bv8, rest: Bytes)
    ensures IsAppTag([b as int] + rest, AP_REP) <==> b & 0xDF == 0x40 | 15
    ensures IsAppTag([b as int] + rest, KRB_ERROR) <==> b & 0xDF == 0x40 | 30
  {
    TagMask(b);
  }

  /** A message of any version and any parts that fits. */
  function Message(version: nat, first: Bytes, second: Bytes): Bytes
    requires version < 0x1_0000 && 6 + |first| + |second| < 0x1_0000
  {
    U16(6 + |first| + |second|) + U16(version) + U16(|first|) + first + second
  }

  lemma MessageFields(version: nat, first: Bytes, second: Bytes)
    requires version < 0x1_0000 && 6 + |first| + |second| < 0x1_0000
    ensures var raw := Message(version, first, second);
      && |raw| == 6 + |first| + |second| && ReadU16(raw[0], raw[1]) == |raw| && ReadU16(raw[2], raw[3]) == version
      && ReadU16(raw[4], raw[5]) == |first| && raw[6..6 + |first|] == first && raw[6 + |first|..] == second
  {
    U16Reads(6 + |first| + |second|);
    U16Reads(version);
    U16Reads(|first|);
    hide U16, ReadU16;
    var a, b, c := U16(6 + |first| + |second|), U16(version), U16(|first|);
    var raw := a + b + c + first + second;
    assert raw[0] == a[0] && raw[1] == a[1] && raw[2] == b[0] && raw[3] == b[1] && raw[4] == c[0] && raw[5] == c[1];
  }

  /** It is split if and only if its version is 1 or 0xFF80, both parts are there and the first is no reply. */
  lemma MessageSplits(version: nat, first: Bytes, second: Bytes)
    requires version < 0x1_0000 && 6 + |first| + |second| < 0x1_0000
    ensures Split(Message(version, first, second))
         == if (version == 1 || version == 0xFF80) && first != [] && second != []
               && first[0] !in {0x4F, 0x6F, 0x5E, 0x7E}
            then Some(Parts(first, second)) else None
  {
    MessageFields(version, first, second);
    hide Message, ReadU16;
  }

  lemma U16OfRead(high: Byte, low: Byte)
    ensures U16(ReadU16(high, low)) == [high, low]
  {
  }

  /** And whatever is split is such a message. */
  lemma SplitIsMessage(raw: Bytes) returns (version: nat)
    requires Split(raw).Some?
    ensures var parts := Split(raw).value;
      && version < 0x1_0000 && 6 + |parts.first| + |parts.second| < 0x1_0000
      && raw == Message(version, parts.first, parts.second)
  {
    version := ReadU16(raw[2], raw[3]);
    var n := ReadU16(raw[4], raw[5]);
    U16OfRead(raw[0], raw[1]);
    U16OfRead(raw[2], raw[3]);
    U16OfRead(raw[4], raw[5]);
    assert |raw| < 0x1_0000;
    hide U16, ReadU16;
    assert raw == [raw[0], raw[1]] + [raw[2], raw[3]] + [raw[4], raw[5]] + raw[6..6 + n] + raw[6 + n..];
  }
}
