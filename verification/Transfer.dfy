/**
 * Sending a dump to a replica: its size, then its blocks, each message numbered in order.
 *
 * Messages are authentic or not; the network may drop, repeat and reorder them. Most encryption
 * types chain: a block opens only under the cipher state it was sealed under, which is known here by
 * how many blocks were sealed before it. What a read or a write of the local file does is a parameter.
 */
module Transfer {
  import opened Bytes
  import opened DumpSize
  import opened Options
  import opened SeqCheck

  /** The largest dump a replica takes. */
  const LIMIT: int := U32

  /** The size, or a block; `place` is how many blocks were sealed before it. */
  datatype Message = Safe(number: Seq, data: Bytes) | Priv(number: Seq, place: nat, data: Bytes)

  /** What a read from the network brings: nothing, an error message, a forgery, or what the peer sent. */
  datatype Delivery = Lost | ErrorReply | Forged | Genuine(msg: Message)

  function Concat(blocks: seq<Bytes>): Bytes {
    if blocks == [] then [] else Concat(blocks[..|blocks| - 1]) + blocks[|blocks| - 1]
  }

  function Total(blocks: seq<Bytes>): nat {
    if blocks == [] then 0 else Total(blocks[..|blocks| - 1]) + |blocks[|blocks| - 1]|
  }

  // ---------------------------------------------------------------- the sender

  datatype FileRead = Interrupted | Ended | Data(block: Bytes)

  /** The blocks read before the file ends. */
  function Chunks(file: seq<FileRead>): seq<Bytes> {
    if file == [] || file[0].Ended? || (file[0].Data? && file[0].block == []) then []
    else if file[0].Interrupted? then Chunks(file[1..])
    else [file[0].block] + Chunks(file[1..])
  }

  function Numbered(first: nat, blocks: seq<Bytes>): (r: seq<Message>)
    ensures |r| == |blocks|
  {
    if blocks == [] then []
    else
      var n := |blocks| - 1;
      Numbered(first, blocks[..n]) + [Priv(Nth(first + n), n, blocks[n])]
  }

  lemma {:induction false} NumberedAt(first: nat, blocks: seq<Bytes>, i: nat)
    requires i < |blocks|
    ensures Numbered(first, blocks)[i] == Priv(Nth(first + i), i, blocks[i])
  {
    hide Nth;
    if i < |blocks| - 1 {
      NumberedAt(first, blocks[..|blocks| - 1], i);
    }
  }

  /** The size, then the blocks, numbered from `first`. */
  function Messages(first: Seq, size: nat, blocks: seq<Bytes>): seq<Message> {
    [Safe(first, Encode(size))] + Numbered(first + 1, blocks)
  }

  /** Sends the size and then block by block; short of the size, or past it, the file is refused. */
  method Send(first: Seq, size: nat, file: seq<FileRead>) returns (sent: seq<Message>, complete: bool)
    ensures sent == Messages(first, size, Chunks(file))
    ensures complete <==> Total(Chunks(file)) == size
  {
    hide Nth, Encode, Numbered;
    sent := [Safe(first, Encode(size))];
    var number, place, total, i := Nth(first + 1), 0, 0, 0;
    ghost var blocks := [];
    assert file[0..] == file && Numbered(first + 1, []) == [];
    while i < |file|
      invariant i <= |file|
      invariant blocks + Chunks(file[i..]) == Chunks(file)
      invariant sent == Messages(first, size, blocks)
      invariant number == Nth(first + 1 + |blocks|) && place == |blocks|
      invariant total == Total(blocks)
    {
      assert file[i..][1..] == file[i + 1..];
      if file[i].Ended? || (file[i].Data? && file[i].block == []) {
        break;
      }
      if file[i].Data? {
        var block := file[i].block;
        OneMoreBlock(first, size, blocks, block);
        OneMoreTotal(blocks, block);
        sent := sent + [Priv(number, place, block)];
        NextNth(first + 1 + |blocks|);
        number, place := Nth((number as int) + 1), place + 1;
        total := total + |block|;
        blocks := blocks + [block];
      }
      i := i + 1;
    }
    assert blocks + [] == blocks;
    complete := total == size;
  }

  lemma OneMoreNumbered(first: nat, blocks: seq<Bytes>, block: Bytes)
    ensures Numbered(first, blocks + [block])
         == Numbered(first, blocks) + [Priv(Nth(first + |blocks|), |blocks|, block)]
  {
    hide Nth;
    assert (blocks + [block])[..|blocks|] == blocks;
  }

  lemma OneMoreTotal(blocks: seq<Bytes>, block: Bytes)
    ensures Total(blocks + [block]) == Total(blocks) + |block|
  {
    assert (blocks + [block])[..|blocks|] == blocks;
  }

  lemma OneMoreBlock(first: Seq, size: nat, blocks: seq<Bytes>, block: Bytes)
    ensures Messages(first, size, blocks + [block])
         == Messages(first, size, blocks) + [Priv(Nth(first + 1 + |blocks|), |blocks|, block)]
  {
    hide Nth, Encode, Numbered;
    OneMoreNumbered(first + 1, blocks, block);
    var last := Priv(Nth(first + 1 + |blocks|), |blocks|, block);
    AddedLast(Safe(first, Encode(size)), Numbered(first + 1, blocks), last);
  }

  lemma AddedLast(x: Message, middle: seq<Message>, y: Message)
    ensures [x] + (middle + [y]) == [x] + middle + [y]
  {
  }

  // ---------------------------------------------------------------- the receiver

  /** The number expected, how many blocks were opened, and whether the encryption type chains. */
  datatype Session = Session(remote: Remote, place: nat, chains: bool)

  function Start(first: Seq, chains: bool): Session {
    Session(Remote(first, false, false), 0, chains)
  }

  /** The message decrypts: where blocks are chained, only in its place. */
  predicate Opens(m: Message, s: Session) {
    m.Safe? || !s.chains || m.place == s.place
  }

  /** What is read from a delivery: an authentic message of the kind wanted that opens, with a number that is taken. */
  function Read(d: Delivery, safe: bool, s: Session): Option<(Message, Session)> {
    if d.Genuine? && d.msg.Safe? == safe && Opens(d.msg, s) && Check(s.remote, d.msg.number).0 then
      var r := Advance(Check(s.remote, d.msg.number).1);
      Some((d.msg, Session(r, if safe then s.place else s.place + 1, s.chains)))
    else None
  }

  /** The size announced, where it is one a replica takes. */
  function Announced(ds: seq<Delivery>, s: Session): Option<(nat, Session)> {
    if ds == [] then None
    else
      match Read(ds[0], true, s)
      case None => None
      case Some((m, s')) =>
        match Decode(m.data)
        case None => None
        case Some(want) => if want > LIMIT then None else Some((want, s'))
  }

  /** The messages taken, and whether they reached the size wanted. */
  datatype Receipt = Receipt(done: bool, taken: seq<Message>)

  function Blocks(ds: seq<Delivery>, s: Session, want: nat, received: nat): Receipt
    decreases |ds|
  {
    if received >= want then Receipt(true, [])
    else if ds == [] then Receipt(false, [])
    else
      match Read(ds[0], false, s)
      case None => Receipt(false, [])
      case Some((m, s')) =>
        var rest := Blocks(ds[1..], s', want, received + |m.data|);
        Receipt(rest.done, [m] + rest.taken)
  }

  function Received(ds: seq<Delivery>, s: Session): Receipt {
    match Announced(ds, s)
    case None => Receipt(false, [])
    case Some((want, s')) => Blocks(ds[1..], s', want, 0)
  }

  /** The blocks the messages carry. */
  function Payload(ms: seq<Message>): (r: seq<Bytes>)
    ensures |r| == |ms|
  {
    if ms == [] then [] else Payload(ms[..|ms| - 1]) + [ms[|ms| - 1].data]
  }

  /** How much of a block the file takes: a failed write takes nothing, and neither ends the transfer. */
  function Stored(block: Bytes, wrote: Option<nat>): Bytes {
    if wrote.None? then [] else if wrote.value < |block| then block[..wrote.value] else block
  }

  predicate Complete(block: Bytes, wrote: Option<nat>) {
    wrote.Some? && wrote.value >= |block|
  }

  /** The file, after the `i`-th write did what `disk(i)` says. */
  function OnDisk(blocks: seq<Bytes>, disk: nat -> Option<nat>): Bytes {
    if blocks == [] then []
    else OnDisk(blocks[..|blocks| - 1], disk) + Stored(blocks[|blocks| - 1], disk(|blocks| - 1))
  }

  /** How many error replies the writes call for. */
  function WriteErrors(blocks: seq<Bytes>, disk: nat -> Option<nat>): nat {
    if blocks == [] then 0
    else
      var n := |blocks| - 1;
      WriteErrors(blocks[..n], disk) + (if Complete(blocks[n], disk(n)) then 0 else 1)
  }

  lemma OneMoreWrite(blocks: seq<Bytes>, block: Bytes, disk: nat -> Option<nat>)
    ensures OnDisk(blocks + [block], disk) == OnDisk(blocks, disk) + Stored(block, disk(|blocks|))
    ensures WriteErrors(blocks + [block], disk)
         == WriteErrors(blocks, disk) + (if Complete(block, disk(|blocks|)) then 0 else 1)
  {
    assert (blocks + [block])[..|blocks|] == blocks;
  }

  lemma OneMoreTaken(ms: seq<Message>, m: Message)
    ensures Payload(ms + [m]) == Payload(ms) + [m.data]
  {
    assert (ms + [m])[..|ms|] == ms;
  }

  lemma BlocksStep(ds: seq<Delivery>, i: nat, s: Session, want: nat, received: nat, taken: seq<Message>)
    requires i < |ds| && received < want && Read(ds[i], false, s).Some?
    ensures var (m, s') := Read(ds[i], false, s).value;
      var here, next := Blocks(ds[i..], s, want, received), Blocks(ds[i + 1..], s', want, received + |m.data|);
      here.done == next.done && taken + here.taken == taken + [m] + next.taken
  {
    hide Read;
    assert ds[i..][1..] == ds[i + 1..];
  }

  lemma BlocksStop(ds: seq<Delivery>, i: nat, s: Session, want: nat, received: nat)
    requires i <= |ds|
    ensures received >= want ==> Blocks(ds[i..], s, want, received) == Receipt(true, [])
    ensures received < want && (i == |ds| || Read(ds[i], false, s).None?) ==>
      Blocks(ds[i..], s, want, received) == Receipt(false, [])
  {
    hide Read;
  }

  /**
   * Takes blocks until the size is reached; any message not taken ends the transfer. A write that
   * fails or falls short, and an overrun, are each answered with an error, and the transfer goes on.
   */
  method ReceiveBlocks(ds: seq<Delivery>, disk: nat -> Option<nat>, session: Session, want: nat)
    returns (done: bool, out: Bytes, errors: nat, received: nat)
    ensures var receipt := Blocks(ds, session, want, 0);
      && done == receipt.done && out == OnDisk(Payload(receipt.taken), disk)
      && errors == WriteErrors(Payload(receipt.taken), disk) && received == Total(Payload(receipt.taken))
  {
    hide Blocks, OnDisk, Read, Stored, WriteErrors, Payload, Total, Complete;
    out, done, errors, received := [], false, 0, 0;
    var s, i: nat := session, 0;
    ghost var taken: seq<Message> := [];
    ghost var all := Blocks(ds, session, want, 0);
    assert ds[0..] == ds && [] + all.taken == all.taken;
    NoBlocks(disk);
    while received < want
      invariant i <= |ds| && i == |taken|
      invariant all.done == Blocks(ds[i..], s, want, received).done
      invariant all.taken == taken + Blocks(ds[i..], s, want, received).taken
      invariant out == OnDisk(Payload(taken), disk) && errors == WriteErrors(Payload(taken), disk)
      invariant received == Total(Payload(taken))
      decreases |ds| - i
    {
      BlocksStop(ds, i, s, want, received);
      if i == |ds| || Read(ds[i], false, s).None? {
        assert taken + [] == taken;
        return;
      }
      BlocksStep(ds, i, s, want, received, taken);
      var (m, s') := Read(ds[i], false, s).value;
      OneMoreTaken(taken, m);
      OneMoreWrite(Payload(taken), m.data, disk);
      OneMoreTotal(Payload(taken), m.data);
      out := out + Stored(m.data, disk(i));
      if !Complete(m.data, disk(i)) {
        errors := errors + 1;
      }
      taken := taken + [m];
      received, s, i := received + |m.data|, s', i + 1;
    }
    BlocksStop(ds, i, s, want, received);
    assert taken + [] == taken;
    done := true;
  }

  /** How many error replies a transfer calls for: for its writes, and for an overrun. */
  function Errors(ds: seq<Delivery>, disk: nat -> Option<nat>, s: Session): nat {
    var blocks := Payload(Received(ds, s).taken);
    WriteErrors(blocks, disk)
    + (if Announced(ds, s).Some? && Total(blocks) > Announced(ds, s).value.0 then 1 else 0)
  }

  method Receive(ds: seq<Delivery>, disk: nat -> Option<nat>, s: Session)
    returns (done: Option<nat>, out: Bytes, errors: nat)
    ensures done.Some? <==> Received(ds, s).done
    ensures done.Some? ==> Announced(ds, s).Some? && done.value == Announced(ds, s).value.0
    ensures out == OnDisk(Payload(Received(ds, s).taken), disk) && errors == Errors(ds, disk, s)
  {
    NoBlocks(disk);
    hide Blocks, OnDisk, Read, Decode, WriteErrors, Payload, Total;
    var announced := Announced(ds, s);
    if announced.None? {
      return None, [], 0;
    }
    var (want, s') := announced.value;
    var ok, file, failed, received := ReceiveBlocks(ds[1..], disk, s', want);
    if received > want {
      failed := failed + 1;
    }
    return if ok then Some(want) else None, file, failed;
  }

  lemma NoBlocks(disk: nat -> Option<nat>)
    ensures Payload([]) == [] && OnDisk([], disk) == [] && WriteErrors([], disk) == 0 && Total([]) == 0
  {
  }

  // ---------------------------------------------------------------- what is read and what is written

  /** The data of the reads that brought some, in order. */
  function DataOf(file: seq<FileRead>): seq<Bytes> {
    if file == [] then []
    else
      var last := file[|file| - 1];
      DataOf(file[..|file| - 1]) + (if last.Data? then [last.block] else [])
  }

  predicate IsEnd(r: FileRead) {
    r.Ended? || (r.Data? && r.block == [])
  }

  lemma {:induction false} DataOfFirst(r: FileRead, rest: seq<FileRead>)
    ensures DataOf([r] + rest) == (if r.Data? then [r.block] else []) + DataOf(rest)
  {
    if rest == [] {
      assert [r] + rest == [r] && [r][..0] == [];
    } else {
      var n := |rest| - 1;
      assert ([r] + rest)[..|rest|] == [r] + rest[..n] && ([r] + rest)[|rest|] == rest[n];
      DataOfFirst(r, rest[..n]);
    }
  }

  /** The blocks are the data read before the file ends; interrupted reads make no difference. */
  lemma {:induction false} ChunksMean(before: seq<FileRead>, rest: seq<FileRead>)
    requires forall i :: 0 <= i < |before| ==> !IsEnd(before[i])
    requires rest == [] || IsEnd(rest[0])
    ensures Chunks(before + rest) == DataOf(before)
  {
    if before == [] {
      assert before + rest == rest;
    } else {
      assert (before + rest)[1..] == before[1..] + rest;
      ChunksMean(before[1..], rest);
      assert before == [before[0]] + before[1..];
      DataOfFirst(before[0], before[1..]);
    }
  }

  /** How many octets a write leaves on the disk. */
  function Wrote(block: Bytes, wrote: Option<nat>): nat {
    match wrote
    case None => 0
    case Some(n) => if n <= |block| then n else |block|
  }

  function AllWrote(blocks: seq<Bytes>, disk: nat -> Option<nat>): nat {
    if blocks == [] then 0 else AllWrote(blocks[..|blocks| - 1], disk) + Wrote(blocks[|blocks| - 1], disk(|blocks| - 1))
  }

  /** The file is as long as the writes made it, and what a write leaves is the beginning of its block. */
  lemma {:induction false} WrittenOctets(blocks: seq<Bytes>, disk: nat -> Option<nat>)
    ensures |OnDisk(blocks, disk)| == AllWrote(blocks, disk)
    ensures blocks != [] ==>
      var n := |blocks| - 1;
      var kept := AllWrote(blocks[..n], disk);
      && kept <= |OnDisk(blocks, disk)| && OnDisk(blocks, disk)[..kept] == OnDisk(blocks[..n], disk)
      && OnDisk(blocks, disk)[kept..] <= blocks[n]
  {
    if blocks != [] {
      WrittenOctets(blocks[..|blocks| - 1], disk);
    }
  }

  /** The writes that left less than their block. */
  function ShortWrites(blocks: seq<Bytes>, disk: nat -> Option<nat>): set<nat> {
    set i: nat | i < |blocks| && (disk(i).None? || disk(i).value < |blocks[i]|)
  }

  lemma OneMoreShort(blocks: seq<Bytes>, disk: nat -> Option<nat>)
    requires blocks != []
    ensures var n := |blocks| - 1;
      && n !in ShortWrites(blocks[..n], disk)
      && ShortWrites(blocks, disk)
         == ShortWrites(blocks[..n], disk) + (if Complete(blocks[n], disk(n)) then {} else {n})
  {
    var n := |blocks| - 1;
    assert forall i: nat :: i < n ==> blocks[..n][i] == blocks[i];
  }

  /** Errors are counted one for each such write. */
  lemma {:induction false} ErrorsAreShortWrites(blocks: seq<Bytes>, disk: nat -> Option<nat>)
    ensures WriteErrors(blocks, disk) == |ShortWrites(blocks, disk)|
  {
    if blocks == [] {
      assert ShortWrites(blocks, disk) == {};
    } else {
      OneMoreShort(blocks, disk);
      hide ShortWrites, Complete;
      ErrorsAreShortWrites(blocks[..|blocks| - 1], disk);
    }
  }
}
