/**
 * What a replica stores, over every behaviour of the network: whole blocks, in order, without gaps.
 */
module TransferLaws {
  import opened Bytes
  import opened DumpSize
  import opened Options
  import opened SeqCheck
  import opened Transfer

  /** The network makes up nothing: what arrives as genuine was sent. */
  predicate FromSender(ds: seq<Delivery>, sent: seq<Message>) {
    forall i :: 0 <= i < |ds| && ds[i].Genuine? ==> ds[i].msg in sent
  }

  /** Every message taken is the one whose turn it is. */
  predicate InTurn(taken: seq<Message>) {
    forall i :: 0 <= i < |taken| ==> taken[i].Priv? && taken[i].place == i
  }

  // ---------------------------------------------------------------- totals

  lemma {:induction false} TotalSplits(a: seq<Bytes>, b: seq<Bytes>)
    ensures Total(a + b) == Total(a) + Total(b)
  {
    if b == [] {
      assert a + b == a;
    } else {
      var b', last := b[..|b| - 1], b[|b| - 1];
      TotalSplits(a, b');
      OneMoreTotal(a + b', last);
      assert a + b == a + b' + [last];
    }
  }

  /** The blocks end where their total first reaches what is wanted. */
  predicate JustEnough(blocks: seq<Bytes>, want: int) {
    && Total(blocks) >= want
    && (want <= 0 ==> blocks == [])
    && (blocks != [] ==> Total(blocks[..|blocks| - 1]) < want)
  }

  lemma EnoughAfter(data: Bytes, rest: seq<Bytes>, want: int)
    requires want > 0 && JustEnough(rest, want - |data|)
    ensures JustEnough([data] + rest, want)
  {
    var all := [data] + rest;
    TotalSplits([data], rest);
    assert [data][..0] == [] && Total([data]) == |data|;
    if rest != [] {
      assert all[..|all| - 1] == [data] + rest[..|rest| - 1];
      TotalSplits([data], rest[..|rest| - 1]);
    } else {
      assert all == [data];
    }
  }

  lemma EmptyTotal()
    ensures Total([]) == 0
  {
  }

  lemma TotalGrows(blocks: seq<Bytes>, i: nat, k: nat)
    requires i <= k <= |blocks|
    ensures Total(blocks[..i]) <= Total(blocks[..k])
  {
    assert blocks[..k] == blocks[..i] + blocks[i..k];
    TotalSplits(blocks[..i], blocks[i..k]);
  }

  lemma NextTotal(blocks: seq<Bytes>, k: nat)
    requires k < |blocks|
    ensures Total(blocks[..k + 1]) == Total(blocks[..k]) + |blocks[k]|
  {
    assert blocks[..k + 1] == blocks[..k] + [blocks[k]];
    OneMoreTotal(blocks[..k], blocks[k]);
  }

  /** A further block is read after the first `k`: they do not make up the size. */
  predicate Wants(blocks: seq<Bytes>, size: nat, k: nat) {
    k <= |blocks| && Total(blocks[..k]) < size <= LIMIT
  }

  /** How many blocks are read at most, if those sent are taken in order. */
  function Places(blocks: seq<Bytes>, size: nat): (m: nat)
    ensures m <= |blocks| + 1
  {
    if Wants(blocks, size, |blocks|) then |blocks| + 1
    else if blocks == [] then 0
    else Places(blocks[..|blocks| - 1], size)
  }

  lemma {:induction false} PlacesAreWanted(blocks: seq<Bytes>, size: nat, k: nat)
    ensures k < Places(blocks, size) <==> Wants(blocks, size, k)
  {
    var n := |blocks|;
    if Wants(blocks, size, n) {
      if k <= n {
        TotalGrows(blocks, k, n);
      }
    } else if n > 0 {
      PlacesAreWanted(blocks[..n - 1], size, k);
      if k < n {
        assert blocks[..n - 1][..k] == blocks[..k];
      }
    }
  }

  // ---------------------------------------------------------------- one message

  /** The receiver once the size and `k` blocks were taken in order. */
  function SessionAt(first: Seq, k: nat, chains: bool): Session {
    Session(StateAt(first, k), k, chains)
  }

  lemma SentBlock(first: Seq, size: nat, blocks: seq<Bytes>, msg: Message)
    requires msg in Messages(first, size, blocks) && msg.Priv?
    ensures msg.place < |blocks| && msg == Numbered(first + 1, blocks)[msg.place]
    ensures msg.number == Nth(first + 1 + msg.place) && msg.data == blocks[msg.place]
  {
    hide Encode, Nth, Numbered;
    var sent, ms := Messages(first, size, blocks), Numbered(first + 1, blocks);
    var i :| 0 <= i < |sent| && sent[i] == msg;
    assert i > 0 && msg == ms[i - 1];
    NumberedAt(first + 1, blocks, i - 1);
  }

  lemma SentSize(first: Seq, size: nat, blocks: seq<Bytes>, msg: Message)
    requires msg in Messages(first, size, blocks) && msg.Safe?
    ensures msg == Safe(first, Encode(size))
  {
    hide Encode, Numbered, Nth;
    var sent := Messages(first, size, blocks);
    var i :| 0 <= i < |sent| && sent[i] == msg;
    if i > 0 {
      NumberedAt(first + 1, blocks, i - 1);
    }
  }

  /** The message whose turn it is is taken. */
  lemma TurnTaken(first: Seq, k: nat, data: Bytes, chains: bool)
    ensures var m := Priv(Nth(first + 1 + k), k, data);
      Read(Genuine(m), false, SessionAt(first, k, chains)) == Some((m, SessionAt(first, k + 1, chains)))
  {
    StateIs(first, k);
    Taken(StateAt(first, k), Nth(first + 1 + k));
    hide Check, Nth, Advance;
  }

  /** A block taken is the next, or one taken out of turn because nothing chains it to its place. */
  lemma TakenBlock(d: Delivery, first: Seq, size: nat, blocks: seq<Bytes>, k: nat, chains: bool)
    requires d.Genuine? ==> d.msg in Messages(first, size, blocks)
    requires Read(d, false, SessionAt(first, k, chains)).Some?
    ensures d.Genuine? && d.msg.Priv? && d.msg.place < |blocks|
    ensures d.msg == Numbered(first + 1, blocks)[d.msg.place] && d.msg.data == blocks[d.msg.place]
    ensures d.msg.place == k || (!chains && OutOfTurn(first, k, d.msg.place))
    ensures d.msg.place == k ==>
      Read(d, false, SessionAt(first, k, chains)) == Some((d.msg, SessionAt(first, k + 1, chains)))
  {
    hide Messages, Numbered, Check, StateAt, Nth, Advance;
    SentBlock(first, size, blocks, d.msg);
    TurnTaken(first, k, d.msg.data, chains);
  }

  /** The size taken is the size sent. */
  lemma SizeTaken(ds: seq<Delivery>, first: Seq, size: nat, blocks: seq<Bytes>, chains: bool)
    requires size < U64 && FromSender(ds, Messages(first, size, blocks))
    requires Announced(ds, Start(first, chains)).Some?
    ensures Announced(ds, Start(first, chains)) == Some((size, SessionAt(first, 0, chains))) && size <= 0x1_0000_0000
  {
    SentSize(first, size, blocks, ds[0].msg);
    DecodeUndoesEncode(size);
    hide Encode, Decode, Messages;
  }

  // ---------------------------------------------------------------- the blocks taken

  /** Blocks are chained to their places, or their numbers alone tell them apart. */
  predicate Ordered(first: Seq, size: nat, blocks: seq<Bytes>, chains: bool) {
    chains || Unambiguous(first, |blocks|, Places(blocks, size))
  }

  lemma NextBlock(d: Delivery, first: Seq, size: nat, blocks: seq<Bytes>, k: nat, chains: bool)
    requires Ordered(first, size, blocks, chains) && Wants(blocks, size, k)
    requires d.Genuine? ==> d.msg in Messages(first, size, blocks)
    requires Read(d, false, SessionAt(first, k, chains)).Some?
    ensures k < |blocks|
    ensures Read(d, false, SessionAt(first, k, chains))
         == Some((Numbered(first + 1, blocks)[k], SessionAt(first, k + 1, chains)))
    ensures Numbered(first + 1, blocks)[k].data == blocks[k]
  {
    TakenBlock(d, first, size, blocks, k, chains);
    NumberedAt(first + 1, blocks, d.msg.place);
    hide Messages, Read, Numbered, Wants, Places, OutOfTurn;
    if !chains {
      PlacesAreWanted(blocks, size, k);
      UnambiguousInTurn(first, |blocks|, Places(blocks, size), k, d.msg.place);
    }
  }

  /** From the `k`-th on, the blocks taken are those sent, in order; if enough, just enough. */
  lemma {:induction false} BlocksInOrder(ds: seq<Delivery>, first: Seq, size: nat, blocks: seq<Bytes>, k: nat,
                                         chains: bool)
    requires Ordered(first, size, blocks, chains) && FromSender(ds, Messages(first, size, blocks))
    requires k <= |blocks| && size <= LIMIT
    ensures var receipt := Blocks(ds, SessionAt(first, k, chains), size, Total(blocks[..k]));
      && receipt.taken <= Numbered(first + 1, blocks)[k..]
      && (receipt.done ==> JustEnough(blocks[k..k + |receipt.taken|], size - Total(blocks[..k])))
    decreases |ds|
  {
    hide Messages, Read, Total, Ordered, SessionAt, Numbered;
    EmptyTotal();
    var received, s, ms := Total(blocks[..k]), SessionAt(first, k, chains), Numbered(first + 1, blocks);
    if received < size && ds != [] && Read(ds[0], false, s).Some? {
      NextBlock(ds[0], first, size, blocks, k, chains);
      NextTotal(blocks, k);
      BlocksInOrder(ds[1..], first, size, blocks, k + 1, chains);
      var rest := Blocks(ds[1..], SessionAt(first, k + 1, chains), size, Total(blocks[..k + 1]));
      assert ms[k..] == [ms[k]] + ms[k + 1..];
      if rest.done {
        EnoughAfter(blocks[k], blocks[k + 1..k + 1 + |rest.taken|], size - received);
        assert [blocks[k]] + blocks[k + 1..k + 1 + |rest.taken|] == blocks[k..k + 1 + |rest.taken|];
      }
    } else {
      assert blocks[k..k] == [];
    }
  }

  lemma {:induction false} PayloadOfFirst(first: nat, blocks: seq<Bytes>, taken: seq<Message>)
    requires taken <= Numbered(first, blocks)
    ensures Payload(taken) == blocks[..|taken|]
    decreases |taken|
  {
    if taken != [] {
      var k := |taken| - 1;
      PayloadOfFirst(first, blocks, taken[..k]);
      NumberedAt(first, blocks, k);
      hide Nth, Numbered;
      assert blocks[..k + 1] == blocks[..k] + [blocks[k]];
    }
  }

  lemma RestFromSender(ds: seq<Delivery>, sent: seq<Message>)
    requires ds != [] && FromSender(ds, sent)
    ensures FromSender(ds[1..], sent)
  {
  }

  /**
   * Whatever the network does, the messages taken are the first of those sent; if the transfer
   * succeeds, the size is the one sent and the blocks reach it with the last.
   */
  lemma TransferIsPrefix(ds: seq<Delivery>, first: Seq, size: nat, blocks: seq<Bytes>, chains: bool)
    requires size < U64 && Ordered(first, size, blocks, chains) && FromSender(ds, Messages(first, size, blocks))
    ensures var receipt := Received(ds, Start(first, chains));
      && receipt.taken <= Numbered(first + 1, blocks) && Payload(receipt.taken) <= blocks
      && (receipt.done ==> size <= LIMIT && JustEnough(Payload(receipt.taken), size))
  {
    hide Announced, Messages, JustEnough, Blocks, Ordered, Numbered, Payload, FromSender, SessionAt, Total, Received;
    var s, ms := Start(first, chains), Numbered(first + 1, blocks);
    ReceivedIs(ds, s);
    var taken := Received(ds, s).taken;
    if Announced(ds, s).Some? {
      RestFromSender(ds, Messages(first, size, blocks));
      SizeTaken(ds, first, size, blocks, chains);
      EmptyTotal();
      assert blocks[..0] == [] && ms[0..] == ms;
      BlocksInOrder(ds[1..], first, size, blocks, 0, chains);
      assert blocks[0..|taken|] == blocks[..|taken|];
    }
    PayloadOfFirst(first + 1, blocks, taken);
  }

  lemma ReceivedIs(ds: seq<Delivery>, s: Session)
    ensures Announced(ds, s).None? ==> Received(ds, s) == Receipt(false, [])
    ensures Announced(ds, s).Some? ==>
      ds != [] && Received(ds, s) == Blocks(ds[1..], Announced(ds, s).value.1, Announced(ds, s).value.0, 0)
  {
  }

  // ---------------------------------------------------------------- messages in order

  function Delivered(ms: seq<Message>): seq<Delivery> {
    if ms == [] then [] else [Genuine(ms[0])] + Delivered(ms[1..])
  }

  lemma {:induction false} DeliveredIsSent(ms: seq<Message>, sent: seq<Message>)
    requires forall m :: m in ms ==> m in sent
    ensures FromSender(Delivered(ms), sent)
  {
    if ms != [] {
      DeliveredIsSent(ms[1..], sent);
    }
  }

  lemma NothingDelivered()
    ensures Delivered([]) == []
  {
  }

  lemma HeadTaken(d: Delivery, ds: seq<Delivery>, s: Session, want: nat, received: nat)
    requires received < want && Read(d, false, s).Some?
    ensures var (m, s') := Read(d, false, s).value;
      var all, rest := Blocks([d] + ds, s, want, received), Blocks(ds, s', want, received + |m.data|);
      all.done == rest.done && all.taken == [m] + rest.taken
  {
    hide Read;
    assert ([d] + ds)[1..] == ds;
  }

  lemma DeliveredStep(ms: seq<Message>, i: nat, k: nat, tail: seq<Delivery>)
    requires i < k <= |ms|
    ensures Delivered(ms[i..k]) + tail == [Genuine(ms[i])] + (Delivered(ms[i + 1..k]) + tail)
  {
    assert ms[i..k][1..] == ms[i + 1..k];
  }

  /** Blocks in order are taken, and what comes after them is read in the next place. */
  lemma {:induction false} RunTaken(first: Seq, size: nat, blocks: seq<Bytes>, i: nat, k: nat, chains: bool,
                                    tail: seq<Delivery>)
    requires i <= k <= |blocks| && k <= Places(blocks, size)
    ensures var ms := Numbered(first + 1, blocks);
      var all := Blocks(Delivered(ms[i..k]) + tail, SessionAt(first, i, chains), size, Total(blocks[..i]));
      var rest := Blocks(tail, SessionAt(first, k, chains), size, Total(blocks[..k]));
      all.done == rest.done && all.taken == ms[i..k] + rest.taken
    decreases k - i
  {
    hide Blocks, Read, Total, SessionAt, Places, Nth, Wants, Numbered, Delivered;
    var ms := Numbered(first + 1, blocks);
    var rest := Blocks(tail, SessionAt(first, k, chains), size, Total(blocks[..k]));
    if i == k {
      NothingDelivered();
      assert ms[i..k] == [] && [] + tail == tail && [] + rest.taken == rest.taken;
    } else {
      PlacesAreWanted(blocks, size, i);
      WantsMore(blocks, size, i);
      TurnTaken(first, i, blocks[i], chains);
      NumberedAt(first + 1, blocks, i);
      NextTotal(blocks, i);
      DeliveredStep(ms, i, k, tail);
      HeadTaken(Genuine(ms[i]), Delivered(ms[i + 1..k]) + tail, SessionAt(first, i, chains), size, Total(blocks[..i]));
      RunTaken(first, size, blocks, i + 1, k, chains, tail);
      SplitRun(ms, i, k, rest.taken);
    }
  }

  lemma SplitRun(ms: seq<Message>, i: nat, k: nat, rest: seq<Message>)
    requires i < k <= |ms|
    ensures [ms[i]] + (ms[i + 1..k] + rest) == ms[i..k] + rest
  {
  }

  lemma WantsMore(blocks: seq<Bytes>, size: nat, k: nat)
    requires Wants(blocks, size, k)
    ensures Total(blocks[..k]) < size
  {
  }

  /** The size message, and then `k` blocks in order. */
  lemma StartTaken(first: Seq, size: nat, blocks: seq<Bytes>, k: nat, chains: bool, tail: seq<Delivery>)
    requires size <= LIMIT && k <= |blocks| && k <= Places(blocks, size)
    ensures var ms := Numbered(first + 1, blocks);
      var ds := [Genuine(Safe(first, Encode(size)))] + (Delivered(ms[..k]) + tail);
      var all := Received(ds, Start(first, chains));
      var rest := Blocks(tail, SessionAt(first, k, chains), size, Total(blocks[..k]));
      all.done == rest.done && all.taken == ms[..k] + rest.taken
  {
    var ms := Numbered(first + 1, blocks);
    var run := Delivered(ms[..k]) + tail;
    SizeIsTaken(first, size, run, chains);
    hide Announced, Blocks, Numbered, Places, SessionAt, Start, Encode, Delivered;
    EmptyTotal();
    assert blocks[..0] == [] && ms[0..k] == ms[..k];
    RunTaken(first, size, blocks, 0, k, chains, tail);
    assert ([Genuine(Safe(first, Encode(size)))] + run)[1..] == run;
  }

  lemma SizeIsTaken(first: Seq, size: nat, ds: seq<Delivery>, chains: bool)
    requires size <= LIMIT
    ensures Announced([Genuine(Safe(first, Encode(size)))] + ds, Start(first, chains))
         == Some((size, SessionAt(first, 0, chains)))
  {
    DecodeUndoesEncode(size);
    hide Encode, Decode;
  }

  /** Delivered in order, every dump within the limit is taken whole, for every first number. */
  lemma UndisturbedSucceeds(first: Seq, blocks: seq<Bytes>, chains: bool)
    requires NoneEmpty(blocks) && Total(blocks) <= 0x1_0000_0000
    ensures Received(Delivered(Messages(first, Total(blocks), blocks)), Start(first, chains))
         == Receipt(true, Numbered(first + 1, blocks))
  {
    var n, size, ms := |blocks|, Total(blocks), Numbered(first + 1, blocks);
    AllPlaces(blocks);
    StartTaken(first, size, blocks, n, chains, []);
    hide Numbered, Received, NoneEmpty, Places, Encode;
    var sent := Messages(first, size, blocks);
    assert sent[1..] == ms && ms[..n] == ms && ms + [] == ms && blocks[..n] == blocks;
    assert Delivered(ms) + [] == Delivered(ms);
    assert Blocks([], SessionAt(first, n, chains), size, size) == Receipt(true, []);
  }

  /** A dump announced by its own size is read in exactly as many places as it has blocks. */
  lemma AllPlaces(blocks: seq<Bytes>)
    requires NoneEmpty(blocks) && Total(blocks) <= LIMIT
    ensures Places(blocks, Total(blocks)) == |blocks|
  {
    var n := |blocks|;
    assert blocks[..n] == blocks;
    PlacesAreWanted(blocks, Total(blocks), n);
    if n > 0 {
      NextTotal(blocks, n - 1);
      assert blocks[n - 1] != [];
      PlacesAreWanted(blocks, Total(blocks), n - 1);
    }
    hide NoneEmpty, Total, Places;
  }

  // ---------------------------------------------------------------- messages out of turn

  /** The first `k` blocks in order, and then the `j`-th. */
  function Skipping(first: Seq, size: nat, blocks: seq<Bytes>, k: nat, j: nat): seq<Delivery>
    requires k <= |blocks| && j < |blocks|
  {
    var ms := Numbered(first + 1, blocks);
    [Genuine(Safe(first, Encode(size)))] + (Delivered(ms[..k]) + [Genuine(ms[j])])
  }

  lemma SkippingIsSent(first: Seq, size: nat, blocks: seq<Bytes>, k: nat, j: nat)
    requires k <= |blocks| && j < |blocks|
    ensures FromSender(Skipping(first, size, blocks, k, j), Messages(first, size, blocks))
  {
    hide Encode, Numbered;
    var sent, ms := Messages(first, size, blocks), Numbered(first + 1, blocks);
    assert forall i :: 0 <= i < |ms| ==> sent[1 + i] == ms[i];
    assert sent[0] == Safe(first, Encode(size));
    DeliveredIsSent(ms[..k], sent);
  }

  lemma LastTaken(d: Delivery, s: Session, want: nat, received: nat)
    requires received < want && Read(d, false, s).Some?
    ensures Blocks([d], s, want, received).taken == [Read(d, false, s).value.0]
  {
    hide Read;
    HeadTaken(d, [], s, want, received);
    assert [d] + [] == [d];
    var (m, s') := Read(d, false, s).value;
    assert Blocks([], s', want, received + |m.data|).taken == [] && [m] + [] == [m];
  }

  lemma OutOfTurnIsRead(first: Seq, blocks: seq<Bytes>, k: nat, j: nat)
    requires j < |blocks| && OutOfTurn(first, k, j)
    ensures var m := Numbered(first + 1, blocks)[j];
      var r := Read(Genuine(m), false, SessionAt(first, k, false));
      r.Some? && r.value.0 == m
  {
    hide Numbered, Nth, Check, StateAt, Advance;
    NumberedAt(first + 1, blocks, j);
  }

  /** Unchained, a message that the numbers let through out of turn is taken. */
  lemma OutOfTurnIsTaken(first: Seq, size: nat, blocks: seq<Bytes>, k: nat, j: nat)
    requires k < Places(blocks, size) && k <= |blocks| && j < |blocks| && OutOfTurn(first, k, j)
    ensures var ms := Numbered(first + 1, blocks);
      Received(Skipping(first, size, blocks, k, j), Start(first, false)).taken == ms[..k] + [ms[j]]
  {
    hide Read, Numbered, Places, OutOfTurn, SessionAt, Encode, Received, Delivered, Start;
    var far := Genuine(Numbered(first + 1, blocks)[j]);
    PlacesAreWanted(blocks, size, k);
    OutOfTurnIsRead(first, blocks, k, j);
    StartTaken(first, size, blocks, k, false, [far]);
    LastTaken(far, SessionAt(first, k, false), size, Total(blocks[..k]));
  }

  /** Every behaviour of the network leaves the messages taken in turn. */
  ghost predicate AlwaysInTurn(first: Seq, size: nat, blocks: seq<Bytes>, chains: bool) {
    forall ds :: FromSender(ds, Messages(first, size, blocks)) ==> InTurn(Received(ds, Start(first, chains)).taken)
  }

  /**
   * Chained blocks are taken in turn whatever the network does. Without chaining they are exactly
   * when their numbers are unambiguous, for every first number and every number of blocks.
   */
  lemma InTurnExactlyWhenOrdered(first: Seq, size: nat, blocks: seq<Bytes>, chains: bool)
    requires size < U64
    ensures AlwaysInTurn(first, size, blocks, chains) <==> Ordered(first, size, blocks, chains)
  {
    var sent, s := Messages(first, size, blocks), Start(first, chains);
    if Ordered(first, size, blocks, chains) {
      forall ds | FromSender(ds, sent)
        ensures InTurn(Received(ds, s).taken)
      {
        TransferIsPrefix(ds, first, size, blocks, chains);
        FirstAreInTurn(first, blocks, Received(ds, s).taken);
      }
    } else {
      var n, m := |blocks|, Places(blocks, size);
      ConfusedIsOutOfTurn(first, n, m);
      var (k, j) := Confused(first, n, m);
      hide OutOfTurn, Received, Unambiguous, Confused, Messages, FromSender, Numbered;
      SkippingIsSent(first, size, blocks, k, j);
      OutOfTurnIsTaken(first, size, blocks, k, j);
      NotInTurn(first, blocks, k, j, Received(Skipping(first, size, blocks, k, j), s).taken);
    }
  }

  lemma FirstAreInTurn(first: Seq, blocks: seq<Bytes>, taken: seq<Message>)
    requires taken <= Numbered(first + 1, blocks)
    ensures InTurn(taken)
  {
    forall i | 0 <= i < |taken|
      ensures taken[i].Priv? && taken[i].place == i
    {
      NumberedAt(first + 1, blocks, i);
    }
  }

  lemma NotInTurn(first: Seq, blocks: seq<Bytes>, k: nat, j: nat, taken: seq<Message>)
    requires k <= |blocks| && j < |blocks| && k != j
    requires var ms := Numbered(first + 1, blocks); taken == ms[..k] + [ms[j]]
    ensures !InTurn(taken)
  {
    NumberedAt(first + 1, blocks, j);
    assert taken[k].place == j;
  }

  // ---------------------------------------------------------------- the whole dump

  predicate NoneEmpty(blocks: seq<Bytes>) {
    forall i :: 0 <= i < |blocks| ==> blocks[i] != []
  }

  lemma {:induction false} MoreIsLarger(a: seq<Bytes>, b: seq<Bytes>)
    requires a <= b && NoneEmpty(b) && Total(a) >= Total(b)
    ensures a == b
  {
    if |b| > |a| {
      var b' := b[..|b| - 1];
      assert a <= b';
      PrefixTotal(a, b');
    }
  }

  lemma PrefixTotal(a: seq<Bytes>, b: seq<Bytes>)
    requires a <= b
    ensures Total(a) <= Total(b)
  {
    TotalSplits(a, b[|a|..]);
    assert b == a + b[|a|..];
  }

  lemma {:induction false} ChunksNotEmpty(file: seq<FileRead>)
    ensures NoneEmpty(Chunks(file))
  {
    if file != [] {
      ChunksNotEmpty(file[1..]);
    }
  }

  /** A sender that read its file through and a replica that succeeds: every block was taken. */
  lemma WholeDumpTaken(ds: seq<Delivery>, first: Seq, size: nat, file: seq<FileRead>, chains: bool)
    requires size < U64 && Ordered(first, size, Chunks(file), chains) && Total(Chunks(file)) == size
    requires FromSender(ds, Messages(first, size, Chunks(file))) && Received(ds, Start(first, chains)).done
    ensures Payload(Received(ds, Start(first, chains)).taken) == Chunks(file)
  {
    hide Received, Messages, FromSender, Ordered, Payload, Chunks;
    TransferIsPrefix(ds, first, size, Chunks(file), chains);
    ChunksNotEmpty(file);
    MoreIsLarger(Payload(Received(ds, Start(first, chains)).taken), Chunks(file));
  }

  // ---------------------------------------------------------------- the file

  predicate AllWritten(blocks: seq<Bytes>, disk: nat -> Option<nat>) {
    forall i :: 0 <= i < |blocks| ==> Stored(blocks[i], disk(i)) == blocks[i]
  }

  lemma {:induction false} StoredIsShorter(blocks: seq<Bytes>, disk: nat -> Option<nat>)
    ensures |OnDisk(blocks, disk)| <= |Concat(blocks)|
  {
    if blocks != [] {
      StoredIsShorter(blocks[..|blocks| - 1], disk);
    }
  }

  /** The file is the blocks taken exactly when every write was complete. */
  lemma {:induction false} FileIsBlocks(blocks: seq<Bytes>, disk: nat -> Option<nat>)
    ensures OnDisk(blocks, disk) == Concat(blocks) <==> AllWritten(blocks, disk)
  {
    if blocks != [] {
      var init, n := blocks[..|blocks| - 1], |blocks| - 1;
      FileIsBlocks(init, disk);
      StoredIsShorter(init, disk);
      assert forall i :: 0 <= i < n ==> init[i] == blocks[i];
      SameParts(OnDisk(init, disk), Stored(blocks[n], disk(n)), Concat(init), blocks[n]);
      assert AllWritten(blocks, disk) <==> AllWritten(init, disk) && Stored(blocks[n], disk(n)) == blocks[n];
    }
  }

  lemma SameParts(a: Bytes, b: Bytes, x: Bytes, y: Bytes)
    requires |a| <= |x| && |b| <= |y|
    ensures a + b == x + y <==> a == x && b == y
  {
    if a + b == x + y {
      assert |a| == |x|;
      assert (a + b)[..|a|] == a && (x + y)[..|x|] == x && (a + b)[|a|..] == b && (x + y)[|x|..] == y;
    }
  }

  /** No error reply is called for exactly when every block was written whole. */
  lemma {:induction false} NoWriteErrors(blocks: seq<Bytes>, disk: nat -> Option<nat>)
    requires NoneEmpty(blocks)
    ensures WriteErrors(blocks, disk) == 0 <==> AllWritten(blocks, disk)
  {
    if blocks != [] {
      var n := |blocks| - 1;
      var init := blocks[..n];
      assert forall i :: 0 <= i < n ==> init[i] == blocks[i];
      NoWriteErrors(init, disk);
      assert AllWritten(blocks, disk) <==> AllWritten(init, disk) && Stored(blocks[n], disk(n)) == blocks[n];
      assert blocks[n] != [];
    }
  }

  // ---------------------------------------------------------------- the acknowledgement

  function ErrorReplies(n: nat): (r: seq<Delivery>)
    ensures |r| == n && forall i :: 0 <= i < n ==> r[i] == ErrorReply
  {
    if n == 0 then [] else [ErrorReply] + ErrorReplies(n - 1)
  }

  /**
   * What the replica sends back, in order: an error for every write that fell short and for an
   * overrun; then, if the transfer succeeded and the dump loads, the size it was told.
   */
  function Answers(ds: seq<Delivery>, disk: nat -> Option<nat>, s: Session, local: Seq, loads: bool, complains: bool)
    : seq<Delivery>
  {
    ErrorReplies(Errors(ds, disk, s))
    + (if Received(ds, s).done && Announced(ds, s).Some? then
         (if loads then [Genuine(Safe(local, Encode(Announced(ds, s).value.0)))] else [])
       else if complains then [ErrorReply] else [])
  }

  /** The sender succeeds on an answer in order that gives back its size. */
  predicate Acknowledged(answer: Delivery, s: Session, size: nat) {
    Read(answer, true, s).Some? && Decode(Read(answer, true, s).value.0.data) == Some(size)
  }

  /** An answer the sender succeeds on is the last, after as many errors as there were. */
  lemma AckIsLast(ds: seq<Delivery>, disk: nat -> Option<nat>, s: Session, local: Seq, loads: bool, complains: bool,
                  i: nat, sender: Session, size: nat)
    requires var answers := Answers(ds, disk, s, local, loads, complains);
      i < |answers| && Acknowledged(answers[i], sender, size)
    ensures Received(ds, s).done && i == Errors(ds, disk, s)
  {
    hide Received, Announced, Errors, Decode, Encode, Check;
  }

  lemma DumpErrors(ds: seq<Delivery>, disk: nat -> Option<nat>, first: Seq, size: nat, file: seq<FileRead>,
                   chains: bool)
    requires size < U64 && Ordered(first, size, Chunks(file), chains) && Total(Chunks(file)) == size
    requires FromSender(ds, Messages(first, size, Chunks(file))) && Received(ds, Start(first, chains)).done
    ensures Payload(Received(ds, Start(first, chains)).taken) == Chunks(file)
    ensures Errors(ds, disk, Start(first, chains)) == WriteErrors(Chunks(file), disk)
  {
    hide Ordered, Messages, Chunks, FromSender, Total, Payload, Blocks, Read;
    WholeDumpTaken(ds, first, size, file, chains);
    SizeTaken(ds, first, size, Chunks(file), chains);
    hide Announced;
  }

  /**
   * A sender that read its file through and was acknowledged by the `i`-th thing the replica sent:
   * the replica's file is the sender's exactly when that was the first.
   */
  lemma AcknowledgedIsStored(ds: seq<Delivery>, disk: nat -> Option<nat>, first: Seq, size: nat, file: seq<FileRead>,
                             chains: bool, local: Seq, loads: bool, complains: bool, i: nat, sender: Session)
    requires size < U64 && Ordered(first, size, Chunks(file), chains) && Total(Chunks(file)) == size
    requires FromSender(ds, Messages(first, size, Chunks(file)))
    requires var answers := Answers(ds, disk, Start(first, chains), local, loads, complains);
      i < |answers| && Acknowledged(answers[i], sender, size)
    ensures OnDisk(Payload(Received(ds, Start(first, chains)).taken), disk) == Concat(Chunks(file)) <==> i == 0
  {
    var s := Start(first, chains);
    AckIsLast(ds, disk, s, local, loads, complains, i, sender, size);
    hide Ordered, Messages, Chunks, FromSender, Total, Payload, Received, Errors, Answers, Acknowledged;
    DumpErrors(ds, disk, first, size, file, chains);
    ChunksNotEmpty(file);
    NoWriteErrors(Chunks(file), disk);
    FileIsBlocks(Chunks(file), disk);
  }

  /**
   * Delivered in order to a replica whose writes fall short, with the errors it sends back dropped:
   * the sender is acknowledged, and the replica's file is not the sender's.
   */
  lemma DroppedErrorMisleads(disk: nat -> Option<nat>, first: Seq, file: seq<FileRead>, chains: bool, local: Seq)
    requires Total(Chunks(file)) <= LIMIT && !AllWritten(Chunks(file), disk)
    ensures var blocks, s := Chunks(file), Start(first, chains);
      var ds := Delivered(Messages(first, Total(blocks), blocks));
      var answers := Answers(ds, disk, s, local, true, false);
      && answers != [] && answers[0] == ErrorReply
      && Acknowledged(answers[|answers| - 1], Start(local, false), Total(blocks))
      && OnDisk(Payload(Received(ds, s).taken), disk) != Concat(blocks)
  {
    var blocks, s := Chunks(file), Start(first, chains);
    var ds := Delivered(Messages(first, Total(blocks), blocks));
    ChunksNotEmpty(file);
    UndisturbedSucceeds(first, blocks, chains);
    PayloadOfFirst(first + 1, blocks, Numbered(first + 1, blocks));
    assert blocks[..|blocks|] == blocks;
    AnnouncedFirst(first, Total(blocks), blocks, chains);
    NoWriteErrors(blocks, disk);
    FileIsBlocks(blocks, disk);
    AckTaken(local, Total(blocks));
    hide Received, Announced, Delivered, Messages, Chunks, NoneEmpty, AllWritten, Total, Acknowledged, Payload, Encode;
  }

  lemma AnnouncedFirst(first: Seq, size: nat, blocks: seq<Bytes>, chains: bool)
    requires size <= LIMIT
    ensures Announced(Delivered(Messages(first, size, blocks)), Start(first, chains))
         == Some((size, SessionAt(first, 0, chains)))
  {
    hide Announced, Start, SessionAt, Encode, Numbered;
    var sent := Messages(first, size, blocks);
    SizeIsTaken(first, size, Delivered(sent[1..]), chains);
  }

  lemma AckTaken(local: Seq, size: nat)
    requires size <= LIMIT
    ensures Acknowledged(Genuine(Safe(local, Encode(size))), Start(local, false), size)
  {
    DecodeUndoesEncode(size);
    hide Encode, Decode;
  }
}
