/**
 What a client makes of a burst.  A client that knows the cipher, takes the
 header byte off the bit count and splits in the writer's convention reads back
 the queue that was flushed, packet by packet.
 */
module Delivery {
  import opened Bytes
  import opened CodecSpec
  import opened CipherSpec
  import opened Packing
  import opened Framing
  import opened Protocol
  import opened Wire
  import Router
  import Alphabet

  function ReadDatagram(env: Env, table: JumpTable, root: nat, link: Link, data: seq<byte>): Option<seq<Sub>> {
    var body := Unwrap(env, link, data);
    if !body.Body? || body.bitCount <= 8 then None
    else
      var d := Decompress(table, Some(root), body.compressed, body.bitCount - 8, MAX_PAYLOAD);
      if d.err.Some? then None else Split(d.out)
  }

  function ReadWire(env: Env, table: JumpTable, root: nat, link: Link,
                    wire: seq<(string, seq<byte>)>): Option<seq<Sub>> {
    if wire == [] then Some([])
    else
      var n := |wire| - 1;
      var before, last := ReadWire(env, table, root, link, wire[..n]), ReadDatagram(env, table, root, link, wire[n].1);
      if before.None? || last.None? then None else Some(before.value + last.value)
  }

  /** The sub-packets of consecutive datagrams, each under the number of its datagram. */
  function SubsOfBatches(batches: seq<seq<Routed>>, id: uint16): seq<Sub> {
    if batches == [] then []
    else
      var n := |batches| - 1;
      SubsOfBatches(batches[..n], id) + SubsOf(batches[n], Later(id, n + 1))
  }

  /** Every byte has a code of at most sixteen bits, and the tables agree on it. */
  ghost predicate FullAlphabet(enc: EncodeTable, table: JumpTable, root: nat) {
    forall b: byte :: Agrees(enc, table, root, b) && CodeLength(enc, b) <= 16
  }

  lemma PlainAlphabetIsFull()
    ensures FullAlphabet(Alphabet.PlainCodes(), Alphabet.PlainTree(), 1)
  {
    hide Alphabet.PlainCodes, Alphabet.PlainTree, Code, Reaches;
    Alphabet.PlainTablesAgree();
  }

  /** What fits one datagram and survives its fields. */
  predicate Carriable(batch: seq<Routed>) {
    batch != [] && Sum(Lengths(batch)) <= MAX_PAYLOAD && AllRepresentable(batch)
  }

  lemma AlphabetCovers(enc: EncodeTable, table: JumpTable, root: nat, text: seq<byte>)
    requires FullAlphabet(enc, table, root)
    ensures AgreesOn(enc, table, root, text) && ShortCodes(enc, text)
  {
    hide Code, Reaches;
    forall i | 0 <= i < |text|
      ensures Agrees(enc, table, root, text[i]) && CodeLength(enc, text[i]) <= 16
    {
    }
  }

  lemma DatagramIsRead(env: Env, enc: EncodeTable, table: JumpTable, root: nat, link: Link, batch: seq<Routed>,
                       id: uint16, now: word)
    requires ValidLink(link) && FullAlphabet(enc, table, root) && Carriable(batch)
    ensures ReadDatagram(env, table, root, link, DatagramFor(env, enc, link, batch, id, now)) == Some(SubsOf(batch, id))
  {
    hide FullAlphabet, Payload, Wrap, Unwrap, Decompress, Split, SubsOf, Agrees, HasCode, CodeLength, Uint16, FitCount;
    FitCountIsLargest(Lengths(batch), MAX_PAYLOAD, |batch|);
    assert Lengths(batch)[..|batch|] == Lengths(batch);
    assert batch[..Taken(batch)] == batch;
    AlphabetCovers(enc, table, root, Payload(batch, id));
    PayloadLength(batch, id);
    EndToEnd(env, enc, table, root, link, batch, id, now, MAX_PAYLOAD);
  }

  /** A client reads consecutive datagrams as the packets of their batches, in order. */
  lemma {:induction false} WireIsRead(env: Env, enc: EncodeTable, table: JumpTable, root: nat, link: Link, addr: string,
                                      batches: seq<seq<Routed>>, id: uint16, clock: nat -> word, tick: nat)
    requires ValidLink(link) && FullAlphabet(enc, table, root)
    requires forall i :: 0 <= i < |batches| ==> Carriable(batches[i])
    ensures var wire := DatagramsFor(env, enc, link, addr, batches, id, clock, tick);
            |wire| == |batches| && ReadWire(env, table, root, link, wire) == Some(SubsOfBatches(batches, id))
  {
    hide FullAlphabet, Carriable, ReadDatagram, DatagramFor, Later, SubsOf;
    if batches != [] {
      var n := |batches| - 1;
      WireIsRead(env, enc, table, root, link, addr, batches[..n], id, clock, tick);
      DatagramIsRead(env, enc, table, root, link, batches[n], Later(id, n + 1), clock(tick + n));
      var before := DatagramsFor(env, enc, link, addr, batches[..n], id, clock, tick);
      var wire := DatagramsFor(env, enc, link, addr, batches, id, clock, tick);
      assert wire[..n] == before;
    }
  }

  /** `subs` are these packets, under whatever numbers. */
  ghost predicate Carries(subs: seq<Sub>, packets: seq<Routed>) {
    && |subs| == |packets|
    && forall i :: 0 <= i < |subs| ==> subs[i].kind == packets[i].packet.kind && subs[i].data == Padded(packets[i])
  }

  lemma {:induction false} BatchesCarry(batches: seq<seq<Routed>>, id: uint16)
    ensures Carries(SubsOfBatches(batches, id), Flatten(batches))
  {
    hide Padded, Later;
    if batches != [] {
      var n := |batches| - 1;
      BatchesCarry(batches[..n], id);
      FlattenSnoc(batches[..n], batches[n]);
      assert batches == batches[..n] + [batches[n]];
      assert Carries(SubsOf(batches[n], Later(id, n + 1)), batches[n]);
    }
  }

  predicate AllCarriable(batches: seq<seq<Routed>>) {
    forall i :: 0 <= i < |batches| ==> Carriable(batches[i])
  }

  lemma BatchesAreCarriable(packets: seq<Routed>)
    requires AllRepresentable(packets)
    ensures AllCarriable(Batches(packets))
  {
    hide Batches, Lengths, Representable;
    BatchesFit(packets);
    forall i | 0 <= i < |Batches(packets)|
      ensures Carriable(Batches(packets)[i])
    {
      forall j | 0 <= j < |Batches(packets)[i]|
        ensures Representable(Batches(packets)[i][j])
      {
        assert Batches(packets)[i][j] in packets;
      }
    }
  }

  predicate EachRepresentable(rounds: seq<seq<Routed>>) {
    forall i :: 0 <= i < |rounds| ==> AllRepresentable(rounds[i])
  }

  lemma {:induction false} RoundsAreRepresentable(queue: seq<Routed>, arrivals: seq<seq<Routed>>)
    requires AllRepresentable(queue) && EachRepresentable(arrivals)
    ensures EachRepresentable(Rounds(queue, arrivals)) && Fitting(Rounds(queue, arrivals))
    decreases |arrivals|
  {
    hide AllRepresentable, AllFit, Lengths;
    RepresentablesFit(queue);
    if queue != [] && arrivals != [] {
      assert AllRepresentable(arrivals[0]);
      RoundsAreRepresentable(arrivals[0], arrivals[1..]);
    }
  }

  lemma {:induction false} CutIsCarriable(rounds: seq<seq<Routed>>)
    requires EachRepresentable(rounds)
    ensures AllCarriable(Cut(rounds))
  {
    hide Batches, Carriable, AllRepresentable;
    if rounds != [] {
      assert AllRepresentable(rounds[0]);
      BatchesAreCarriable(rounds[0]);
      CutIsCarriable(rounds[1..]);
    }
  }

  lemma {:induction false} FlattenOfPrefix(parts: seq<seq<Routed>>, k: nat)
    requires k <= |parts|
    ensures Flatten(parts[..k]) <= Flatten(parts)
  {
    if k > 0 {
      FlattenOfPrefix(parts[1..], k - 1);
      assert parts[..k][1..] == parts[1..][..k - 1];
    }
  }

  /** From consecutive datagrams within the budget a client reads their packets, in order. */
  lemma DatagramsAreDelivered(env: Env, enc: EncodeTable, table: JumpTable, root: nat, link: Link, addr: string,
                              batches: seq<seq<Routed>>, id: uint16, clock: nat -> word, tick: nat)
    requires ValidLink(link) && FullAlphabet(enc, table, root) && AllCarriable(batches)
    ensures var wire := DatagramsFor(env, enc, link, addr, batches, id, clock, tick);
            var read := ReadWire(env, table, root, link, wire);
            |wire| == |batches| && read.Some? && Carries(read.value, Flatten(batches))
  {
    hide FullAlphabet, Carriable, DatagramsFor, ReadWire, SubsOfBatches, Flatten, Padded;
    WireIsRead(env, enc, table, root, link, addr, batches, id, clock, tick);
    BatchesCarry(batches, id);
  }

  /**
   Delivery: from the datagrams of a burst that got through `k` of its batches,
   a client reads the packets of a prefix of the queue, in order, and of the
   whole queue if the burst was completed.
   */
  lemma QueueIsDelivered(env: Env, enc: EncodeTable, table: JumpTable, root: nat, link: Link, addr: string,
                         queue: seq<Routed>, k: nat, id: uint16, clock: nat -> word, tick: nat)
    requires ValidLink(link) && FullAlphabet(enc, table, root)
    requires k <= |Batches(queue)| && AllRepresentable(queue)
    ensures var wire := DatagramsFor(env, enc, link, addr, Batches(queue)[..k], id, clock, tick);
            var read := ReadWire(env, table, root, link, wire);
            var got := Flatten(Batches(queue)[..k]);
            && |wire| == k && read.Some? && Carries(read.value, got) && got <= queue
            && (k == |Batches(queue)| ==> got == queue)
  {
    hide FullAlphabet, Carriable, DatagramsFor, ReadWire, Batches, Flatten, Padded, Carries;
    var sent := Batches(queue)[..k];
    BatchesAreCarriable(queue);
    DatagramsAreDelivered(env, enc, table, root, link, addr, sent, id, clock, tick);
    FlattenOfPrefix(Batches(queue), k);
    RepresentablesFit(queue);
    BatchesAreGreedy(queue);
    assert k == |Batches(queue)| ==> sent == Batches(queue);
  }

  lemma RepresentablesFit(queue: seq<Routed>)
    requires AllRepresentable(queue)
    ensures AllFit(Lengths(queue))
  {
    forall i | 0 <= i < |queue|
      ensures Lengths(queue)[i] <= MAX_PAYLOAD
    {
      assert Representable(queue[i]);
    }
  }

  lemma ShortAlphabet(enc: EncodeTable, table: JumpTable, root: nat)
    requires FullAlphabet(enc, table, root)
    ensures forall b: byte :: HasCode(enc, b) && CodeLength(enc, b) <= 16
  {
    hide Code, Reaches;
    forall b: byte
      ensures HasCode(enc, b) && CodeLength(enc, b) <= 16
    {
      assert Agrees(enc, table, root, b);
    }
  }

  /** All rounds of a flush get through, if the codec is loaded, its table is full and the network accepts. */
  lemma FlushGoesThrough(enc: EncodeTable, table: JumpTable, root: nat, accepts: nat -> bool, queue: seq<Routed>,
                         arrivals: seq<seq<Routed>>, id: uint16, tick: nat)
    requires FullAlphabet(enc, table, root) && AllRepresentable(queue) && EachRepresentable(arrivals)
    ensures Fitting(Rounds(queue, arrivals)) && AllCarriable(Cut(Rounds(queue, arrivals)))
    ensures (forall n :: accepts(n)) ==> AllGoThrough(None, enc, accepts, Cut(Rounds(queue, arrivals)), id, tick)
  {
    hide FullAlphabet, AllRepresentable, Fitting, Cut, Rounds, Lengths, HasCode, CodeLength, AllGoThrough;
    RoundsAreRepresentable(queue, arrivals);
    CutIsCarriable(Rounds(queue, arrivals));
    ShortAlphabet(enc, table, root);
    if forall n :: accepts(n) {
      forall i | 0 <= i < |Cut(Rounds(queue, arrivals))|
        ensures Cut(Rounds(queue, arrivals))[i] != [] && Sum(Lengths(Cut(Rounds(queue, arrivals))[i])) <= MAX_PAYLOAD
      {
        assert Carriable(Cut(Rounds(queue, arrivals))[i]);
      }
      ShortCodesGoThrough(enc, accepts, Cut(Rounds(queue, arrivals)), id, tick);
    }
  }

  /**
   A flush and a client together.  What the client reads of the new datagrams is,
   if all went well, everything that was queued or came in meanwhile; otherwise
   less than that, but at least what has left the queue.
   */
  method FlushThenRead(server: Router.MapRouterServer, session: Router.Session, arrivals: seq<seq<Routed>>, root: nat)
    returns (err: Option<SendError>, ghost got: seq<Routed>, ghost gone: seq<Routed>, ghost heard: seq<Routed>)
    requires server.Valid() && session.clientAddr in server.sessions && server.sessions[session.clientAddr] == session
    requires FullAlphabet(server.codec.encTable, server.codec.jumpTable[..], root)
    requires AllRepresentable(server.Queue(session.clientAddr)) && EachRepresentable(arrivals)
    requires forall i, j :: 0 <= i < |arrivals| && 0 <= j < |arrivals[i]| ==>
      arrivals[i][j].clientAddr == session.clientAddr
    modifies server`packetsToSend, server`channels, server`stamps, session`lastServerPacketID
    modifies server.network`attempts, server.network`wire
    ensures server.Valid() && old(server.network.wire) <= server.network.wire
    ensures var read := ReadWire(server.env, old(server.codec.jumpTable[..]), root, old(session.LinkNow()),
                                 server.network.wire[|old(server.network.wire)|..]);
            read.Some? && Carries(read.value, got)
    ensures gone + server.Queue(session.clientAddr) == old(server.Queue(session.clientAddr)) + heard
    ensures if err == None then got == gone && server.Queue(session.clientAddr) == []
            else gone <= got < old(server.Queue(session.clientAddr)) + heard
    ensures old(server.codec.initErr) == None && (forall n :: server.network.accepts(n)) ==> err == None
  {
    hide FullAlphabet, AllRepresentable, EachRepresentable, Carries, ReadWire, DatagramsFor, Cut, Rounds, Fitting,
      AllGoThrough, Flatten, Run, CanRun, Invariant, Carriable;
    ghost var before := server.Now(session);
    ghost var enc, table := server.codec.encTable, server.codec.jumpTable[..];
    FlushGoesThrough(enc, table, root, server.network.accepts, before.queue, arrivals, before.id, before.tick);
    ghost var sent, done, actions;
    err, sent, done, heard, actions := server.FlushSessionQueue(session, arrivals, before);
    got, gone := Flatten(sent), Flatten(done);
    assert gone + [] == gone;
    DatagramsAreDelivered(server.env, enc, table, root, before.link, session.clientAddr, sent, before.id,
                          server.network.clock, before.tick);
    assert server.network.wire[|before.wire|..]
        == DatagramsFor(server.env, enc, before.link, session.clientAddr, sent, before.id, server.network.clock,
                        before.tick);
  }
}
