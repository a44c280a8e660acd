/**
 The map router's objects: the queues, the burst that drains one of them, the
 datagrams it builds, and the handling of what clients send.
 */
module Router {
  import opened Bytes
  import opened CodecSpec
  import opened CipherSpec
  import opened Packing
  import opened Framing
  import opened Protocol
  import opened Wire
  import Codec
  import Cipher
  import Gate

  /**
   The outside world: a socket whose writes may fail, a bus, a clock.  The
   answers are arbitrary functions of the number of writes attempted before.
   */
  class Network {
    const accepts: nat -> bool
    const clock: nat -> word
    var attempts: nat
    var wire: seq<(string, seq<byte>)>
    var published: seq<Routed>

    constructor (accepts: nat -> bool, clock: nat -> word)
      ensures this.accepts == accepts && this.clock == clock
      ensures attempts == 0 && wire == [] && published == []
    {
      this.accepts := accepts;
      this.clock := clock;
      attempts := 0;
      wire := [];
      published := [];
    }

    method WriteToUDP(packet: seq<byte>, addr: string) returns (ok: bool)
      modifies this`attempts, this`wire
      ensures ok == accepts(old(attempts)) && attempts == old(attempts) + 1
      ensures wire == if ok then old(wire) + [(addr, packet)] else old(wire)
    {
      ok := accepts(attempts);
      attempts := attempts + 1;
      if ok {
        wire := wire + [(addr, packet)];
      }
    }

    /** A failed publish is only logged, so attempts are what counts. */
    method Publish(routed: Routed)
      modifies this`published
      ensures published == old(published) + [routed]
    {
      published := published + [routed];
    }
  }

  /** An append-only byte buffer. */
  class ByteBuffer {
    var data: seq<byte>

    constructor ()
      ensures data == []
    {
      data := [];
    }

    method Write(bytes: seq<byte>)
      modifies this
      ensures data == old(data) + bytes
    {
      data := data + bytes;
    }
  }

  // ---------------------------------------------------------------- sessions

  class Session {
    const env: Env
    const clientAddr: string
    var character: Option<uint32>
    var lastClientPacketID: uint16
    var lastServerPacketID: uint16
    var lastClientHeader: seq<byte>
    var currentBlowfish: Cipher.Blowfish?
    var previousBlowfish: Cipher.Blowfish?

    ghost predicate Valid()
      reads this
    {
      |lastClientHeader| == HEADER_SIZE && (currentBlowfish != null ==> currentBlowfish.Valid())
    }

    ghost function CipherFrame(): set<object>
      reads this
    {
      if currentBlowfish == null then {} else {currentBlowfish.P, currentBlowfish.S}
    }

    ghost function CipherNow(): Option<Tables>
      requires Valid()
      reads this, CipherFrame()
    {
      if currentBlowfish == null then None else Some(currentBlowfish.TablesNow())
    }

    ghost function LinkNow(): (link: Link)
      requires Valid()
      reads this, CipherFrame()
      ensures ValidLink(link)
    {
      Link(lastClientHeader, lastClientPacketID, CipherNow())
    }

    ghost function View(): Gate.Client
      requires Valid()
      reads this, CipherFrame()
    {
      Gate.Client(character, lastClientHeader, lastClientPacketID, lastServerPacketID, CipherNow())
    }

    constructor (env: Env, clientAddr: string, sessionKey: seq<byte>)
      requires |sessionKey| == KEY_SIZE
      ensures Valid() && this.env == env && this.clientAddr == clientAddr && previousBlowfish == null
      ensures currentBlowfish != null && fresh(currentBlowfish) && currentBlowfish.env == env
      ensures currentBlowfish.status == Cipher.Waiting
      ensures currentBlowfish.KeyNow() == KeyOf(sessionKey) && currentBlowfish.Keyed()
      ensures View() == Gate.Client(None, Zeros(HEADER_SIZE), 0, 0, Some(KeyTables(env, KeyOf(sessionKey))))
    {
      hide KeyTables, KeyHash, KeyOf;
      var bf := new Cipher.Blowfish.FromKeyBytes(env, sessionKey);
      this.env := env;
      this.clientAddr := clientAddr;
      character := None;
      lastClientPacketID := 0;
      lastServerPacketID := 0;
      lastClientHeader := Zeros(HEADER_SIZE);
      currentBlowfish := bf;
      previousBlowfish := null;
    }

    /** A session for a key of the right length, once the bus has let it subscribe. */
    static method NewSession(env: Env, clientAddr: string, sessionKey: seq<byte>, subscribed: bool)
      returns (session: Session?)
      ensures session == null <==> |sessionKey| != KEY_SIZE || !subscribed
      ensures session != null ==>
        && fresh(session) && session.Valid() && session.env == env && session.clientAddr == clientAddr
        && session.previousBlowfish == null && session.currentBlowfish != null && fresh(session.currentBlowfish)
        && session.currentBlowfish.env == env && session.currentBlowfish.status == Cipher.Waiting
        && session.currentBlowfish.KeyNow() == KeyOf(sessionKey) && session.currentBlowfish.Keyed()
        && session.View() == Gate.Client(None, Zeros(HEADER_SIZE), 0, 0, Some(KeyTables(env, KeyOf(sessionKey))))
    {
      hide KeyTables, KeyHash, KeyOf;
      if |sessionKey| != KEY_SIZE {
        return null;
      }
      var created := new Session(env, clientAddr, sessionKey);
      if !subscribed {
        return null;
      }
      return created;
    }

    /** Moves to the next key; the cipher used so far stays as it is, as the previous one. */
    method IncrementBlowfish()
      requires Valid() && currentBlowfish != null
      modifies this`currentBlowfish, this`previousBlowfish
      ensures Valid() && currentBlowfish != null && fresh(currentBlowfish)
      ensures previousBlowfish == old(currentBlowfish)
      ensures currentBlowfish.status == Cipher.PendingZone
      ensures currentBlowfish.env == previousBlowfish.env
      ensures currentBlowfish.KeyNow() == Rotated(old(currentBlowfish.KeyNow()), 1) && currentBlowfish.Keyed()
      ensures previousBlowfish.Valid() && previousBlowfish.TablesNow() == old(currentBlowfish.TablesNow())
    {
      hide KeyTables, KeyHash;
      previousBlowfish := currentBlowfish;
      var newBF := new Cipher.Blowfish.Blank(currentBlowfish.env, currentBlowfish.Key[..], Cipher.PendingZone);
      newBF.IncrementKey();
      currentBlowfish := newBF;
    }

    /**
     Any number of rotations: the last key word has grown by two for each, the
     tables are those a fresh cipher would get from that key, and what the
     previous cipher enciphered it still deciphers.
     */
    method Rotate(n: nat, packet: seq<byte>)
      requires Valid() && currentBlowfish != null && currentBlowfish.Keyed()
      modifies this`currentBlowfish, this`previousBlowfish
      ensures Valid() && currentBlowfish != null && currentBlowfish.env == old(currentBlowfish.env)
      ensures currentBlowfish.KeyNow() == Rotated(old(currentBlowfish.KeyNow()), n)
      ensures currentBlowfish.TablesNow() == KeyTables(currentBlowfish.env, Rotated(old(currentBlowfish.KeyNow()), n))
      ensures n > 0 ==>
        && previousBlowfish != null && previousBlowfish.Valid()
        && var t := KeyTables(currentBlowfish.env, Rotated(old(currentBlowfish.KeyNow()), n - 1));
           CipherPacket(Decrypting, previousBlowfish.TablesNow(), CipherPacket(Encrypting, t, packet, HEADER_SIZE),
                        HEADER_SIZE) == packet
    {
      hide KeyTables, KeyHash, CipherPacket;
      ghost var env, key := currentBlowfish.env, currentBlowfish.KeyNow();
      assert Rotated(key, 0) == key;
      for i := 0 to n
        invariant Valid() && currentBlowfish != null && currentBlowfish.Keyed() && currentBlowfish.env == env
        invariant currentBlowfish.KeyNow() == Rotated(key, i)
        invariant i > 0 ==> previousBlowfish != null && previousBlowfish.Valid()
                            && previousBlowfish.TablesNow() == KeyTables(env, Rotated(key, i - 1))
      {
        IncrementBlowfish();
        RotatedOnce(key, i);
      }
      if n > 0 {
        PacketInverse(Encrypting, KeyTables(env, Rotated(key, n - 1)), packet, HEADER_SIZE);
      }
    }

    lemma RotatedOnce(key: CipherSpec.Key, i: nat)
      ensures Rotated(Rotated(key, i), 1) == Rotated(key, i + 1)
    {
      assert ((key[4] + 2 * i) % TWO_TO_THE_32 + 2) % TWO_TO_THE_32 == (key[4] + 2 * (i + 1)) % TWO_TO_THE_32;
    }
  }

  // ---------------------------------------------------------------- the server

  /** Length words that the compressor can act on without indexing past a pattern. */
  ghost predicate SaneLengths(enc: EncodeTable) {
    forall i :: 0x100 <= i < |enc| ==> enc[i] <= 0xFFFF_FFF8
  }

  /** An acknowledgement noted for an address. */
  datatype Noting = Noting(addr: string, ack: uint16)

  /** What a flush of one session starts from or ends with. */
  datatype Snapshot = Snapshot(queue: seq<Routed>, channel: Channel, link: SessionLink, id: uint16, tick: nat,
                               wire: seq<(string, seq<byte>)>)

  /** A burst as it went out. */
  datatype BurstNote = BurstNote(addr: string, link: SessionLink, sent: seq<seq<Routed>>, id: uint16, place: nat,
                                 tick: nat)

  /** A channel after the acknowledgement in a datagram from its client. */
  ghost function AfterAck(c: Channel, data: seq<byte>): Channel
    requires |data| >= 4
  {
    Step(c, Ack(Uint16(data[2..4])))
  }

  class MapRouterServer {
    const env: Env
    const codec: Codec.FFXICodec
    const network: Network
    var packetsToSend: map<string, seq<Routed>>
    var sessions: map<string, Session>
    ghost var channels: map<string, Channel>
    ghost var stamps: map<string, seq<Stamp>>
    ghost const wireBefore: seq<(string, seq<byte>)>

    ghost function Queue(addr: string): seq<Routed>
      reads this`packetsToSend
    {
      if addr in packetsToSend then packetsToSend[addr] else []
    }

    ghost function Chan(addr: string): Channel
      reads this`channels
    {
      if addr in channels then channels[addr] else START
    }

    ghost function Stamps(addr: string): seq<Stamp>
      reads this`stamps
    {
      if addr in stamps then stamps[addr] else []
    }

    ghost predicate CodecReady()
      reads codec, codec.jumpTable
    {
      codec.Walkable() && SaneLengths(codec.encTable)
    }

    /** Sessions are filed under their own addresses and count their numbers as the channels do. */
    ghost predicate SessionsValid()
      reads this, sessions.Values
    {
      forall addr :: addr in sessions ==> sessions[addr].Valid() && sessions[addr].clientAddr == addr
    }

    /** Between bursts every queue is what its channel says, and every channel keeps the protocol's invariant. */
    ghost predicate ChannelsValid()
      reads this, sessions.Values
    {
      forall addr :: ChannelValid(addr)
    }

    ghost predicate ChannelValid(addr: string)
      reads this, sessions.Values
    {
      && Chan(addr).queue == Queue(addr) && Chan(addr).flight.Idle? && Invariant(Chan(addr))
      && Chan(addr).lastID == if addr in sessions then sessions[addr].lastServerPacketID else 0
    }

    /** What this server has put on the wire for each address is what the history of its channel says, encoded. */
    ghost predicate WireValid()
      reads this`channels, this`stamps, network`wire, codec`encTable
    {
      forall addr :: WireLogged(addr)
    }

    ghost predicate WireLogged(addr: string)
      reads this`channels, this`stamps, network`wire, codec`encTable
    {
      Logs(env, codec.encTable, |WireTo(wireBefore, addr)|, WireTo(network.wire, addr), Stamps(addr),
           SentOf(Chan(addr).history))
    }

    ghost predicate Valid()
      reads this, sessions.Values, codec, codec.jumpTable, network`wire
    {
      CodecReady() && SessionsValid() && ChannelsValid() && WireValid()
    }

    constructor (env: Env, codec: Codec.FFXICodec, network: Network)
      requires codec.Walkable() && SaneLengths(codec.encTable)
      ensures Valid() && this.env == env && this.codec == codec && this.network == network
      ensures sessions == map[] && packetsToSend == map[]
    {
      hide Invariant, WireTo;
      this.env := env;
      this.codec := codec;
      this.network := network;
      packetsToSend := map[];
      sessions := map[];
      channels := map[];
      stamps := map[];
      wireBefore := network.wire;
      new;
      StartIsInvariant();
    }

    // -------------------------------------------------------------- the queues

    /** A send request from the bus; an unreadable one changes nothing. */
    method ProcessNATSSendRequest(message: Option<Routed>)
      requires Valid()
      modifies this`packetsToSend, this`channels
      ensures Valid()
      ensures message.None? ==> packetsToSend == old(packetsToSend) && channels == old(channels)
      ensures message.Some? ==>
        var addr := message.value.clientAddr;
        && Queue(addr) == old(Queue(addr)) + [message.value]
        && Chan(addr) == Step(old(Chan(addr)), Enqueue(message.value))
        && forall other :: other != addr ==> Queue(other) == old(Queue(other)) && Chan(other) == old(Chan(other))
    {
      hide Invariant, Logs, SentOf, WireTo;
      if message.None? {
        return;
      }
      var routed := message.value;
      var queue := if routed.clientAddr in packetsToSend then packetsToSend[routed.clientAddr] else [];
      assert ChannelValid(routed.clientAddr);
      InvariantStep(Chan(routed.clientAddr), Enqueue(routed));
      packetsToSend := packetsToSend[routed.clientAddr := queue + [routed]];
      channels := channels[routed.clientAddr := Step(Chan(routed.clientAddr), Enqueue(routed))];
      forall addr
        ensures ChannelValid(addr) && WireLogged(addr)
      {
        assert old(ChannelValid(addr)) && old(WireLogged(addr));
      }
    }

    method DequeuePackets(addr: string) returns (queue: seq<Routed>)
      modifies this`packetsToSend
      ensures queue == old(Queue(addr)) && Queue(addr) == []
      ensures packetsToSend == if queue == [] then old(packetsToSend) else old(packetsToSend)[addr := []]
    {
      queue := if addr in packetsToSend then packetsToSend[addr] else [];
      if |queue| == 0 {
        return [];
      }
      packetsToSend := packetsToSend[addr := []];
    }

    method RequeuePackets(addr: string, packets: seq<Routed>)
      modifies this`packetsToSend
      ensures Queue(addr) == packets + old(Queue(addr))
      ensures packetsToSend == if packets == [] then old(packetsToSend)
        else old(packetsToSend)[addr := packets + old(Queue(addr))]
    {
      if |packets| == 0 {
        return;
      }
      var all := packets;
      if addr in packetsToSend && |packetsToSend[addr]| > 0 {
        all := all + packetsToSend[addr];
      }
      packetsToSend := packetsToSend[addr := all];
    }

    // -------------------------------------------------------------- building datagrams

    method WriteSubPacket(buf: ByteBuffer, routed: Routed, sequence: uint16)
      modifies buf
      ensures buf.data == old(buf.data) + SubPacket(routed, sequence)
    {
      hide Header, PutHeader, PutUint16;
      var payload := routed.packet.data;
      var payloadLen := |payload|;
      var alignedPayloadLen := (payloadLen + 3) / 4 * 4;
      var sizeUnits := alignedPayloadLen / 4 % 128;
      var header := PutHeader(Header(routed.packet.kind, ByteOf(sizeUnits))) + PutUint16(sequence);
      buf.Write(header);
      buf.Write(payload);
      var pad := alignedPayloadLen - payloadLen;
      if pad > 0 {
        buf.Write(Zeros(pad));
      }
      WrittenInParts(old(buf.data), header, payload, Padding(routed));
    }

    lemma WrittenInParts(front: seq<byte>, header: seq<byte>, payload: seq<byte>, pad: seq<byte>)
      ensures front + header + payload + pad == front + (header + payload + pad)
      ensures pad == [] ==> front + header + payload == front + (header + payload + pad)
    {
    }

    /** Packs as many packets from the front as the budget allows. */
    method BuildPayload(packets: seq<Routed>, sequence: uint16)
      returns (payload: seq<byte>, consumed: nat, err: Option<SendError>)
      ensures err == if packets != [] && Taken(packets) == 0 then Some(PacketTooLarge) else None
      ensures err == None ==> consumed == Taken(packets) && payload == Payload(packets[..consumed], sequence)
      ensures err == None ==> |payload| <= MAX_PAYLOAD
      ensures err != None ==> payload == [] && consumed == 0
    {
      hide SubPacket, FitCount;
      var buffer := new ByteBuffer();
      consumed := 0;
      TakenFits(packets, sequence);
      assert packets[..0] == [];
      while consumed < |packets|
        invariant consumed <= |packets| && buffer.data == Payload(packets[..consumed], sequence)
        invariant |buffer.data| <= MAX_PAYLOAD
      {
        var packet := packets[consumed];
        var required := SubLength(packet);
        PayloadNext(packets, consumed, sequence);
        if |buffer.data| + required > MAX_PAYLOAD {
          assert |Payload(packets[..consumed + 1], sequence)| > MAX_PAYLOAD;
          if consumed == 0 {
            return [], 0, Some(PacketTooLarge);
          }
          break;
        }
        WriteSubPacket(buffer, packet, sequence);
        consumed := consumed + 1;
      }
      assert consumed == |packets| ==> packets[..consumed] == packets;
      assert |Payload(packets[..consumed], sequence)| <= MAX_PAYLOAD;
      return buffer.data, consumed, None;
    }

    lemma PayloadNext(packets: seq<Routed>, k: nat, sequence: uint16)
      requires k < |packets|
      ensures Payload(packets[..k + 1], sequence) == Payload(packets[..k], sequence) + SubPacket(packets[k], sequence)
    {
      hide SubPacket;
      assert packets[..k + 1] == packets[..k] + [packets[k]];
      PayloadConcat(packets[..k], [packets[k]], sequence);
      assert Payload([packets[k]], sequence) == SubPacket(packets[k], sequence);
    }

    /** Compresses, signs and enciphers a payload under the session's header. */
    method BuildNetworkPacket(session: Session, payload: seq<byte>, serverPacketID: uint16, now: word)
      returns (wrapped: Wrapped)
      requires session.Valid() && CodecReady() && 2 * |payload| + 64 <= MAX_BUFFER
      ensures wrapped == WrapWith(env, codec.initErr, codec.encTable, session.LinkNow(), payload, serverPacketID, now)
      ensures wrapped.Wrapped? ==>
        && |wrapped.packet| >= 28
        && Uint16(wrapped.packet[0..2]) == serverPacketID && Uint16(wrapped.packet[2..4]) == session.lastClientPacketID
        && wrapped.packet[4..8] == session.lastClientHeader[4..8] && wrapped.packet[8..12] == PutWord(now)
        && wrapped.packet[12..28] == session.lastClientHeader[12..28]
    {
      hide CompressInto, TakesNormalPath, CipherPacket, PutUint16, PutUint32, PutWord, Trimmed, Uint16;
      if |payload| == 0 {
        return Refused(EmptyPayload);
      }
      var compressedBuf := new byte[|payload| * 2 + 64](_ => 0);
      assert compressedBuf[..] == Zeros(2 * |payload| + 64);
      var bitCount, err := codec.Compress(payload, compressedBuf);
      if codec.initErr == None {
        RouterBufferSuffices(codec.encTable, payload, Zeros(2 * |payload| + 64));
      }
      if err != None {
        return Refused(CompressFailed(err.value));
      }
      TrimmedIsPrefix(codec.encTable, payload, Zeros(2 * |payload| + 64));
      var compressedBytes := BytesFor(bitCount);
      var chunk := compressedBuf[..compressedBytes] + PutUint32(bitCount);
      var hash := env.md5(chunk);
      var header := session.lastClientHeader;
      header := PutUint16(serverPacketID) + header[2..];
      header := header[..2] + PutUint16(session.lastClientPacketID) + header[4..];
      header := header[..8] + PutWord(now) + header[12..];
      HeaderInParts(session.lastClientHeader, PutUint16(serverPacketID), PutUint16(session.lastClientPacketID),
                    PutWord(now));
      var plain := header + (chunk + hash);
      var packet := new byte[|plain|](i requires 0 <= i < |plain| => plain[i]);
      assert packet[..] == plain;
      if session.currentBlowfish != null {
        session.currentBlowfish.EncryptPacket(packet, HEADER_SIZE);
      }
      WrapShowsHeader(env, codec.encTable, session.LinkNow(), payload, serverPacketID, now);
      return Wrapped(packet[..]);
    }

    lemma HeaderInParts(header: seq<byte>, a: seq<byte>, b: seq<byte>, c: seq<byte>)
      requires |header| == HEADER_SIZE && |a| == 2 && |b| == 2 && |c| == 4
      ensures var h1 := a + header[2..];
              var h2 := h1[..2] + b + h1[4..];
              h2[..8] + c + h2[12..] == a + b + header[4..8] + c + header[12..]
    {
    }

    // -------------------------------------------------------------- sending

    /**
     Whether each datagram of a cut gets through, the first being numbered after
     `id` and attempted as write `tick`.
     */
    ghost predicate Passes(batches: seq<seq<Routed>>, id: uint16, tick: nat)
      reads codec`initErr, codec`encTable
    {
      AllGoThrough(codec.initErr, codec.encTable, network.accepts, batches, id, tick)
    }

    /** The entries of a burst of this server's. */
    ghost function Datagrams(link: Link, addr: string, batches: seq<seq<Routed>>, id: uint16, tick: nat)
      : seq<(string, seq<byte>)>
      requires ValidLink(link)
      reads codec`encTable
    {
      DatagramsFor(env, codec.encTable, link, addr, batches, id, network.clock, tick)
    }

    /**
     Sends a batch as consecutive datagrams.  `sent` records the packets of the
     datagrams that made it; on failure they are a proper prefix of the batch.
     It succeeds exactly if every packet fits a datagram and every datagram gets
     through the codec and the network.
     */
    method SendPacketBurst(session: Session, pending: seq<Routed>)
      returns (err: Option<SendError>, ghost sent: seq<seq<Routed>>)
      requires session.Valid() && CodecReady()
      modifies session`lastServerPacketID, network`attempts, network`wire
      ensures session.Valid() && session.LinkNow() == old(session.LinkNow())
      ensures sent <= Batches(pending) && Passes(sent, old(session.lastServerPacketID), old(network.attempts))
      ensures err == None ==>
        sent == Batches(pending) && Flatten(sent) == pending && network.attempts == old(network.attempts) + |sent|
      ensures err != None ==> Flatten(sent) < pending
      ensures session.lastServerPacketID == Later(old(session.lastServerPacketID), |sent|)
      ensures network.wire == old(network.wire)
              + Datagrams(old(session.LinkNow()), session.clientAddr, sent, old(session.lastServerPacketID),
                          old(network.attempts))
      ensures err == None <==>
        AllFit(Lengths(pending)) && Passes(Batches(pending), old(session.lastServerPacketID), old(network.attempts))
    {
      hide Taken, Payload, WrapWith, DatagramFor, DatagramsFor, Lengths, Later, NextID, Batches, AllFit, Flatten,
        GoesThrough, AllGoThrough;
      var remaining := pending;
      sent := [];
      ghost var link, first, tick := session.LinkNow(), session.lastServerPacketID, network.attempts;
      ghost var before := network.wire;
      Untouched(pending, first, tick);
      NoDatagrams(link, session.clientAddr, first, tick);
      while |remaining| > 0
        invariant session.Valid() && session.LinkNow() == link
        invariant Batches(pending) == sent + Batches(remaining)
        invariant pending == Flatten(sent) + remaining
        invariant session.lastServerPacketID == Later(first, |sent|)
        invariant network.attempts == tick + |sent|
        invariant network.wire == before + Datagrams(link, session.clientAddr, sent, first, tick)
        invariant Passes(sent, first, tick)
        decreases |remaining|
      {
        var nextServerPacketID := NextID(session.lastServerPacketID);
        LaterByOne(first, |sent|);
        var payload, consumed, buildErr := BuildPayload(remaining, nextServerPacketID);
        CutNext(pending, sent, remaining);
        if buildErr != None {
          return buildErr, sent;
        }
        if consumed == 0 {
          return Some(NothingConsumed), sent;
        }
        ghost var batch := remaining[..consumed];
        NextGoesThrough(codec.initErr, codec.encTable, network.accepts, sent, batch, Batches(remaining[consumed..]),
                        first, tick);
        var now := network.clock(network.attempts);
        var wrapped := BuildNetworkPacket(session, payload, nextServerPacketID, now);
        WrappedExactly(env, codec.initErr, codec.encTable, link, batch, nextServerPacketID, now);
        if wrapped.Refused? {
          return Some(wrapped.err), sent;
        }
        var ok := network.WriteToUDP(wrapped.packet, session.clientAddr);
        if !ok {
          return Some(WriteFailed), sent;
        }
        session.lastServerPacketID := nextServerPacketID;
        DatagramsNext(env, codec.encTable, link, session.clientAddr, sent, batch, first, network.clock, tick);
        sent := sent + [batch];
        remaining := remaining[consumed..];
      }
      AllSent(pending, sent, remaining);
      return None, sent;
    }

    lemma Untouched(pending: seq<Routed>, first: uint16, tick: nat)
      ensures Batches(pending) == [] + Batches(pending) && pending == Flatten<Routed>([]) + pending
      ensures Passes([], first, tick) && Later(first, 0) == first
    {
      hide Taken;
    }

    lemma AllSent(pending: seq<Routed>, sent: seq<seq<Routed>>, remaining: seq<Routed>)
      requires remaining == []
      requires Batches(pending) == sent + Batches(remaining) && pending == Flatten(sent) + remaining
      ensures sent == Batches(pending) && Flatten(sent) == pending && AllFit(Lengths(pending))
    {
      hide Flatten;
      assert Batches(remaining) == [];
      BatchesAreGreedy(pending);
    }

    /** What taking the next batch does to the cut of the whole. */
    lemma CutNext(pending: seq<Routed>, sent: seq<seq<Routed>>, remaining: seq<Routed>)
      requires remaining != []
      requires Batches(pending) == sent + Batches(remaining) && pending == Flatten(sent) + remaining
      ensures var n := Taken(remaining);
              && (n > 0 ==> Batches(pending) == sent + [remaining[..n]] + Batches(remaining[n..]))
              && (n == 0 ==> !AllFit(Lengths(pending)))
              && pending == Flatten(sent + [remaining[..n]]) + remaining[n..]
      ensures Flatten(sent) < pending && sent <= Batches(pending)
    {
      hide Taken, Flatten, AllFit, Lengths;
      var n := Taken(remaining);
      FlattenSnoc(sent, remaining[..n]);
      assert remaining == remaining[..n] + remaining[n..];
      Associative(Flatten(sent), remaining[..n], remaining[n..]);
      if n > 0 {
        Associative(sent, [remaining[..n]], Batches(remaining[n..]));
      } else {
        assert sent + [] == sent;
        BatchesAreGreedy(pending);
      }
    }

    lemma NoDatagrams(link: Link, addr: string, id: uint16, tick: nat)
      requires ValidLink(link)
      ensures Datagrams(link, addr, [], id, tick) == []
      ensures Flatten<Routed>([]) == []
    {
    }

    /** What a round does to its channel. */
    ghost function RoundActions(queue: seq<Routed>, n: nat, arrivals: seq<Routed>, done: bool): seq<Action> {
      if queue == [] then [] else BurstActions(n, arrivals, done)
    }

    /** What a flush of one session reads and changes. */
    ghost function Now(session: Session): Snapshot
      requires session.Valid()
      reads this`packetsToSend, this`channels, session, session.CipherFrame(), network`wire, network`attempts
    {
      Snapshot(Queue(session.clientAddr), Chan(session.clientAddr), session.LinkNow(), session.lastServerPacketID,
               network.attempts, network.wire)
    }

    /**
     The outcome of one round, for the address `addr`: all of the queue, or on an
     error a proper prefix of it, has gone out in datagrams; the queue is what
     arrived, behind the batch if that failed.
     */
    ghost predicate RoundOutcome(addr: string, a: Snapshot, b: Snapshot, arrivals: seq<Routed>, err: Option<SendError>,
                                 sent: seq<seq<Routed>>)
      reads codec`initErr, codec`encTable
    {
      && BurstOutcome(addr, a, b, arrivals, err, sent)
      && var actions := RoundActions(a.queue, |sent|, arrivals, err == None);
         && CanRun(a.channel, actions) && b.channel == Run(a.channel, actions)
         && b.channel.enqueued == a.channel.enqueued + (if a.queue == [] then [] else arrivals)
    }

    /** That outcome but for the channel. */
    ghost predicate BurstOutcome(addr: string, a: Snapshot, b: Snapshot, arrivals: seq<Routed>, err: Option<SendError>,
                                 sent: seq<seq<Routed>>)
      reads codec`initErr, codec`encTable
    {
      && sent <= Batches(a.queue) && Passes(sent, a.id, a.tick)
      && (err == None ==> sent == Batches(a.queue) && Flatten(sent) == a.queue && b.tick == a.tick + |sent|)
      && (err != None ==> Flatten(sent) < a.queue)
      && (err == None <==> AllFit(Lengths(a.queue)) && Passes(Batches(a.queue), a.id, a.tick))
      && b.link == a.link && b.id == Later(a.id, |sent|)
      && b.wire == a.wire + Datagrams(a.link, addr, sent, a.id, a.tick)
      && b.queue == (if err == None then [] else a.queue) + (if a.queue == [] then [] else arrivals)
    }

    /** Takes the queue, sends it, and on an error puts it back in front of what arrived meanwhile. */
    method BurstOrRequeue(session: Session, arrivals: seq<Routed>, ghost before: Snapshot)
      returns (more: bool, err: Option<SendError>, ghost sent: seq<seq<Routed>>)
      requires session.Valid() && CodecReady() && before == Now(session)
      modifies this`packetsToSend, session`lastServerPacketID, network`attempts, network`wire
      ensures session.Valid() && more == (before.queue != [] && err == None)
      ensures BurstOutcome(session.clientAddr, before, Now(session), arrivals, err, sent)
      ensures forall other :: other != session.clientAddr ==> Queue(other) == old(Queue(other))
    {
      hide Batches, AllGoThrough, DatagramsFor, Later, CodecReady, Flatten, AllFit, Lengths;
      var addr := session.clientAddr;
      var pending := DequeuePackets(addr);
      if |pending| == 0 {
        sent := [];
        NothingQueued(before.channel, before.link, addr, before.id, before.tick);
        assert before.wire + [] == before.wire;
        return false, None, [];
      }
      err, sent := SendPacketBurst(session, pending);
      more := err == None;
      ArriveAndSettle(addr, pending, arrivals, more);
    }

    /**
     One round of a flush: a burst of all that is queued, while `arrivals` come
     in for the address.  There is a next round unless nothing was queued or the
     burst failed; then the batch goes back in front of what arrived.
     */
    method FlushRound(session: Session, arrivals: seq<Routed>, ghost before: Snapshot)
      returns (more: bool, err: Option<SendError>, ghost sent: seq<seq<Routed>>)
      requires Valid() && session.clientAddr in sessions && sessions[session.clientAddr] == session
        && before == Now(session)
      requires forall i :: 0 <= i < |arrivals| ==> arrivals[i].clientAddr == session.clientAddr
      modifies this`packetsToSend, this`channels, this`stamps, session`lastServerPacketID, network`attempts,
        network`wire
      ensures Valid() && more == (before.queue != [] && err == None)
      ensures RoundOutcome(session.clientAddr, before, Now(session), arrivals, err, sent)
      ensures forall other :: other != session.clientAddr ==>
        Queue(other) == old(Queue(other)) && Chan(other) == old(Chan(other))
    {
      hide Invariant, Batches, AllGoThrough, DatagramsFor, Later, CodecReady, Run, CanRun, Flatten, BurstActions,
        WireValid, StampsFor,
        SentEvents, AllFit, Lengths, RoundOutcome, BurstOutcome, ChannelsValid, Settled, ChannelValid;
      var addr := session.clientAddr;
      ChannelSettled(addr);
      more, err, sent := BurstOrRequeue(session, arrivals, before);
      RoundSettled(addr, before, Now(session), arrivals, err, sent);
      channels := channels[addr := AfterRound(before, |sent|, arrivals, err == None)];
      stamps := stamps[addr := Stamps(addr) + StampsFor(before.link, network.clock, before.tick, |sent|)];
      SettledChannel(addr);
      ChannelsElsewhere(addr);
      ghost var burst := BurstNote(addr, before.link, sent, before.id, |before.channel.completed|, before.tick);
      WireAfterBurst(burst);
    }

    /** The channel after a round. */
    ghost function AfterRound(a: Snapshot, n: nat, arrivals: seq<Routed>, done: bool): Channel {
      var actions := RoundActions(a.queue, n, arrivals, done);
      if CanRun(a.channel, actions) then Run(a.channel, actions) else a.channel
    }

    /** What holds of a channel between bursts, given its queue and the number of its session. */
    ghost predicate Settled(c: Channel, queue: seq<Routed>, id: uint16) {
      c.queue == queue && c.flight.Idle? && Invariant(c) && c.lastID == id
    }

    /** What a burst did to the session and the network, seen from the channel that records it. */
    lemma RoundSettled(addr: string, a: Snapshot, b: Snapshot, arrivals: seq<Routed>, err: Option<SendError>,
                       sent: seq<seq<Routed>>)
      requires Settled(a.channel, a.queue, a.id)
      requires BurstOutcome(addr, a, b, arrivals, err, sent)
      ensures var after := AfterRound(a, |sent|, arrivals, err == None);
              && RoundOutcome(addr, a, b.(channel := after), arrivals, err, sent) && Settled(after, b.queue, b.id)
              && after.history == a.channel.history + SentEvents(a.id, |a.channel.completed|, sent)
      ensures Passes(sent, a.id, a.tick) && b.wire == a.wire + Datagrams(a.link, addr, sent, a.id, a.tick)
    {
      hide AllGoThrough, DatagramsFor, Later, Run, CanRun, BurstActions, Batches, Invariant, Flatten, AllFit, Lengths;
      NothingQueued(a.channel, a.link, addr, a.id, a.tick);
      assert sent == Batches(a.queue)[..|sent|];
      if a.queue != [] {
        BurstOnChannel(a.channel, |sent|, arrivals, err == None);
      } else {
        NothingToCut(err, a.queue, sent);
        assert a.channel.history + [] == a.channel.history;
      }
    }

    lemma SettledChannel(addr: string)
      requires Settled(Chan(addr), Queue(addr), if addr in sessions then sessions[addr].lastServerPacketID else 0)
      ensures ChannelValid(addr)
    {
      hide Invariant;
    }

    lemma ChannelSettled(addr: string)
      requires ChannelsValid() && addr in sessions
      ensures Settled(Chan(addr), Queue(addr), sessions[addr].lastServerPacketID)
    {
      hide Invariant;
      assert ChannelValid(addr);
    }

    /** The wire after a burst to one address, given what its channel and its stamps now say. */
    twostate lemma WireAfterBurst(burst: BurstNote)
      requires old(WireValid())
      requires network.wire == old(network.wire) + Datagrams(burst.link, burst.addr, burst.sent, burst.id, burst.tick)
      requires Passes(burst.sent, burst.id, burst.tick)
      requires codec.encTable == old(codec.encTable)
      requires Chan(burst.addr).history == old(Chan(burst.addr)).history + SentEvents(burst.id, burst.place, burst.sent)
      requires Stamps(burst.addr)
        == old(Stamps(burst.addr)) + StampsFor(burst.link, network.clock, burst.tick, |burst.sent|)
      requires forall other :: other != burst.addr ==>
        Chan(other) == old(Chan(other)) && Stamps(other) == old(Stamps(other))
      ensures WireValid()
    {
      hide AllGoThrough, DatagramsFor, Logs, WireTo, SentOf, StampsFor, SentEvents;
      forall other
        ensures WireLogged(other)
      {
        assert old(WireLogged(other));
        if other == burst.addr {
          BurstIsLogged(env, codec.initErr, codec.encTable, network.accepts, burst.link, burst.addr, burst.sent,
                        burst.id, burst.place,
                        network.clock, burst.tick, |WireTo(wireBefore, other)|, old(network.wire), old(Stamps(other)),
                        old(Chan(other)).history);
        } else {
          BurstElsewhere(env, codec.initErr, codec.encTable, network.accepts, burst.link, burst.addr, burst.sent,
                         burst.id, network.clock, burst.tick, old(network.wire), other);
        }
      }
    }

    lemma NothingQueued(c: Channel, link: Link, addr: string, id: uint16, tick: nat)
      requires ValidLink(link)
      ensures Datagrams(link, addr, [], id, tick) == [] && Flatten<Routed>([]) == [] && Batches([]) == []
        && Later(id, 0) == id
      ensures Passes([], id, tick) && AllFit(Lengths([]))
      ensures CanRun(c, []) && Run(c, []) == c && c.enqueued + [] == c.enqueued
    {
    }

    /**
     The outcome of a flush, for the address `addr`.  If all goes well, the queue
     is empty and everything queued or come in went out exactly once, in order,
     each batch in the fewest datagrams.  Otherwise `done` is what the good rounds
     sent, the batch that failed is in front of the queue again, and only a part
     of it went out.
     */
    ghost predicate FlushOutcome(addr: string, a: Snapshot, b: Snapshot, arrivals: seq<seq<Routed>>,
                                 err: Option<SendError>,
                                 sent: seq<seq<Routed>>, done: seq<seq<Routed>>, heard: seq<Routed>,
                                   actions: seq<Action>)
      reads codec`initErr, codec`encTable
    {
      var rounds := Rounds(a.queue, arrivals);
      && sent <= Cut(rounds) && done <= rounds && Flatten(done) + b.queue == a.queue + heard
      && (err == None ==> done == rounds && sent == Cut(rounds) && Flatten(sent) == a.queue + heard && b.queue == [])
      && (err != None ==>
            && Flatten(done) <= Flatten(sent) < a.queue + heard
            && |done| < |rounds| && b.queue == rounds[|done|] + During(arrivals, |done|))
      && (err == None <==> Fitting(rounds) && Passes(Cut(rounds), a.id, a.tick))
      && b.link == a.link && b.wire == a.wire + Datagrams(a.link, addr, sent, a.id, a.tick)
      && CanRun(a.channel, actions) && b.channel == Run(a.channel, actions)
      && b.channel.enqueued == a.channel.enqueued + heard
    }

    /** Drains a session's queue, round by round, while `arrivals[i]` come in during the i-th. */
    method FlushSessionQueue(session: Session, arrivals: seq<seq<Routed>>, ghost before: Snapshot)
      returns (err: Option<SendError>, ghost sent: seq<seq<Routed>>, ghost done: seq<seq<Routed>>,
               ghost heard: seq<Routed>, ghost actions: seq<Action>)
      requires Valid() && session.clientAddr in sessions && sessions[session.clientAddr] == session
        && before == Now(session)
      requires forall i, j :: 0 <= i < |arrivals| && 0 <= j < |arrivals[i]| ==>
        arrivals[i][j].clientAddr == session.clientAddr
      modifies this`packetsToSend, this`channels, this`stamps, session`lastServerPacketID, network`attempts,
        network`wire
      ensures Valid()
      ensures FlushOutcome(session.clientAddr, before, Now(session), arrivals, err, sent, done, heard, actions)
      ensures forall other :: other != session.clientAddr ==>
        Queue(other) == old(Queue(other)) && Chan(other) == old(Chan(other))
    {
      hide ChannelsValid, WireValid, CodecReady, FlushState, FlushOutcome, RoundOutcome, RoundActions;
      var addr := session.clientAddr;
      var more, i := true, 0;
      err, sent, done, heard, actions := None, [], [], [], [];
      FlushStarts(addr, before, arrivals);
      while more
        invariant Valid() && (more ==> err == None)
        invariant FlushState(addr, before, Now(session), arrivals, more, i, err, sent, done, heard, actions)
        invariant forall other :: other != addr ==> Queue(other) == old(Queue(other)) && Chan(other) == old(Chan(other))
        decreases if more then 1 else 0, if i < |arrivals| then |arrivals| - i else 0, |Queue(addr)|
      {
        ghost var now := Now(session);
        var during := During(arrivals, i);
        ghost var part;
        more, err, part := FlushRound(session, during, now);
        FlushGoesOn(addr, before, now, Now(session), arrivals, i, sent, done, heard, actions, err, part);
        actions := actions + RoundActions(now.queue, |part|, during, err == None);
        done := if more then done + [now.queue] else done;
        heard := if now.queue == [] then heard else heard + during;
        sent := sent + part;
        i := i + 1;
      }
      FlushEnds(addr, before, Now(session), arrivals, i, err, sent, done, heard, actions);
    }

    /** The flush after `i` rounds. */
    ghost predicate FlushState(addr: string, a: Snapshot, b: Snapshot, arrivals: seq<seq<Routed>>, more: bool, i: nat,
                               err: Option<SendError>, sent: seq<seq<Routed>>, done: seq<seq<Routed>>,
                                 heard: seq<Routed>, actions: seq<Action>)
      reads codec`initErr, codec`encTable
    {
      if err == None then
        && Flushing(a.queue, arrivals, |done|, done, b.queue, heard, sent)
        && (if more then i == |done| else b.queue == [])
        && b.id == Later(a.id, |sent|) && b.tick == a.tick + |sent| && Passes(sent, a.id, a.tick)
        && b.link == a.link && b.wire == a.wire + Datagrams(a.link, addr, sent, a.id, a.tick)
        && CanRun(a.channel, actions) && b.channel == Run(a.channel, actions)
        && b.channel.enqueued == a.channel.enqueued + heard
      else !more && FlushOutcome(addr, a, b, arrivals, err, sent, done, heard, actions)
    }

    lemma FlushStarts(addr: string, a: Snapshot, arrivals: seq<seq<Routed>>)
      ensures FlushState(addr, a, a, arrivals, true, 0, None, [], [], [], [])
    {
      hide Flushing, DatagramsFor, AllGoThrough, Run, CanRun, Later;
      FlushingStart(a.queue, arrivals);
      NothingQueued(a.channel, a.link, addr, a.id, a.tick);
      assert a.wire + [] == a.wire;
    }

    lemma FlushEnds(addr: string, a: Snapshot, b: Snapshot, arrivals: seq<seq<Routed>>, i: nat, err: Option<SendError>,
                    sent: seq<seq<Routed>>, done: seq<seq<Routed>>, heard: seq<Routed>, actions: seq<Action>)
      requires FlushState(addr, a, b, arrivals, false, i, err, sent, done, heard, actions)
      ensures FlushOutcome(addr, a, b, arrivals, err, sent, done, heard, actions)
    {
      hide Flushing, DatagramsFor, AllGoThrough, Run, CanRun, Later, Rounds, Cut, Flatten, Fitting;
      if err == None {
        FlushingDry(a.queue, arrivals, |done|, done, heard, sent);
        assert Flatten(done) + [] == Flatten(done);
      }
    }

    /** One more round, whether it finds nothing, gets through, or fails. */
    lemma FlushGoesOn(addr: string, a: Snapshot, b: Snapshot, c: Snapshot, arrivals: seq<seq<Routed>>, i: nat,
                      sent: seq<seq<Routed>>, done: seq<seq<Routed>>, heard: seq<Routed>, actions: seq<Action>,
                      err: Option<SendError>, part: seq<seq<Routed>>)
      requires FlushState(addr, a, b, arrivals, true, i, None, sent, done, heard, actions)
      requires RoundOutcome(addr, b, c, During(arrivals, i), err, part)
      ensures var more, during := b.queue != [] && err == None, During(arrivals, i);
              && FlushState(addr, a, c, arrivals, more, i + 1, err, sent + part, if more then done + [b.queue]
                            else done,
                            if b.queue == [] then heard else heard + during,
                            actions + RoundActions(b.queue, |part|, during, err == None))
              && (i >= |arrivals| && more ==> |c.queue| < |b.queue|)
    {
      hide DatagramsFor, AllGoThrough, Run, CanRun, Later, Rounds, Cut, Flatten, Fitting, Batches, Flushing,
        RoundActions, AllFit, Lengths;
      var during := During(arrivals, i);
      RoundOnWire(a.link, addr, sent, part, a.id, a.tick, a.wire);
      RoundOnChannel(a.channel, actions, b.channel, RoundActions(b.queue, |part|, during, err == None));
      Associative(a.channel.enqueued, heard, during);
      if b.queue == [] {
        NothingToCut(err, b.queue, part);
      } else if err == None {
        assert [] + during == during;
        FlushingNext(a.queue, arrivals, i, done, b.queue, heard, sent);
      } else {
        RoundFails(a.queue, arrivals, i, done, b.queue, heard, sent, part, a.id, a.tick);
        FailedRoundConserves(done, b.queue, a.queue, heard, during, Flatten(sent + part));
      }
    }

    lemma NothingToCut(err: Option<SendError>, queue: seq<Routed>, part: seq<seq<Routed>>)
      requires queue == [] && part <= Batches(queue)
      requires err != None ==> Flatten(part) < queue
      ensures part == [] && err == None
    {
    }

    lemma RoundOnWire(link: Link, addr: string, sent: seq<seq<Routed>>, part: seq<seq<Routed>>, id: uint16, tick: nat,
                      wire: seq<(string, seq<byte>)>)
      requires ValidLink(link)
      ensures wire + Datagrams(link, addr, sent, id, tick)
        + Datagrams(link, addr, part, Later(id, |sent|), tick + |sent|)
           == wire + Datagrams(link, addr, sent + part, id, tick)
      ensures Later(Later(id, |sent|), |part|) == Later(id, |sent + part|)
      ensures Passes(sent, id, tick) && Passes(part, Later(id, |sent|), tick + |sent|) ==> Passes(sent + part, id, tick)
      ensures part == [] ==> sent + part == sent
    {
      hide DatagramsFor, AllGoThrough, Later;
      DatagramsForConcat(env, codec.encTable, link, addr, sent, part, id, network.clock, tick);
      AllGoThroughConcat(codec.initErr, codec.encTable, network.accepts, sent, part, id, tick);
      LaterLater(id, |sent|, |part|);
      Associative(wire, Datagrams(link, addr, sent, id, tick),
                  Datagrams(link, addr, part, Later(id, |sent|), tick + |sent|));
    }

    lemma RoundOnChannel(start: Channel, actions: seq<Action>, now: Channel, more: seq<Action>)
      requires CanRun(start, actions) && now == Run(start, actions) && CanRun(now, more)
      ensures CanRun(start, actions + more) && Run(start, actions + more) == Run(now, more)
    {
      hide CanRun, Run;
      RunThen(start, actions, more);
    }

    lemma RoundFails(start: seq<Routed>, arrivals: seq<seq<Routed>>, i: nat, done: seq<seq<Routed>>, queue: seq<Routed>,
                     heard: seq<Routed>, sent: seq<seq<Routed>>, part: seq<seq<Routed>>, id: uint16, tick: nat)
      requires Flushing(start, arrivals, i, done, queue, heard, sent) && part <= Batches(queue) && Flatten(part) < queue
      requires !(AllFit(Lengths(queue)) && Passes(Batches(queue), Later(id, |sent|), tick + |sent|))
      ensures var rounds := Rounds(start, arrivals);
              && sent + part <= Cut(rounds) && done <= rounds && |done| == i < |rounds| && rounds[i] == queue
              && Flatten(done) <= Flatten(sent + part) < start + heard
              && Flatten(done) + queue == start + heard
              && !(Fitting(rounds) && Passes(Cut(rounds), id, tick))
    {
      hide Batches, Flatten, AllFit, Lengths, AllGoThrough, Later, Rounds, Cut, Fitting;
      FlushingFails(start, arrivals, i, done, queue, heard, sent, part);
      var cut := Cut(Rounds(start, arrivals));
      var rest :| cut == sent + (Batches(queue) + rest);
      AllGoThroughConcat(codec.initErr, codec.encTable, network.accepts, sent, Batches(queue) + rest, id, tick);
      AllGoThroughConcat(codec.initErr, codec.encTable, network.accepts, Batches(queue), rest, Later(id, |sent|), tick
                         + |sent|);
    }

    lemma FailedRoundConserves(done: seq<seq<Routed>>, queue: seq<Routed>, start: seq<Routed>, heard: seq<Routed>,
                               during: seq<Routed>, sent: seq<Routed>)
      requires Flatten(done) + queue == start + heard && sent < start + heard
      ensures Flatten(done) + (queue + during) == start + (heard + during)
      ensures sent < start + (heard + during)
    {
      hide Flatten;
      Associative(Flatten(done), queue, during);
      Associative(start, heard, during);
    }

    /** During the burst packets came in; after it a batch that failed goes back in front of them. */
    method ArriveAndSettle(addr: string, pending: seq<Routed>, arrivals: seq<Routed>, done: bool)
      requires Queue(addr) == []
      modifies this`packetsToSend
      ensures Queue(addr) == (if done then [] else pending) + arrivals
      ensures forall other :: other != addr ==> Queue(other) == old(Queue(other))
    {
      Arrive(addr, arrivals);
      assert [] + arrivals == arrivals;
      if !done {
        RequeuePackets(addr, pending);
      }
    }

    /** What comes in for an address while its burst is under way is queued as always. */
    method Arrive(addr: string, arrivals: seq<Routed>)
      modifies this`packetsToSend
      ensures Queue(addr) == old(Queue(addr)) + arrivals
      ensures forall other :: other != addr ==> Queue(other) == old(Queue(other))
    {
      for i := 0 to |arrivals|
        invariant Queue(addr) == old(Queue(addr)) + arrivals[..i]
        invariant forall other :: other != addr ==> Queue(other) == old(Queue(other))
      {
        var queue := if addr in packetsToSend then packetsToSend[addr] else [];
        packetsToSend := packetsToSend[addr := queue + [arrivals[i]]];
        assert arrivals[..i + 1] == arrivals[..i] + [arrivals[i]];
      }
      assert arrivals[..|arrivals|] == arrivals;
    }

    /** Where nothing changed but at one address, the channels there are still valid. */
    twostate lemma ChannelsElsewhere(addr: string)
      requires old(ChannelsValid()) && sessions == old(sessions) && ChannelValid(addr)
      requires forall other :: other != addr ==> Chan(other) == old(Chan(other)) && Queue(other) == old(Queue(other))
      requires forall other :: other in sessions && other != addr ==> SameNumber(other)
      ensures ChannelsValid()
    {
      hide Invariant;
      forall other
        ensures ChannelValid(other)
      {
        assert old(ChannelValid(other));
      }
    }

    // -------------------------------------------------------------- what the wire says

    /** The entry of the wire for an address that records the k-th datagram of its channel. */
    ghost function Entry(addr: string, k: nat): seq<byte>
      requires WireLogged(addr) && k < |SentOf(Chan(addr).history)|
      reads this`channels, this`stamps, network`wire, codec`encTable
    {
      WireTo(network.wire, addr)[|WireTo(wireBefore, addr)| + k]
    }

    /**
     At least once, in bytes: each completed packet of an address is in some
     datagram of its channel whose encoding is on the wire for that address.
     */
    lemma CompletedIsOnWire(addr: string, j: nat) returns (k: nat)
      requires Valid() && j < |Chan(addr).completed|
      ensures k < |SentOf(Chan(addr).history)| == |Stamps(addr)|
      ensures var d, stamp := SentOf(Chan(addr).history)[k], Stamps(addr)[k];
              && d.place <= j < d.place + |d.packets| && d.packets[j - d.place] == Chan(addr).completed[j]
              && Entry(addr, k) == DatagramFor(env, codec.encTable, stamp.link, d.packets, d.id, stamp.now)
    {
      hide Invariant, Faithful, SentOf, WireTo, DatagramFor;
      assert ChannelValid(addr) && WireLogged(addr);
      CompletedWasSent(Chan(addr), j);
      var i :| 0 <= i < |Chan(addr).history| && Chan(addr).history[i].Sent?
        && var d := Chan(addr).history[i].datagram;
           d.place <= j < d.place + |d.packets| && d.packets[j - d.place] == Chan(addr).completed[j];
      k := SentOfHas(Chan(addr).history, i);
    }

    /** As long as the count of an address has not wrapped, the numbers its datagrams show on the wire grow. */
    lemma WireNumbersGrow(addr: string, j: nat, k: nat)
      requires Valid() && !Chan(addr).wrapped && j < k < |SentOf(Chan(addr).history)|
      ensures |Entry(addr, j)| >= HEADER_SIZE && |Entry(addr, k)| >= HEADER_SIZE
      ensures Uint16(Entry(addr, j)[0..2]) < Uint16(Entry(addr, k)[0..2])
    {
      hide Invariant, NumbersGrow, SentOf, WireTo, DatagramFor, Uint16;
      assert ChannelValid(addr) && WireLogged(addr);
      NumbersGrowUnlessWrapped(Chan(addr));
      SentNumbersGrow(Chan(addr).history, Chan(addr).lastID, j, k);
      assert Encodes(env, codec.encTable, Stamps(addr)[j], SentOf(Chan(addr).history)[j], Entry(addr, j));
      assert Encodes(env, codec.encTable, Stamps(addr)[k], SentOf(Chan(addr).history)[k], Entry(addr, k));
    }

    // -------------------------------------------------------------- what clients send

    ghost function TabledNow(): Gate.Tabled
      reads codec, codec.jumpTable
    {
      Gate.Tabled(codec.jumpTable[..], if codec.initErr == None then codec.jumpRoot else None)
    }

    /** The session table and the forwards attempted, as the gate sees them. */
    ghost function GateView(): Gate.State
      requires SessionsValid()
      reads this, network, sessions.Values, set addr, o | addr in sessions && o in sessions[addr].CipherFrame() :: o
    {
      Gate.State(map addr | addr in sessions :: sessions[addr].View(), network.published)
    }

    method ForwardPacketToInstance(session: Session, kind: bv16, sequence: uint16, payload: seq<byte>)
      requires session.Valid()
      modifies network`published
      ensures session.Valid() && session.View() == old(session.View())
      ensures network.published
        == old(network.published) + [Gate.Forward(session.clientAddr, session.View(), kind, sequence, payload)]
      ensures network.published[|old(network.published)|]
        == Routed(session.clientAddr, if session.character.Some? then session.character.value else 0,
                  Packet(kind, |payload| % 0x1_0000, sequence, payload))
    {
      var characterID: uint32 := 0;
      if session.character != None {
        characterID := session.character.value;
      }
      network.Publish(Routed(session.clientAddr, characterID,
                             Packet(kind, |payload| % TWO_TO_THE_16, sequence, payload)));
    }

    /** Forwards the sub-packets of a decompressed text, up to the first that does not make sense. */
    method DispatchSubPackets(session: Session, data: seq<byte>) returns (processed: nat)
      requires session.Valid()
      modifies network`published
      ensures session.Valid()
      ensures network.published
        == old(network.published) + Gate.ForwardAll(session.clientAddr, session.View(), Dispatch(data, 0))
      ensures session.View() == old(session.View()) && processed == |Dispatch(data, 0)|
      ensures Gate.CarriesAll(old(network.published), network.published, session.clientAddr, session.View(),
                              Dispatch(data, 0))
    {
      hide HeaderOf, KindOf, UnitsOf, Uint16, Dispatch, Gate.Forward, Gate.ForwardAll, Gate.CarriesAll,
        Session.CipherNow, Session.View;
      var offset := 0;
      processed := 0;
      ghost var client, addr, before := session.View(), session.clientAddr, network.published;
      ghost var done: seq<Piece> := [];
      assert [] + Dispatch(data, 0) == Dispatch(data, 0);
      ForwardNone(addr, client, before);
      Gate.ForwardAllCarries(before, addr, client, Dispatch(data, 0));
      while offset + 4 <= |data|
        invariant offset <= |data| && processed == |done|
        invariant session.Valid() && session.View() == client
        invariant Dispatch(data, 0) == done + Dispatch(data, offset)
        invariant network.published == before + Gate.ForwardAll(addr, client, done)
        decreases |data| - offset
      {
        DispatchStep(data, offset);
        assert done + [] == done;
        var header := HeaderOf(data[offset..offset + 2]);
        var packetType := KindOf(header);
        var packetSize := UnitsOf(header) as int * 2;
        if packetSize == 0 || offset + packetSize > |data| {
          return;
        }
        var sequence := Uint16(data[offset + 2..offset + 4]);
        var payloadSize := packetSize - 4;
        if payloadSize < 0 {
          return;
        }
        var payload := data[offset + 4..offset + packetSize];
        ForwardPacketToInstance(session, packetType, sequence, payload);
        ghost var piece := Piece(offset, packetSize, Sub(packetType, sequence, payload));
        OneMoreForwarded(before, addr, client, done, piece, Dispatch(data, offset + packetSize));
        done := done + [piece];
        offset := offset + packetSize;
        processed := processed + 1;
      }
      DispatchStep(data, offset);
      assert done + [] == done;
    }

    lemma ForwardNone(addr: string, client: Gate.Client, before: seq<Routed>)
      ensures before + Gate.ForwardAll(addr, client, []) == before
    {
    }

    lemma OneMoreForwarded(before: seq<Routed>, addr: string, client: Gate.Client, done: seq<Piece>, piece: Piece,
                           rest: seq<Piece>)
      ensures before + Gate.ForwardAll(addr, client, done)
              + [Gate.Forward(addr, client, piece.sub.kind, piece.sub.sequence, piece.sub.data)]
           == before + Gate.ForwardAll(addr, client, done + [piece])
      ensures done + ([piece] + rest) == done + [piece] + rest
    {
      hide Gate.Forward, Gate.ForwardAll;
      ForwardAllNext(addr, client, done, piece);
      Associative(before, Gate.ForwardAll(addr, client, done),
                  [Gate.Forward(addr, client, piece.sub.kind, piece.sub.sequence, piece.sub.data)]);
      Associative(done, [piece], rest);
    }

    lemma ForwardAllNext(addr: string, client: Gate.Client, done: seq<Piece>, piece: Piece)
      ensures Gate.ForwardAll(addr, client, done + [piece])
           == Gate.ForwardAll(addr, client, done)
             + [Gate.Forward(addr, client, piece.sub.kind, piece.sub.sequence, piece.sub.data)]
    {
      hide Gate.Forward;
    }

    method DecryptCopy(session: Session, data: seq<byte>) returns (decoded: seq<byte>)
      requires session.Valid()
      ensures decoded == Ciphered(Decrypting, session.LinkNow(), data)
    {
      hide CipherPacket;
      var copied := new byte[|data|](i requires 0 <= i < |data| => data[i]);
      assert copied[..] == data;
      if session.currentBlowfish != null {
        session.currentBlowfish.DecryptPacket(copied, HEADER_SIZE);
      }
      return copied[..];
    }

    /** Decrypts a copy of the datagram, checks its digest and takes it apart. */
    method OpenPacket(session: Session, data: seq<byte>) returns (body: Unwrapped)
      requires session.Valid() && |data| >= HEADER_SIZE + CHECKSUM_SIZE + 4
      ensures body == Unwrap(env, session.LinkNow(), data)
    {
      hide Uint32, Ciphered;
      var decoded := DecryptCopy(session, data);
      var payloadEnd := |decoded| - CHECKSUM_SIZE;
      if payloadEnd <= HEADER_SIZE + 4 {
        return BodyTooSmall;
      }
      var payload := decoded[HEADER_SIZE..payloadEnd];
      var checksum := decoded[payloadEnd..];
      var expected := env.md5(payload);
      if expected != checksum {
        return ChecksumMismatch;
      }
      var bitCount := Uint32(payload[|payload| - 4..]);
      var compressed := payload[..|payload| - 4];
      return Body(compressed, bitCount);
    }

    /** Decrypts, checks, decompresses and dispatches a datagram; any failure on the way forwards nothing. */
    method ProcessEncryptedPacket(session: Session, data: seq<byte>) returns (ok: bool)
      requires session.Valid() && CodecReady()
      modifies session`lastClientHeader, session`lastClientPacketID, network`published
      ensures session.Valid()
      ensures session.View() == if |data| < HEADER_SIZE + CHECKSUM_SIZE + 4 then old(session.View())
                                else old(session.View()).(header := data[..HEADER_SIZE], clientID := Uint16(data[0..2]))
      ensures network.published == old(network.published)
              + Gate.ForwardsOfEncrypted(env, TabledNow(), session.clientAddr, session.View(), data)
      ensures ok <==> Receive(env, TabledNow().table, TabledNow().root, session.LinkNow(), data).Text?
    {
      hide Uint16, Uint32, Dispatch, Ciphered, CodecSpec.Decompress, Gate.ForwardAll, SafeTable, NodeInTable,
        SaneLengths;
      ghost var before := network.published;
      assert before + [] == before;
      if |data| < HEADER_SIZE + CHECKSUM_SIZE + 4 {
        return false;
      }
      session.lastClientHeader := data[..HEADER_SIZE];
      session.lastClientPacketID := Uint16(data[0..2]);
      ghost var view, tabled := session.View(), TabledNow();
      var body := OpenPacket(session, data);
      assert Gate.LinkOf(view) == session.LinkNow();
      if !body.Body? {
        return false;
      }
      var decompressed := new byte[MAX_DECOMPRESSED](_ => 0);
      var written, err := codec.Decompress(body.compressed, body.bitCount, decompressed);
      NoRootNoText(codec.jumpTable[..], body.compressed, body.bitCount, MAX_DECOMPRESSED);
      if err != None {
        return false;
      }
      var text := decompressed[..written];
      assert Receive(env, tabled.table, tabled.root, session.LinkNow(), data) == Text(text);
      var count := DispatchSubPackets(session, text);
      return true;
    }

    lemma NoRootNoText(table: JumpTable, input: seq<byte>, bitCount: uint32, room: nat)
      ensures CodecSpec.Decompress(table, None, input, bitCount, room).err.Some?
    {
    }

    /** Acknowledgements only ever move the number forward. */
    method UpdateServerAckFromClient(session: Session, clientAck: uint16)
      modifies session`lastServerPacketID, this`channels
      ensures session.lastServerPacketID == Gate.Acknowledge(old(session.lastServerPacketID), clientAck)
      ensures channels == old(channels)[session.clientAddr := Step(old(Chan(session.clientAddr)), Ack(clientAck))]
    {
      channels := channels[session.clientAddr := Step(Chan(session.clientAddr), Ack(clientAck))];
      var prev := session.lastServerPacketID;
      if clientAck == prev {
        return;
      }
      if clientAck > prev {
        session.lastServerPacketID := clientAck;
        return;
      }
    }

    /** Files a session for the address if the database and the bus allow it. */
    method SessionCreated(addr: string, found: Gate.Lookup)
      requires SessionsValid()
      modifies this`sessions
      ensures SessionsValid()
      ensures old(ChannelsValid()) && addr !in old(sessions) ==> ChannelsValid()
      ensures Gate.NewClient(env, found).None? ==> sessions == old(sessions)
      ensures Gate.NewClient(env, found).Some? ==>
        && addr in sessions && sessions == old(sessions)[addr := sessions[addr]] && fresh(sessions[addr])
        && sessions[addr].View() == Gate.NewClient(env, found).value
    {
      hide KeyTables, KeyOf, KeyHash, Zeros, ChannelsValid, SessionsValid;
      if found.sessionKey == None {
        return;
      }
      var session := Session.NewSession(env, addr, found.sessionKey.value, found.subscribed);
      if session == null {
        return;
      }
      if found.character != None {
        session.character := found.character;
      }
      sessions := sessions[addr := session];
      SessionsAfterLogin(addr);
      if old(ChannelsValid()) && addr !in old(sessions) {
        ChannelsAfterLogin(addr);
      }
    }

    twostate lemma SessionsAfterLogin(addr: string)
      requires old(SessionsValid()) && addr in sessions && sessions == old(sessions)[addr := sessions[addr]]
      requires sessions[addr].Valid() && sessions[addr].clientAddr == addr
      requires forall other :: other in old(sessions) && other != addr ==> unchanged(sessions[other])
      ensures SessionsValid()
    {
    }

    /** A new session has sent nothing, which is what the channel of an address without a session says. */
    twostate lemma ChannelsAfterLogin(addr: string)
      requires old(ChannelsValid()) && addr !in old(sessions)
      requires packetsToSend == old(packetsToSend) && channels == old(channels)
      requires addr in sessions && sessions == old(sessions)[addr := sessions[addr]]
        && sessions[addr].lastServerPacketID == 0
      requires forall other :: other in old(sessions) ==> SameNumber(other)
      ensures ChannelsValid()
    {
      hide Invariant;
      forall other
        ensures ChannelValid(other)
      {
        assert old(ChannelValid(other));
      }
    }

    /** Notes the numbers and the header of a datagram in its session. */
    method NoteDatagram(session: Session, data: seq<byte>)
      requires session.Valid() && |data| >= HEADER_SIZE
      modifies session`lastClientPacketID, session`lastServerPacketID, session`lastClientHeader, this`channels
      ensures session.Valid() && session.View() == Gate.Noted(old(session.View()), data)
      ensures channels == old(channels)[session.clientAddr := AfterAck(old(Chan(session.clientAddr)), data)]
    {
      hide Uint16;
      session.lastClientPacketID := Uint16(data[0..2]);
      UpdateServerAckFromClient(session, Uint16(data[2..4]));
      session.lastClientHeader := data[..HEADER_SIZE];
    }

    twostate predicate SameNumber(addr: string)
      requires addr in sessions && addr in old(sessions)
      reads this, sessions.Values
    {
      sessions[addr].lastServerPacketID == old(sessions[addr].lastServerPacketID)
    }

    /** The channel invariant after one session has noted a datagram. */
    twostate lemma ChannelsAfterNote(note: Noting)
      requires old(ChannelsValid()) && packetsToSend == old(packetsToSend)
      requires note.addr in sessions
      requires sessions.Keys == old(sessions).Keys + {note.addr}
      requires forall other :: other in old(sessions) && other != note.addr ==> sessions[other] == old(sessions)[other]
      requires forall other :: other in old(sessions) && other != note.addr ==> SameNumber(other)
      requires channels == old(channels)[note.addr := Step(old(Chan(note.addr)), Ack(note.ack))]
      requires sessions[note.addr].lastServerPacketID == Gate.Acknowledge(old(Chan(note.addr)).lastID, note.ack)
      ensures ChannelsValid()
    {
      hide Invariant;
      assert old(ChannelValid(note.addr));
      InvariantStep(old(Chan(note.addr)), Ack(note.ack));
      forall other
        ensures ChannelValid(other)
      {
        assert old(ChannelValid(other));
      }
    }

    /** An acknowledgement puts nothing on the wire. */
    twostate lemma WireAfterNote(note: Noting)
      requires old(WireValid()) && network.wire == old(network.wire) && stamps == old(stamps)
      requires codec.encTable == old(codec.encTable)
      requires channels == old(channels)[note.addr := Step(old(Chan(note.addr)), Ack(note.ack))]
      ensures WireValid()
    {
      hide Logs, WireTo, SentOf, Step;
      AckSendsNothing(old(Chan(note.addr)), note.ack);
      forall other
        ensures WireLogged(other)
      {
        assert old(WireLogged(other));
      }
    }

    /** The gate's view after at most one session, at `addr`, was added or changed. */
    twostate lemma GateViewAfter(addr: string)
      requires old(SessionsValid()) && SessionsValid() && addr in sessions
      requires sessions == old(sessions)[addr := sessions[addr]]
      requires addr in old(sessions) ==> sessions[addr] == old(sessions)[addr]
      requires forall other :: other in old(sessions) && other != addr ==>
        sessions[other].View() == old(sessions[other].View())
      ensures GateView() == Gate.State(old(GateView()).clients[addr := sessions[addr].View()], network.published)
    {
      hide Session.View;
      var views := old(GateView()).clients[addr := sessions[addr].View()];
      assert GateView().clients.Keys == views.Keys;
    }

    twostate lemma GateViewSame()
      requires old(SessionsValid()) && SessionsValid() && sessions == old(sessions)
        && network.published == old(network.published)
      requires forall other :: other in sessions ==> sessions[other].View() == old(sessions[other].View())
      ensures GateView() == old(GateView())
    {
      hide Session.View;
      assert GateView().clients.Keys == old(GateView()).clients.Keys;
    }

    /** A datagram for an address with a session. */
    method HandleKnown(session: Session, data: seq<byte>, kind: bv16)
      requires Valid() && session.clientAddr in sessions && sessions[session.clientAddr] == session
      requires |data| >= HEADER_SIZE
      modifies session, this`channels, network`published
      ensures Valid() && session.Valid()
      ensures session.View() == Gate.Noted(old(session.View()), data)
      ensures kind == Gate.LOGIN ==> network.published == old(network.published)
      ensures kind != Gate.LOGIN ==>
        network.published
          == old(network.published)
            + Gate.ForwardsOfEncrypted(env, TabledNow(), session.clientAddr, session.View(), data)
      ensures channels == old(channels)[session.clientAddr := AfterAck(old(Chan(session.clientAddr)), data)]
    {
      hide Uint16, Invariant, Gate.ForwardsOfEncrypted, CodecReady, Step, WireValid;
      assert ChannelValid(session.clientAddr);
      NoteDatagram(session, data);
      if kind != Gate.LOGIN {
        var ok := ProcessEncryptedPacket(session, data);
      }
      ghost var note := Noting(session.clientAddr, Uint16(data[2..4]));
      ChannelsAfterNote(note);
      WireAfterNote(note);
    }

    /** What a login does once its session is filed: it is noted and forwarded as it is. */
    method Welcome(session: Session, data: seq<byte>, kind: bv16, sequence: uint16, payload: seq<byte>)
      requires Valid() && session.clientAddr in sessions && sessions[session.clientAddr] == session
      requires |data| >= HEADER_SIZE
      modifies session, this`channels, network`published
      ensures Valid() && session.Valid()
      ensures session.View() == Gate.Noted(old(session.View()), data)
      ensures network.published
           == old(network.published) + [Gate.Forward(session.clientAddr, session.View(), kind, sequence, payload)]
      ensures channels == old(channels)[session.clientAddr := AfterAck(old(Chan(session.clientAddr)), data)]
    {
      hide Uint16, Invariant, CodecReady, Step, Gate.Forward, WireValid;
      assert ChannelValid(session.clientAddr);
      NoteDatagram(session, data);
      ForwardPacketToInstance(session, kind, sequence, payload);
      ghost var note := Noting(session.clientAddr, Uint16(data[2..4]));
      ChannelsAfterNote(note);
      WireAfterNote(note);
    }

    /** A login packet for an address without a session: creates one if everything agrees, and forwards the login. */
    method HandleLogin(data: seq<byte>, addr: string, directory: uint32 -> Gate.Lookup, kind: bv16, sequence: uint16,
                       payload: seq<byte>)
      returns (ghost admitted: Option<Gate.Client>)
      requires Valid() && addr !in sessions && |data| >= HEADER_SIZE + CHECKSUM_SIZE
      modifies this`sessions, this`channels, network`published
      ensures Valid()
      ensures admitted == match Gate.ParseLogin(env, data)
                          case None => None
                          case Some(uniqueNo) => Gate.NewClient(env, directory(uniqueNo))
      ensures admitted.None? ==>
        sessions == old(sessions) && channels == old(channels) && network.published == old(network.published)
      ensures admitted.Some? ==>
        && addr in sessions && sessions == old(sessions)[addr := sessions[addr]] && fresh(sessions[addr])
        && sessions[addr].Valid() && sessions[addr].View() == Gate.Noted(admitted.value, data)
        && network.published
          == old(network.published) + [Gate.Forward(addr, sessions[addr].View(), kind, sequence, payload)]
        && channels == old(channels)[addr := AfterAck(old(Chan(addr)), data)]
    {
      hide ChannelsValid, WireValid, Gate.ParseLogin, Gate.NewClient, Gate.Forward, Gate.Noted, CodecReady, AfterAck,
        Session.View;
      var login := Gate.ParseLogin(env, data);
      if login == None {
        return None;
      }
      var found := directory(login.value);
      admitted := Gate.NewClient(env, found);
      SessionCreated(addr, found);
      if addr !in sessions {
        return;
      }
      Welcome(sessions[addr], data, kind, sequence, payload);
    }

    /** One datagram from a client, from the size checks to the forwards. */
    method HandleIncomingPacket(length: nat, data: seq<byte>, addr: string, directory: uint32 -> Gate.Lookup)
      requires Valid()
      modifies this`sessions, this`channels, network`published
      modifies if addr in sessions then {sessions[addr]} else {}
      ensures Valid() && packetsToSend == old(packetsToSend)
      ensures GateView() == Gate.Handle(env, TabledNow(), old(GateView()), Gate.Incoming(addr, length, data, directory))
      ensures forall other :: other != addr ==> Chan(other) == old(Chan(other))
      ensures Chan(addr) == old(Chan(addr)) || (|data| >= 4 && Chan(addr) == AfterAck(old(Chan(addr)), data))
    {
      hide HeaderOf, KindOf, UnitsOf, Uint16, Invariant, Gate.ParseLogin, Gate.NewClient, Gate.Forward,
        Gate.ForwardsOfEncrypted, Gate.Noted, CodecReady, AfterAck, ChannelsValid, WireValid;
      ghost var incoming := Gate.Incoming(addr, length, data, directory);
      if length < HEADER_SIZE + CHECKSUM_SIZE {
        return;
      }
      if |data| < HEADER_SIZE + CHECKSUM_SIZE {
        return;
      }
      var head := HeaderOf(data[HEADER_SIZE..HEADER_SIZE + 2]);
      var sync := Uint16(data[HEADER_SIZE + 2..HEADER_SIZE + 4]);
      var packetType := KindOf(head);
      var packetUnits := UnitsOf(head) as int;
      if packetUnits <= 0 {
        return;
      }
      var packetSize := packetUnits * 4;
      var payloadEnd := HEADER_SIZE + packetSize;
      if payloadEnd > |data| - CHECKSUM_SIZE {
        return;
      }
      assert Gate.Acceptable(incoming);
      if addr !in sessions {
        if packetType != Gate.LOGIN {
          return;
        }
        ghost var admitted := HandleLogin(data, addr, directory, packetType, sync, data[HEADER_SIZE..payloadEnd]);
        if addr in sessions {
          GateViewAfter(addr);
        } else {
          GateViewSame();
        }
        return;
      }
      HandleKnown(sessions[addr], data, packetType);
      GateViewAfter(addr);
    }
  }
}
