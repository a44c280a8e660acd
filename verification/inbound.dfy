/**
 The other direction: what a client has to send for the router to forward
 exactly what it meant.  The dispatcher's convention and the receiver's each
 have an exact inverse; but the handler looks at every datagram as if it were
 plain before it deciphers any, and so drops some that were sent correctly.
 */
module Inbound {
  import opened Bytes
  import opened CodecSpec
  import opened CipherSpec
  import opened Framing
  import Gate
  import Router
  import Alphabet

  // ---------------------------------------------------------------- sub-packets in the dispatcher's convention

  /** What the dispatcher's fields can carry: nine bits of type, and an even payload of at most 250 bytes. */
  predicate Dispatchable(sub: Sub) {
    sub.kind < 512 && |sub.data| % 2 == 0 && |sub.data| <= 250
  }

  function ClientSub(sub: Sub): (r: seq<byte>)
    ensures |r| == 4 + |sub.data|
  {
    PutHeader(Header(sub.kind, ByteOf(SizeField(sub)))) + PutUint16(sub.sequence) + sub.data
  }

  function ClientText(subs: seq<Sub>): seq<byte> {
    if subs == [] then [] else ClientSub(subs[0]) + ClientText(subs[1..])
  }

  function SubsIn(pieces: seq<Piece>): (r: seq<Sub>)
    ensures |r| == |pieces|
  {
    seq(|pieces|, i requires 0 <= i < |pieces| => pieces[i].sub)
  }

  predicate AllDispatchable(subs: seq<Sub>) {
    forall i :: 0 <= i < |subs| ==> Dispatchable(subs[i])
  }

  /** The size field of a client's sub-packet, as the dispatcher will read it. */
  function SizeField(sub: Sub): nat {
    (|sub.data| + 4) / 2 % 128
  }

  /** The fields carry a sub-packet unharmed exactly if it is dispatchable. */
  lemma FieldsFit(sub: Sub)
    ensures Dispatchable(sub) <==> sub.kind & 0x1FF == sub.kind && 2 * SizeField(sub) == 4 + |sub.data|
  {
    HeaderFields(sub.kind, 0);
  }

  lemma ClientSubFields(sub: Sub, front: seq<byte>, rest: seq<byte>)
    ensures var data, at := front + ClientSub(sub) + rest, |front|;
            && KindOf(HeaderOf(data[at..at + 2])) == sub.kind & 0x1FF
            && UnitsOf(HeaderOf(data[at..at + 2])) as int == SizeField(sub)
            && Uint16(data[at + 2..at + 4]) == sub.sequence
            && data[at + 4..at + 4 + |sub.data|] == sub.data
  {
    hide Header, PutHeader, HeaderOf, KindOf, UnitsOf, PutUint16, Uint16;
    var data, at := front + ClientSub(sub) + rest, |front|;
    var units := ByteOf(SizeField(sub));
    ClientSubParts(front, PutHeader(Header(sub.kind, units)), PutUint16(sub.sequence), sub.data, rest);
    HeaderRoundTrip(Header(sub.kind, units));
    HeaderFields(sub.kind, units);
    Uint16RoundTrip(sub.sequence);
  }

  lemma ClientSubParts(front: seq<byte>, header: seq<byte>, number: seq<byte>, payload: seq<byte>, rest: seq<byte>)
    requires |header| == 2 && |number| == 2
    ensures var data, at := front + (header + number + payload) + rest, |front|;
            && data[at..at + 2] == header && data[at + 2..at + 4] == number
            && data[at + 4..at + 4 + |payload|] == payload
  {
  }

  /**
   Dispatching a client's text gives back its sub-packets, in order, from
   wherever they start, exactly when the dispatcher's fields can carry each of them.
   */
  lemma {:induction false} DispatchReadsClient(front: seq<byte>, subs: seq<Sub>)
    ensures SubsIn(Dispatch(front + ClientText(subs), |front|)) == subs <==> AllDispatchable(subs)
    decreases |subs|
  {
    hide PutUint16, Uint16, ClientSub, Dispatch, SubsIn, Dispatchable;
    var data := front + ClientText(subs);
    if subs == [] {
      NothingToDispatch(data);
    } else {
      var sub, rest := subs[0], ClientText(subs[1..]);
      Associative(front, ClientSub(sub), rest);
      DispatchReadsClient(front + ClientSub(sub), subs[1..]);
      DispatchFront(front, sub, rest, subs[1..]);
      assert subs == [sub] + subs[1..];
    }
  }

  lemma NothingToDispatch(data: seq<byte>)
    ensures SubsIn(Dispatch(data, |data|)) == []
  {
  }

  /** A sub-packet in front is recovered exactly if it is dispatchable, and the rest independently of it. */
  lemma DispatchFront(front: seq<byte>, sub: Sub, rest: seq<byte>, subs: seq<Sub>)
    ensures var data, at := front + ClientSub(sub) + rest, |front|;
            SubsIn(Dispatch(data, at)) == [sub] + subs
            <==> Dispatchable(sub) && SubsIn(Dispatch(data, at + 4 + |sub.data|)) == subs
  {
    hide HeaderOf, KindOf, UnitsOf, Uint16, ClientSub, Dispatch, Dispatchable, SizeField, SubsIn;
    var data, at := front + ClientSub(sub) + rest, |front|;
    ClientSubFields(sub, front, rest);
    FieldsFit(sub);
    var size := 2 * SizeField(sub);
    FirstDispatched(data, at, sub.kind & 0x1FF, size, sub.sequence);
    var tail := if 4 <= size && at + size <= |data| then SubsIn(Dispatch(data, at + size)) else [];
    FrontDecides(data, at, sub, sub.kind & 0x1FF, size, SubsIn(Dispatch(data, at)), tail, subs);
  }

  /** Where the fields read `kind` and `size`, the sub-packet found is the one meant exactly if both are its own. */
  lemma FrontDecides(data: seq<byte>, at: nat, sub: Sub, kind: bv16, size: nat, got: seq<Sub>, tail: seq<Sub>,
                     subs: seq<Sub>)
    requires at + 4 + |sub.data| <= |data| && data[at + 4..at + 4 + |sub.data|] == sub.data
    requires if size < 4 || at + size > |data| then got == []
             else got == [Sub(kind, sub.sequence, data[at + 4..at + size])] + tail
    ensures got == [sub] + subs <==> kind == sub.kind && size == 4 + |sub.data| && tail == subs
  {
    if size >= 4 && at + size <= |data| {
      SameInFront(Sub(kind, sub.sequence, data[at + 4..at + size]), tail, sub, subs);
      assert |data[at + 4..at + size]| == size - 4;
    }
  }

  lemma SameInFront<T>(x: T, a: seq<T>, y: T, b: seq<T>)
    ensures [x] + a == [y] + b <==> x == y && a == b
  {
    assert ([x] + a)[0] == x && ([x] + a)[1..] == a;
    assert ([y] + b)[0] == y && ([y] + b)[1..] == b;
  }

  /** What the dispatcher finds where it reads these fields: nothing, or a sub-packet and what it finds behind it. */
  lemma FirstDispatched(data: seq<byte>, at: nat, kind: bv16, size: nat, sequence: uint16)
    requires at + 4 <= |data| && KindOf(HeaderOf(data[at..at + 2])) == kind
    requires UnitsOf(HeaderOf(data[at..at + 2])) as int * 2 == size && Uint16(data[at + 2..at + 4]) == sequence
    ensures SubsIn(Dispatch(data, at)) ==
            if size < 4 || at + size > |data| then []
            else [Sub(kind, sequence, data[at + 4..at + size])] + SubsIn(Dispatch(data, at + size))
  {
    hide HeaderOf, KindOf, UnitsOf, Uint16, Dispatch, SubsIn;
    DispatchStep(data, at);
    if size >= 4 && at + size <= |data| {
      SubsInNext(Dispatch(data, at), Dispatch(data, at + size));
    } else {
      assert Dispatch(data, at) == [];
      NoSubs();
    }
  }

  lemma NoSubs()
    ensures SubsIn([]) == []
  {
  }

  lemma SubsInNext(pieces: seq<Piece>, rest: seq<Piece>)
    requires pieces != [] && pieces == [pieces[0]] + rest
    ensures SubsIn(pieces) == [pieces[0].sub] + SubsIn(rest)
  {
  }

  lemma DispatchFromStart(subs: seq<Sub>)
    requires AllDispatchable(subs)
    ensures SubsIn(Dispatch(ClientText(subs), 0)) == subs
  {
    hide ClientText, Dispatch, SubsIn, Dispatchable;
    DispatchReadsClient([], subs);
    assert [] + ClientText(subs) == ClientText(subs);
  }

  // ---------------------------------------------------------------- datagrams in the receiver's convention

  /** A client's datagram: the count declares data bits only. */
  function ClientDatagram(env: Env, enc: EncodeTable, link: Link, header: seq<byte>, text: seq<byte>): seq<byte>
    requires |header| == HEADER_SIZE && 2 * |text| + 64 <= MAX_BUFFER
      && TakesNormalPath(enc, text, Zeros(2 * |text| + 64))
  {
    var before := Zeros(2 * |text| + 64);
    NormalImage(enc, text, before);
    var chunk := Trimmed(enc, text, before) + PutUint32(CompressInto(enc, text, before).bits - 8);
    Ciphered(Encrypting, link, header + (chunk + env.md5(chunk)))
  }

  /** The router reads such a datagram back exactly, up to the size of its buffer. */
  lemma ReceiveFromClient(env: Env, enc: EncodeTable, table: JumpTable, root: nat, link: Link, header: seq<byte>,
                          text: seq<byte>)
    requires |header| == HEADER_SIZE && text != [] && 2 * |text| + 64 <= MAX_BUFFER
    requires TakesNormalPath(enc, text, Zeros(2 * |text| + 64)) && AgreesOn(enc, table, root, text)
    ensures Receive(env, table, Some(root), link, ClientDatagram(env, enc, link, header, text))
         == Text(if |text| > 4096 then text[..4096] else text)
  {
    hide CompressInto, Trimmed, Ciphered, CipherPacket, PutUint32, Uint32, Decompress, CodeString, Code, Reaches;
    var before := Zeros(2 * |text| + 64);
    NormalImage(enc, text, before);
    TrimmedIsPrefix(enc, text, before);
    AgreementHasCodes(enc, table, root, text);
    UnwrapClient(env, enc, link, header, text);
    var bits := CompressInto(enc, text, before).bits;
    RoundTrip(enc, table, root, text, before, BytesFor(bits), bits - 8, MAX_DECOMPRESSED);
  }

  lemma UnwrapClient(env: Env, enc: EncodeTable, link: Link, header: seq<byte>, text: seq<byte>)
    requires |header| == HEADER_SIZE && 2 * |text| + 64 <= MAX_BUFFER
    requires TakesNormalPath(enc, text, Zeros(2 * |text| + 64))
    ensures var before := Zeros(2 * |text| + 64);
            && CompressInto(enc, text, before).bits >= 8
            && Unwrap(env, link, ClientDatagram(env, enc, link, header, text))
               == Body(Trimmed(enc, text, before), CompressInto(enc, text, before).bits - 8)
  {
    hide CompressInto, Trimmed, Ciphered, TakeApart, PutUint32, CodeString;
    var before := Zeros(2 * |text| + 64);
    NormalImage(enc, text, before);
    TrimmedLength(enc, text, before);
    var image, bits := Trimmed(enc, text, before), CompressInto(enc, text, before).bits;
    var chunk := image + PutUint32(bits - 8);
    TakeApartSigned(env, header, image, bits - 8);
    CipheredInverse(link, header + (chunk + env.md5(chunk)));
  }

  /** The sub-packets as the map instance is to see them: in the client's name and order, with their own fields. */
  function ForwardedFor(addr: string, c: Gate.Client, subs: seq<Sub>): (r: seq<Routed>)
    ensures |r| == |subs|
  {
    var characterID := if c.character.Some? then c.character.value else 0;
    seq(|subs|, i requires 0 <= i < |subs| =>
      Routed(addr, characterID, Packet(subs[i].kind, |subs[i].data| % 0x1_0000, subs[i].sequence, subs[i].data)))
  }

  /** `r` carries this sub-packet of the client's, field by field. */
  predicate Meant(r: Routed, addr: string, c: Gate.Client, sub: Sub) {
    && r.clientAddr == addr && r.characterID == (if c.character.Some? then c.character.value else 0)
    && r.packet.kind == sub.kind && r.packet.sequence == sub.sequence
    && r.packet.data == sub.data && r.packet.size == |sub.data|
  }

  /** `after` continues `before` with the client's sub-packets, one for one and in order. */
  ghost predicate Continues(before: seq<Routed>, after: seq<Routed>, addr: string, c: Gate.Client, subs: seq<Sub>) {
    && |after| == |before| + |subs| && before <= after
    && forall i :: 0 <= i < |subs| ==> Meant(after[|before| + i], addr, c, subs[i])
  }

  lemma ForwardedContinues(before: seq<Routed>, addr: string, c: Gate.Client, subs: seq<Sub>)
    requires AllDispatchable(subs)
    ensures Continues(before, before + ForwardedFor(addr, c, subs), addr, c, subs)
  {
    forall i | 0 <= i < |subs|
      ensures Meant((before + ForwardedFor(addr, c, subs))[|before| + i], addr, c, subs[i])
    {
      assert Dispatchable(subs[i]);
    }
  }

  /** Behind the handler's checks: exactly the client's sub-packets are forwarded, in order, in the session's name. */
  lemma ForwardedAsMeant(env: Env, enc: EncodeTable, codec: Gate.Tabled, addr: string, c: Gate.Client,
                         header: seq<byte>, subs: seq<Sub>, text: seq<byte>)
    requires |header| == HEADER_SIZE && subs != [] && codec.root.Some? && text == ClientText(subs)
    requires AllDispatchable(subs)
    requires |text| <= MAX_DECOMPRESSED && TakesNormalPath(enc, text, Zeros(2 * |text| + 64))
    requires AgreesOn(enc, codec.table, codec.root.value, text)
    ensures var forwarded := Gate.ForwardsOfEncrypted(env, codec, addr, c,
                                                      ClientDatagram(env, enc, Gate.LinkOf(c), header, text));
            forwarded == ForwardedFor(addr, c, subs)
  {
    hide ForwardedFor, ClientText, ClientDatagram, Receive, Dispatch, AgreesOn, TakesNormalPath, SubsIn, Dispatchable,
      Gate.ForwardAll, Gate.ForwardsOfEncrypted, Zeros;
    TextIsNotEmpty(subs);
    ReceiveFromClient(env, enc, codec.table, codec.root.value, Gate.LinkOf(c), header, text);
    DispatchFromStart(subs);
    ForwardsOfText(env, codec, addr, c, ClientDatagram(env, enc, Gate.LinkOf(c), header, text), text);
    ForwardedSubs(addr, c, Dispatch(text, 0));
  }

  lemma TextIsNotEmpty(subs: seq<Sub>)
    requires subs != []
    ensures ClientText(subs) != []
  {
    hide ClientSub;
  }

  lemma ForwardsOfText(env: Env, codec: Gate.Tabled, addr: string, c: Gate.Client, data: seq<byte>, text: seq<byte>)
    requires Receive(env, codec.table, codec.root, Gate.LinkOf(c), data) == Text(text)
    ensures Gate.ForwardsOfEncrypted(env, codec, addr, c, data) == Gate.ForwardAll(addr, c, Dispatch(text, 0))
  {
    hide Receive, Dispatch, Gate.ForwardAll;
  }

  lemma ForwardedSubs(addr: string, c: Gate.Client, pieces: seq<Piece>)
    ensures Gate.ForwardAll(addr, c, pieces) == ForwardedFor(addr, c, SubsIn(pieces))
  {
  }

  // ---------------------------------------------------------------- behind the gate

  /**
   What the handler asks of a datagram before it looks behind the cipher: a size
   at byte 29 that fits, and not the login type.  Once there is a session these
   bytes are ciphertext.
   */
  predicate PassesGate(length: nat, data: seq<byte>) {
    && length >= 44 && |data| >= 44
    && var units := Gate.Number(data[29] >> 1);
       units > 0 && 44 + 4 * units <= |data| && !(data[28] == 0x0A && data[29] & 1 == 0)
  }

  /** A client of the state, and the datagram it sends for some sub-packets the router can carry. */
  ghost predicate SentByClient(env: Env, enc: EncodeTable, codec: Gate.Tabled, c: Gate.Client, header: seq<byte>,
                               subs: seq<Sub>, data: seq<byte>)
  {
    var text := ClientText(subs);
    && |header| == HEADER_SIZE && subs != [] && AllDispatchable(subs) && codec.root.Some?
    && |text| <= MAX_DECOMPRESSED && TakesNormalPath(enc, text, Zeros(2 * |text| + 64))
    && AgreesOn(enc, codec.table, codec.root.value, text)
    && data == ClientDatagram(env, enc, Gate.LinkOf(c), header, text)
  }

  /** There are such datagrams: with the plain tables, for every list of sub-packets the dispatcher can carry. */
  lemma ClientsCanSend(env: Env, c: Gate.Client, header: seq<byte>, subs: seq<Sub>)
    requires |header| == HEADER_SIZE && subs != [] && AllDispatchable(subs) && |ClientText(subs)| <= MAX_DECOMPRESSED
    ensures var enc, codec, text := Alphabet.PlainCodes(), Gate.Tabled(Alphabet.PlainTree(), Some(1)), ClientText(subs);
            && TakesNormalPath(enc, text, Zeros(2 * |text| + 64))
            && SentByClient(env, enc, codec, c, header, subs, ClientDatagram(env, enc, Gate.LinkOf(c), header, text))
  {
    hide ClientText, ClientDatagram, AllDispatchable, Alphabet.PlainCodes, Alphabet.PlainTree, Code, Reaches,
      TakesNormalPath;
    Alphabet.PlainTablesAgree();
    var enc, text := Alphabet.PlainCodes(), ClientText(subs);
    forall i | 0 <= i < |text|
      ensures Agrees(enc, Alphabet.PlainTree(), 1, text[i]) && CodeLength(enc, text[i]) <= 16
    {
    }
    RouterBufferSuffices(enc, text, Zeros(2 * |text| + 64));
  }

  /**
   Inbound end to end, from the handler on: a client's sub-packets are forwarded
   exactly if the ciphertext happens to pass the handler's look at it as an inner
   header; otherwise nothing is forwarded.
   */
  lemma ForwardedExactly(env: Env, enc: EncodeTable, codec: Gate.Tabled, s: Gate.State, incoming: Gate.Incoming,
                         header: seq<byte>, subs: seq<Sub>)
    requires incoming.addr in s.clients
    requires SentByClient(env, enc, codec, s.clients[incoming.addr], header, subs, incoming.data)
    ensures var c := s.clients[incoming.addr];
            var after, wanted := Gate.Handle(env, codec, s, incoming).forwards, ForwardedFor(incoming.addr, c, subs);
            && (after == s.forwards + wanted <==> PassesGate(incoming.length, incoming.data))
            && (Continues(s.forwards, after, incoming.addr, c, subs) <==> PassesGate(incoming.length, incoming.data))
            && (after == s.forwards <==> !PassesGate(incoming.length, incoming.data))
  {
    hide Gate.Handle, PassesGate, ClientText, AgreesOn, TakesNormalPath, AllDispatchable, ForwardedFor, Zeros,
      ClientDatagram, Gate.ForwardsOfEncrypted;
    var addr, data := incoming.addr, incoming.data;
    var c := s.clients[addr];
    HandleKnownClient(env, codec, s, incoming);
    SomethingWanted(s.forwards, addr, c, subs);
    ForwardedContinues(s.forwards, addr, c, subs);
    if PassesGate(incoming.length, data) {
      KnownClientForwarded(env, enc, codec, addr, c, header, subs, data);
    }
  }

  lemma HandleKnownClient(env: Env, codec: Gate.Tabled, s: Gate.State, incoming: Gate.Incoming)
    requires incoming.addr in s.clients
    ensures PassesGate(incoming.length, incoming.data) ==> |incoming.data| >= HEADER_SIZE
    ensures Gate.Handle(env, codec, s, incoming).forwards ==
            if !PassesGate(incoming.length, incoming.data) then s.forwards
            else s.forwards + Gate.ForwardsOfEncrypted(env, codec, incoming.addr,
                                                       Gate.Noted(s.clients[incoming.addr], incoming.data),
                                                         incoming.data)
  {
    hide HeaderOf, KindOf, UnitsOf, Gate.ForwardsOfEncrypted, Gate.Admitted, Uint16, Gate.HoldsInner, Gate.Number;
    Gate.InnerHeaderBytes(incoming.data);
    assert s.forwards + [] == s.forwards;
  }

  lemma KnownClientForwarded(env: Env, enc: EncodeTable, codec: Gate.Tabled, addr: string, c: Gate.Client,
                             header: seq<byte>, subs: seq<Sub>, data: seq<byte>)
    requires SentByClient(env, enc, codec, c, header, subs, data) && |data| >= HEADER_SIZE
    ensures Gate.ForwardsOfEncrypted(env, codec, addr, Gate.Noted(c, data), data) == ForwardedFor(addr, c, subs)
  {
    hide ClientText, AgreesOn, TakesNormalPath, AllDispatchable, ForwardedFor, Zeros, ClientDatagram,
      Gate.ForwardsOfEncrypted, Uint16;
    var noted := Gate.Noted(c, data);
    SameCipherSameDatagram(env, enc, Gate.LinkOf(c), Gate.LinkOf(noted), header, ClientText(subs));
    ForwardedAsMeant(env, enc, codec, addr, noted, header, subs, ClientText(subs));
    NotedKeepsName(addr, c, data, subs);
  }

  lemma SameCipherSameDatagram(env: Env, enc: EncodeTable, a: Link, b: Link, header: seq<byte>, text: seq<byte>)
    requires |header| == HEADER_SIZE && 2 * |text| + 64 <= MAX_BUFFER
      && TakesNormalPath(enc, text, Zeros(2 * |text| + 64))
    requires a.cipher == b.cipher
    ensures ClientDatagram(env, enc, a, header, text) == ClientDatagram(env, enc, b, header, text)
  {
    hide CompressInto, Trimmed, CipherPacket, TakesNormalPath;
  }

  lemma NotedKeepsName(addr: string, c: Gate.Client, data: seq<byte>, subs: seq<Sub>)
    requires |data| >= HEADER_SIZE
    ensures ForwardedFor(addr, Gate.Noted(c, data), subs) == ForwardedFor(addr, c, subs)
  {
    hide Uint16;
  }

  lemma SomethingWanted(before: seq<Routed>, addr: string, c: Gate.Client, subs: seq<Sub>)
    requires subs != []
    ensures before + ForwardedFor(addr, c, subs) != before
    ensures before + [] == before
  {
    hide Gate.Forward;
    assert |before + ForwardedFor(addr, c, subs)| == |before| + |subs|;
  }

  /** The client with other tables. */
  function Keyed(c: Gate.Client, t: Tables): Gate.Client {
    c.(cipher := Some(t))
  }

  /** The first word behind the header of a client's datagram, which the handler reads as an inner header. */
  lemma DatagramAtWill(env: Env, enc: EncodeTable, c: Gate.Client, t: Tables, header: seq<byte>, text: seq<byte>,
                       w: word)
    returns (last: word)
    requires |header| == HEADER_SIZE && 2 * |text| + 64 <= MAX_BUFFER
      && TakesNormalPath(enc, text, Zeros(2 * |text| + 64))
    ensures var data := ClientDatagram(env, enc, Gate.LinkOf(Keyed(c, WithLast(t, last))), header, text);
            |data| >= HEADER_SIZE + 5 + CHECKSUM_SIZE && data[HEADER_SIZE..HEADER_SIZE + 4] == PutWord(w)
  {
    hide CompressInto, Trimmed, CipherPacket, TakesNormalPath, PutWord, PutUint32, WithLast;
    var before := Zeros(2 * |text| + 64);
    NormalImage(enc, text, before);
    TrimmedLength(enc, text, before);
    var chunk := Trimmed(enc, text, before) + PutUint32(CompressInto(enc, text, before).bits - 8);
    last := PacketAtWill(t, header + (chunk + env.md5(chunk)), HEADER_SIZE, w);
  }

  /** What the handler makes of three first words: no packet at all, a login, and a packet of another type. */
  lemma FirstWordDecides(data: seq<byte>, length: nat)
    requires |data| >= HEADER_SIZE + 5 + CHECKSUM_SIZE
    ensures data[HEADER_SIZE..HEADER_SIZE + 4] == PutWord(0) ==> !Gate.HoldsInner(data)
    ensures data[HEADER_SIZE..HEADER_SIZE + 4] == PutWord(0x020A) ==> Gate.HoldsInner(data) && !PassesGate(length, data)
    ensures data[HEADER_SIZE..HEADER_SIZE + 4] == PutWord(0x0215) && length >= HEADER_SIZE + CHECKSUM_SIZE ==>
      PassesGate(length, data)
  {
    hide Gate.HoldsInner;
    Gate.InnerHeaderBytes(data);
    assert data[HEADER_SIZE..HEADER_SIZE + 4][0] == data[28] && data[HEADER_SIZE..HEADER_SIZE + 4][1] == data[29];
    assert PutWord(0)[1] == 0 && PutWord(0x020A)[..2] == [0x0A, 0x02] && PutWord(0x0215)[..2] == [0x15, 0x02];
    assert PutWord(0x020A)[0] == 0x0A && PutWord(0x0215)[0] == 0x15;
  }

  /**
   The inputs on which the handler fails its clients: whatever a client sends,
   and whatever its tables but for the last word of P, there is a value of that
   word for which the datagram is dropped as malformed, one for which it is
   swallowed as a repeated login, and one for which it gets through.
   */
  lemma CipherDecides(env: Env, enc: EncodeTable, c: Gate.Client, t: Tables, header: seq<byte>, text: seq<byte>,
                      length: nat)
    returns (dropped: word, swallowed: word, lucky: word)
    requires length >= HEADER_SIZE + CHECKSUM_SIZE
    requires |header| == HEADER_SIZE && 2 * |text| + 64 <= MAX_BUFFER
      && TakesNormalPath(enc, text, Zeros(2 * |text| + 64))
    ensures !Gate.HoldsInner(ClientDatagram(env, enc, Gate.LinkOf(Keyed(c, WithLast(t, dropped))), header, text))
    ensures var data := ClientDatagram(env, enc, Gate.LinkOf(Keyed(c, WithLast(t, swallowed))), header, text);
            Gate.HoldsInner(data) && !PassesGate(length, data)
    ensures PassesGate(length, ClientDatagram(env, enc, Gate.LinkOf(Keyed(c, WithLast(t, lucky))), header, text))
  {
    hide ClientDatagram, TakesNormalPath, PassesGate, Gate.HoldsInner, PutWord, Zeros, WithLast;
    dropped := DatagramAtWill(env, enc, c, t, header, text, 0);
    FirstWordDecides(ClientDatagram(env, enc, Gate.LinkOf(Keyed(c, WithLast(t, dropped))), header, text), length);
    swallowed := DatagramAtWill(env, enc, c, t, header, text, 0x020A);
    FirstWordDecides(ClientDatagram(env, enc, Gate.LinkOf(Keyed(c, WithLast(t, swallowed))), header, text), length);
    lucky := DatagramAtWill(env, enc, c, t, header, text, 0x0215);
    FirstWordDecides(ClientDatagram(env, enc, Gate.LinkOf(Keyed(c, WithLast(t, lucky))), header, text), length);
  }

  /** So every text has tables under which the handler forwards none of it. */
  lemma SomeClientIsFailed(env: Env, enc: EncodeTable, codec: Gate.Tabled, s: Gate.State, addr: string, c: Gate.Client,
                           t: Tables, header: seq<byte>, text: seq<byte>, length: nat, directory: uint32 -> Gate.Lookup)
    returns (last: word)
    requires length >= HEADER_SIZE + CHECKSUM_SIZE
    requires |header| == HEADER_SIZE && 2 * |text| + 64 <= MAX_BUFFER
      && TakesNormalPath(enc, text, Zeros(2 * |text| + 64))
    ensures var failed := Keyed(c, WithLast(t, last));
            var data := ClientDatagram(env, enc, Gate.LinkOf(failed), header, text);
            var before := Gate.State(s.clients[addr := failed], s.forwards);
            Gate.Handle(env, codec, before, Gate.Incoming(addr, length, data, directory)).forwards == s.forwards
  {
    hide ClientDatagram, TakesNormalPath, Gate.HoldsInner, Zeros, WithLast, Gate.Handle, Gate.Number, KindOf, UnitsOf,
      HeaderOf;
    var swallowed, lucky;
    last, swallowed, lucky := CipherDecides(env, enc, c, t, header, text, length);
    var failed := Keyed(c, WithLast(t, last));
    var data := ClientDatagram(env, enc, Gate.LinkOf(failed), header, text);
    var before := Gate.State(s.clients[addr := failed], s.forwards);
    Gate.InnerHeaderBytes(data);
    HandleKnownClient(env, codec, before, Gate.Incoming(addr, length, data, directory));
  }

  /** A client's datagram handed to the router itself. */
  method HandleClientDatagram(server: Router.MapRouterServer, length: nat, data: seq<byte>, addr: string,
                              directory: uint32 -> Gate.Lookup, ghost enc: EncodeTable, ghost header: seq<byte>,
                                ghost subs: seq<Sub>)
    requires server.Valid() && addr in server.sessions
    requires SentByClient(server.env, enc, server.TabledNow(), server.sessions[addr].View(), header, subs, data)
    modifies server`sessions, server`channels, server.network`published, server.sessions[addr]
    ensures server.Valid()
    ensures var before, c := old(server.network.published), old(server.sessions[addr].View());
            && (Continues(before, server.network.published, addr, c, subs) <==> PassesGate(length, data))
            && (server.network.published == before <==> !PassesGate(length, data))
  {
    hide SentByClient, PassesGate, ForwardedFor, Continues, Gate.Handle, Router.Session.View;
    ghost var view, tabled := server.GateView(), server.TabledNow();
    ForwardedExactly(server.env, enc, tabled, view, Gate.Incoming(addr, length, data, directory), header, subs);
    server.HandleIncomingPacket(length, data, addr, directory);
  }
}
