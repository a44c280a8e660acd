/**
 The wire format: sub-packets packed into a payload, a payload wrapped into a
 datagram, the inverse of both, and the splitter that the router applies to
 what clients send.
 */
module Framing {
  import opened Bytes
  import opened CodecSpec
  import opened CipherSpec
  import opened Packing

  const HEADER_SIZE := 0x1C
  const CHECKSUM_SIZE := 16
  const MAX_DECOMPRESSED := 4096

  datatype Packet = Packet(kind: bv16, size: uint16, sequence: uint16, data: seq<byte>)
  datatype Routed = Routed(clientAddr: string, characterID: uint32, packet: Packet)

  // ---------------------------------------------------------------- sub-packets

  /** `(n + 3) & ^3`. */
  function Aligned(n: nat): (r: nat)
    ensures r % 4 == 0 && n <= r < n + 4
  {
    (n + 3) / 4 * 4
  }

  function SubLength(routed: Routed): nat {
    4 + Aligned(|routed.packet.data|)
  }

  function Lengths(packets: seq<Routed>): (lens: seq<nat>)
    ensures |lens| == |packets|
    ensures forall i :: 0 <= i < |packets| ==> lens[i] == SubLength(packets[i])
  {
    seq(|packets|, i requires 0 <= i < |packets| => SubLength(packets[i]))
  }

  /** Nine bits of packet type below seven bits of size. */
  function Header(kind: bv16, units: byte): bv16 {
    (kind & 0x1FF) | ((units as bv16) << 9)
  }

  function PutHeader(h: bv16): (s: seq<byte>)
    ensures |s| == 2
  {
    [(h & 0xFF) as byte, ((h >> 8) & 0xFF) as byte]
  }

  function HeaderOf(s: seq<byte>): bv16
    requires |s| == 2
  {
    (s[0] as bv16) | ((s[1] as bv16) << 8)
  }

  function KindOf(h: bv16): bv16 {
    h & 0x1FF
  }

  function UnitsOf(h: bv16): byte {
    (h >> 9) as byte
  }

  lemma HeaderRoundTrip(h: bv16)
    ensures HeaderOf(PutHeader(h)) == h
  {
  }

  /** On the wire: the low eight bits of the type, then its ninth bit below the seven bits of the size. */
  lemma HeaderBytes(kind: bv16, units: byte, s: seq<byte>)
    requires |s| == 2
    ensures PutHeader(Header(kind, units)) == [(kind & 0xFF) as byte, (((kind >> 8) & 1) as byte) | (units << 1)]
    ensures KindOf(HeaderOf(s)) == (s[0] as bv16) | (((s[1] & 1) as bv16) << 8)
    ensures UnitsOf(HeaderOf(s)) == s[1] >> 1
  {
  }

  lemma HeaderFields(kind: bv16, units: byte)
    requires units as int < 128
    ensures KindOf(Header(kind, units)) == kind & 0x1FF
    ensures UnitsOf(Header(kind, units)) == units
    ensures kind & 0x1FF == kind <==> kind < 512
  {
    assert units & 0x80 == 0;
  }

  function Units(routed: Routed): nat {
    Aligned(|routed.packet.data|) / 4 % 128
  }

  function Padding(routed: Routed): seq<byte> {
    Zeros(Aligned(|routed.packet.data|) - |routed.packet.data|)
  }

  /** The data, filled up with zeros to a multiple of four bytes. */
  function Padded(routed: Routed): (r: seq<byte>)
    ensures |r| == Aligned(|routed.packet.data|) && |r| % 4 == 0 && |r| < |routed.packet.data| + 4
    ensures routed.packet.data <= r
    ensures forall i :: |routed.packet.data| <= i < |r| ==> r[i] == 0
  {
    routed.packet.data + Padding(routed)
  }

  function SubPacket(routed: Routed, sequence: uint16): (r: seq<byte>)
    ensures |r| == SubLength(routed)
  {
    PutHeader(Header(routed.packet.kind, ByteOf(Units(routed)))) + PutUint16(sequence) + routed.packet.data
      + Padding(routed)
  }

  function Payload(packets: seq<Routed>, sequence: uint16): seq<byte> {
    if packets == [] then [] else SubPacket(packets[0], sequence) + Payload(packets[1..], sequence)
  }

  lemma Associative<T>(a: seq<T>, b: seq<T>, c: seq<T>)
    ensures a + (b + c) == a + b + c
  {
  }

  lemma {:induction false} PayloadConcat(a: seq<Routed>, b: seq<Routed>, sequence: uint16)
    ensures Payload(a + b, sequence) == Payload(a, sequence) + Payload(b, sequence)
  {
    hide SubPacket;
    if a == [] {
      assert a + b == b;
    } else {
      PayloadConcat(a[1..], b, sequence);
      assert (a + b)[0] == a[0] && (a + b)[1..] == a[1..] + b;
      Associative(SubPacket(a[0], sequence), Payload(a[1..], sequence), Payload(b, sequence));
    }
  }

  lemma {:induction false} PayloadLength(packets: seq<Routed>, sequence: uint16)
    ensures |Payload(packets, sequence)| == Sum(Lengths(packets))
  {
    hide SubPacket;
    if packets != [] {
      PayloadLength(packets[1..], sequence);
      assert Lengths(packets)[1..] == Lengths(packets[1..]);
    }
  }

  // ---------------------------------------------------------------- the writer's convention

  datatype Sub = Sub(kind: bv16, sequence: uint16, data: seq<byte>)

  /** Reads a payload the way it was written: the size field counts four-byte units behind the header. */
  function Split(b: seq<byte>): Option<seq<Sub>> {
    if b == [] then Some([])
    else if |b| < 4 then None
    else
      var h := HeaderOf(b[..2]);
      var len := 4 * (UnitsOf(h) as int);
      if 4 + len > |b| then None
      else
        match Split(b[4 + len..])
        case None => None
        case Some(rest) => Some([Sub(KindOf(h), Uint16(b[2..4]), b[4..4 + len])] + rest)
  }

  /** The packets that the size and type fields can carry. */
  predicate Representable(routed: Routed) {
    routed.packet.kind < 512 && |routed.packet.data| <= 508
  }

  function SubOf(routed: Routed, sequence: uint16): Sub {
    Sub(routed.packet.kind, sequence, Padded(routed))
  }

  function SubsOf(packets: seq<Routed>, sequence: uint16): (r: seq<Sub>)
    ensures |r| == |packets|
  {
    seq(|packets|, i requires 0 <= i < |packets| => SubOf(packets[i], sequence))
  }

  /** What `Split` finds at the front of a written sub-packet, whether representable or not. */
  lemma SubPacketFields(routed: Routed, sequence: uint16, rest: seq<byte>)
    ensures var b := SubPacket(routed, sequence) + rest;
            && HeaderOf(b[..2]) == Header(routed.packet.kind, ByteOf(Units(routed)))
            && KindOf(HeaderOf(b[..2])) == routed.packet.kind & 0x1FF
            && UnitsOf(HeaderOf(b[..2])) as int == Units(routed)
            && Uint16(b[2..4]) == sequence
            && b[4..SubLength(routed)] == Padded(routed)
            && b[SubLength(routed)..] == rest
  {
    hide Header, PutHeader, HeaderOf, KindOf, UnitsOf, PutUint16, Uint16;
    var b := SubPacket(routed, sequence) + rest;
    var h := Header(routed.packet.kind, ByteOf(Units(routed)));
    assert b[..2] == PutHeader(h);
    HeaderRoundTrip(h);
    HeaderFields(routed.packet.kind, ByteOf(Units(routed)));
    assert b[2..4] == PutUint16(sequence);
    Uint16RoundTrip(sequence);
    assert b == PutHeader(h) + PutUint16(sequence) + Padded(routed) + rest;
  }

  /** `Split` at the front of a written sub-packet. */
  lemma SplitSubPacket(routed: Routed, sequence: uint16, rest: seq<byte>)
    ensures var b, len := SubPacket(routed, sequence) + rest, 4 * Units(routed);
            && 4 + len <= |b|
              && (4 + len == SubLength(routed) ==> b[4 + len..] == rest && b[4..4 + len] == Padded(routed))
            && Split(b) == match Split(b[4 + len..])
                           case None => None
                           case Some(subs) => Some([Sub(routed.packet.kind & 0x1FF, sequence, b[4..4 + len])] + subs)
  {
    hide SubPacket, Header, HeaderOf, KindOf, UnitsOf, Uint16, Padded;
    SubPacketFields(routed, sequence, rest);
    assert Units(routed) <= Aligned(|routed.packet.data|) / 4;
  }

  lemma SubsOfNext(packets: seq<Routed>, sequence: uint16)
    requires packets != []
    ensures SubsOf(packets, sequence) == [SubOf(packets[0], sequence)] + SubsOf(packets[1..], sequence)
  {
    hide SubOf;
  }

  predicate AllRepresentable(packets: seq<Routed>) {
    forall i :: 0 <= i < |packets| ==> Representable(packets[i])
  }

  /**
   Splitting recovers every packet of a payload, type, sequence and zero-padded
   data, in order, exactly when the fields can carry each of them.
   */
  lemma {:induction false} SplitPayload(packets: seq<Routed>, sequence: uint16)
    ensures Split(Payload(packets, sequence)) == Some(SubsOf(packets, sequence)) <==> AllRepresentable(packets)
  {
    hide SubPacket, Split, SubsOf, SubOf, Representable;
    if packets == [] {
      NothingToSplit(sequence);
      assert packets == [];
    } else {
      SubsOfNext(packets, sequence);
      SplitFront(packets[0], sequence, Payload(packets[1..], sequence), SubsOf(packets[1..], sequence));
      SplitPayload(packets[1..], sequence);
      assert packets == [packets[0]] + packets[1..];
    }
  }

  /** A sub-packet at the front is recovered exactly if it is representable, and the rest independently of it. */
  lemma SplitFront(routed: Routed, sequence: uint16, rest: seq<byte>, subs: seq<Sub>)
    ensures Split(SubPacket(routed, sequence) + rest) == Some([SubOf(routed, sequence)] + subs)
       <==> Representable(routed) && Split(rest) == Some(subs)
  {
    hide SubPacket, Split, SubOf, Representable, Padded;
    SplitSubPacket(routed, sequence, rest);
    FieldsCarry(routed, sequence);
    var got, want := Split(SubPacket(routed, sequence) + rest), [SubOf(routed, sequence)] + subs;
    assert want[0] == SubOf(routed, sequence) && want[1..] == subs;
    if Representable(routed) {
      assert got.Some? ==> got.value[1..] == Split(rest).value;
    } else {
      assert got.Some? ==> got.value[0] != want[0];
    }
  }

  /** The fields of a packet come back unharmed exactly if it is representable. */
  lemma FieldsCarry(routed: Routed, sequence: uint16)
    ensures Representable(routed) <==>
            routed.packet.kind & 0x1FF == routed.packet.kind && 4 + 4 * Units(routed) == SubLength(routed)
    ensures SubOf(routed, sequence) == Sub(routed.packet.kind, sequence, Padded(routed))
    ensures SubOf(routed, sequence).kind == routed.packet.kind
      && |SubOf(routed, sequence).data| == SubLength(routed) - 4
  {
    HeaderFields(routed.packet.kind, 0);
  }

  lemma NothingToSplit(sequence: uint16)
    ensures Split([]) == Some([]) == Some(SubsOf([], sequence))
  {
  }

  /** A single sub-packet survives exactly when its type fits nine bits and its data 508 bytes. */
  lemma SplitExactly(routed: Routed, sequence: uint16)
    ensures Split(SubPacket(routed, sequence)) == Some([SubOf(routed, sequence)]) <==> Representable(routed)
  {
    hide SubPacket, Split, SubsOf, SubOf, Representable;
    SplitFront(routed, sequence, [], []);
    NothingToSplit(sequence);
    assert SubPacket(routed, sequence) + [] == SubPacket(routed, sequence);
    assert [SubOf(routed, sequence)] + [] == [SubOf(routed, sequence)];
  }

  // ---------------------------------------------------------------- the dispatcher's convention

  /** One forwarded sub-packet and the stretch of data it was read from. */
  datatype Piece = Piece(offset: nat, size: nat, sub: Sub)

  /** Reads sub-packets whose size field counts two-byte units, header included. */
  function Dispatch(data: seq<byte>, offset: nat): (pieces: seq<Piece>)
    requires offset <= |data|
    decreases |data| - offset
  {
    if offset + 4 > |data| then []
    else
      var h := HeaderOf(data[offset..offset + 2]);
      var size := UnitsOf(h) as int * 2;
      if size == 0 || offset + size > |data| || size - 4 < 0 then []
      else
        var sub := Sub(KindOf(h), Uint16(data[offset + 2..offset + 4]), data[offset + 4..offset + size]);
        [Piece(offset, size, sub)] + Dispatch(data, offset + size)
  }

  lemma DispatchStep(data: seq<byte>, offset: nat)
    requires offset <= |data|
    ensures Dispatch(data, offset) ==
      if offset + 4 > |data| then []
      else
        var h := HeaderOf(data[offset..offset + 2]);
        var size := UnitsOf(h) as int * 2;
        if size == 0 || offset + size > |data| || size - 4 < 0 then []
        else
          var sub := Sub(KindOf(h), Uint16(data[offset + 2..offset + 4]), data[offset + 4..offset + size]);
          [Piece(offset, size, sub)] + Dispatch(data, offset + size)
  {
    hide HeaderOf, KindOf, UnitsOf, Uint16;
  }

  /**
   From `offset` on, each piece starts where the one before it ends and carries
   exactly the bytes behind its header.
   */
  predicate Tiles(data: seq<byte>, offset: nat, pieces: seq<Piece>)
    decreases |pieces|
  {
    if pieces == [] then offset <= |data|
    else
      var first := pieces[0];
      && first.offset == offset && 4 <= first.size && offset + first.size <= |data|
      && first.sub.data == data[offset + 4..offset + first.size]
      && Tiles(data, offset + first.size, pieces[1..])
  }

  /** The forwarded sub-packets tile a prefix of the data without gap or overlap; there are at most len/4 of them. */
  lemma {:induction false} DispatchTiles(data: seq<byte>, offset: nat)
    requires offset <= |data|
    ensures Tiles(data, offset, Dispatch(data, offset))
    ensures |Dispatch(data, offset)| <= (|data| - offset) / 4
    decreases |data| - offset
  {
    hide HeaderOf, KindOf, UnitsOf, Uint16;
    var pieces := Dispatch(data, offset);
    if pieces != [] {
      DispatchTiles(data, offset + pieces[0].size);
      assert pieces[1..] == Dispatch(data, offset + pieces[0].size);
    }
  }

  /**
   The two conventions never meet: whatever the packet, the dispatcher does not
   read back what the writer wrote.
   */
  lemma DispatchNeverReadsWriter(routed: Routed, sequence: uint16, rest: seq<byte>)
    ensures var pieces := Dispatch(SubPacket(routed, sequence) + rest, 0);
            pieces != [] ==> pieces[0].sub.data != Padded(routed)
  {
    hide SubPacket, Header, HeaderOf, KindOf, UnitsOf, Uint16, Dispatch, Padded;
    SubPacketFields(routed, sequence, rest);
    var b := SubPacket(routed, sequence) + rest;
    assert b[0..2] == b[..2];
    DispatchStep(b, 0);
    assert |Padded(routed)| == Aligned(|routed.packet.data|);
    assert Units(routed) * 2 - 4 < Aligned(|routed.packet.data|);
  }

  // ---------------------------------------------------------------- datagrams

  /** What a session contributes to a datagram: the mirrored header, the last client sequence, the cipher. */
  datatype Link = Link(header: seq<byte>, clientID: uint16, cipher: Option<Tables>)

  predicate ValidLink(link: Link) {
    |link.header| == HEADER_SIZE
  }

  datatype SendError =
    | PacketTooLarge
    | EmptyPayload
    | CompressFailed(err: CompressError)
    | WriteFailed
    | NothingConsumed

  datatype Wrapped = Wrapped(packet: seq<byte>) | Refused(err: SendError)

  function OuterHeader(link: Link, id: uint16, now: word): (h: seq<byte>)
    requires ValidLink(link)
    ensures |h| == HEADER_SIZE
  {
    PutUint16(id) + PutUint16(link.clientID) + link.header[4..8] + PutWord(now) + link.header[12..]
  }

  /** The compressed payload followed by its bit count. */
  function Chunk(enc: EncodeTable, payload: seq<byte>): (c: seq<byte>)
    requires 2 * |payload| + 64 <= MAX_BUFFER && TakesNormalPath(enc, payload, Zeros(2 * |payload| + 64))
  {
    var before := Zeros(2 * |payload| + 64);
    Trimmed(enc, payload, before) + PutUint32(CompressInto(enc, payload, before).bits)
  }

  function Plain(env: Env, enc: EncodeTable, link: Link, payload: seq<byte>, id: uint16, now: word): seq<byte>
    requires ValidLink(link)
    requires 2 * |payload| + 64 <= MAX_BUFFER && TakesNormalPath(enc, payload, Zeros(2 * |payload| + 64))
  {
    var chunk := Chunk(enc, payload);
    OuterHeader(link, id, now) + (chunk + env.md5(chunk))
  }

  function Ciphered(d: Direction, link: Link, packet: seq<byte>): (r: seq<byte>)
    ensures |r| == |packet|
  {
    match link.cipher
    case None => packet
    case Some(t) => CipherPacket(d, t, packet, HEADER_SIZE)
  }

  /** The datagram for a payload, or why there is none. */
  function Wrap(env: Env, enc: EncodeTable, link: Link, payload: seq<byte>, id: uint16, now: word): Wrapped
    requires ValidLink(link) && 2 * |payload| + 64 <= MAX_BUFFER
  {
    var before := Zeros(2 * |payload| + 64);
    if payload == [] then Refused(EmptyPayload)
    else if TakesNormalPath(enc, payload, before) then
      Wrapped(Ciphered(Encrypting, link, Plain(env, enc, link, payload, id, now)))
    else
      RouterBufferSuffices(enc, payload, before);
      Refused(CompressFailed(CompressInto(enc, payload, before).err.value))
  }

  datatype Unwrapped =
    | TooSmall
    | BodyTooSmall
    | ChecksumMismatch
    | Body(compressed: seq<byte>, bitCount: uint32)

  /** Checks the digest of a decrypted datagram and separates the compressed text from its bit count. */
  function TakeApart(env: Env, decoded: seq<byte>): Unwrapped
    requires |decoded| >= HEADER_SIZE + CHECKSUM_SIZE + 4
  {
    var payloadEnd := |decoded| - CHECKSUM_SIZE;
    if payloadEnd <= HEADER_SIZE + 4 then BodyTooSmall
    else
      var payload := decoded[HEADER_SIZE..payloadEnd];
      if env.md5(payload) != decoded[payloadEnd..] then ChecksumMismatch
      else Body(payload[..|payload| - 4], Uint32(payload[|payload| - 4..]))
  }

  function Unwrap(env: Env, link: Link, data: seq<byte>): Unwrapped {
    if |data| < HEADER_SIZE + CHECKSUM_SIZE + 4 then TooSmall
    else TakeApart(env, Ciphered(Decrypting, link, data))
  }

  datatype Received = NotUnwrapped(why: Unwrapped) | NotDecompressed(err: DecompressError) | Text(text: seq<byte>)

  /** What the router makes of an encrypted datagram from a client. */
  function Receive(env: Env, table: JumpTable, root: Option<nat>, link: Link, data: seq<byte>): Received {
    match Unwrap(env, link, data)
    case Body(compressed, bitCount) =>
      var d := Decompress(table, root, compressed, bitCount, MAX_DECOMPRESSED);
      if d.err.Some? then NotDecompressed(d.err.value) else Text(d.out)
    case why => NotUnwrapped(why)
  }

  /** Why a payload gets no datagram: it is empty, or the codec's own reason; and otherwise it gets one. */
  lemma WrapRefuses(env: Env, enc: EncodeTable, link: Link, payload: seq<byte>, id: uint16, now: word)
    requires ValidLink(link) && 2 * |payload| + 64 <= MAX_BUFFER
    ensures var w, before := Wrap(env, enc, link, payload, id, now), Zeros(2 * |payload| + 64);
            && (payload == [] <==> w == Refused(EmptyPayload))
            && (payload != [] && CompressInto(enc, payload, before).err.Some? ==>
                  w == Refused(CompressFailed(CompressInto(enc, payload, before).err.value)))
            && (payload != [] && CompressInto(enc, payload, before).err.None? <==> w.Wrapped?)
  {
    hide CompressInto, TakesNormalPath, Plain, Ciphered;
    RouterBufferSuffices(enc, payload, Zeros(2 * |payload| + 64));
  }

  /** What a datagram has to be made of for the receiver to find this text and this count in it. */
  predicate IsSigned(env: Env, decoded: seq<byte>, text: seq<byte>, bits: uint32) {
    var chunk := text + PutUint32(bits);
    text != [] && |decoded| >= 28 && decoded == decoded[..28] + chunk + env.md5(chunk)
  }

  /**
   The receiver accepts exactly the datagrams that decipher to 28 bytes of
   header, a non-empty text, its count, and the sixteen bytes of their digest.
   */
  lemma UnwrapExactly(env: Env, link: Link, data: seq<byte>, text: seq<byte>, bits: uint32)
    ensures Unwrap(env, link, data) == Body(text, bits) <==> IsSigned(env, Ciphered(Decrypting, link, data), text, bits)
    ensures Unwrap(env, link, data).TooSmall? <==> |data| < 48
    ensures Unwrap(env, link, data).BodyTooSmall? <==> |data| == 48
  {
    hide Ciphered, PutUint32, Uint32;
    var decoded := Ciphered(Decrypting, link, data);
    if IsSigned(env, decoded, text, bits) {
      var chunk := text + PutUint32(bits);
      Associative(decoded[..28], chunk, env.md5(chunk));
      TakeApartSigned(env, decoded[..28], text, bits);
    }
    if Unwrap(env, link, data) == Body(text, bits) {
      var n := |decoded| - 16;
      var chunk := decoded[28..n];
      PutUint32OfBytes(chunk[|chunk| - 4..]);
      assert chunk == text + PutUint32(bits);
      assert decoded == decoded[..28] + decoded[28..n] + decoded[n..];
    }
  }

  lemma CipheredInverse(link: Link, packet: seq<byte>)
    ensures Ciphered(Decrypting, link, Ciphered(Encrypting, link, packet)) == packet
  {
    hide CipherPacket;
    if link.cipher.Some? {
      PacketInverse(Encrypting, link.cipher.value, packet, HEADER_SIZE);
    }
  }

  lemma CipheredHeader(d: Direction, link: Link, packet: seq<byte>)
    requires |packet| >= HEADER_SIZE
    ensures Ciphered(d, link, packet)[..HEADER_SIZE] == packet[..HEADER_SIZE]
  {
    hide CipherPacket;
    if link.cipher.Some? {
      PacketFrame(d, link.cipher.value, packet, HEADER_SIZE);
    }
  }

  /** A signed text taken apart again. */
  lemma TakeApartSigned(env: Env, header: seq<byte>, text: seq<byte>, bits: uint32)
    requires |header| == HEADER_SIZE && text != []
    ensures var chunk := text + PutUint32(bits);
            var plain := header + (chunk + env.md5(chunk));
            |plain| >= HEADER_SIZE + CHECKSUM_SIZE + 4 && TakeApart(env, plain) == Body(text, bits)
  {
    hide PutUint32, Uint32;
    var chunk := text + PutUint32(bits);
    var plain := header + (chunk + env.md5(chunk));
    var payloadEnd := |plain| - CHECKSUM_SIZE;
    assert plain[HEADER_SIZE..payloadEnd] == chunk;
    assert plain[payloadEnd..] == env.md5(chunk);
    assert chunk[..|chunk| - 4] == text && chunk[|chunk| - 4..] == PutUint32(bits);
    Uint32RoundTrip(bits);
  }

  /** The 28 bytes in the clear: both sequence numbers, the clock at 8, and the rest as the client last sent it. */
  predicate ShowsHeader(packet: seq<byte>, link: Link, id: uint16, now: word)
    requires ValidLink(link)
  {
    && |packet| >= 28
    && packet[0..2] == PutUint16(id) && packet[2..4] == PutUint16(link.clientID)
    && packet[4..8] == link.header[4..8] && packet[8..12] == PutWord(now) && packet[12..28] == link.header[12..28]
  }

  /** Unwrapping a wrapped payload passes the digest check and yields the trimmed image and its count. */
  lemma UnwrapWrap(env: Env, enc: EncodeTable, link: Link, payload: seq<byte>, id: uint16, now: word)
    requires ValidLink(link) && payload != [] && 2 * |payload| + 64 <= MAX_BUFFER
    requires TakesNormalPath(enc, payload, Zeros(2 * |payload| + 64))
    ensures var before := Zeros(2 * |payload| + 64);
            var packet := Wrap(env, enc, link, payload, id, now).packet;
            && Unwrap(env, link, packet) == Body(Trimmed(enc, payload, before), CompressInto(enc, payload, before).bits)
            && ShowsHeader(packet, link, id, now)
  {
    hide CompressInto, Trimmed, Ciphered, TakeApart, PutUint16, PutUint32, Uint32, PutWord;
    var before := Zeros(2 * |payload| + 64);
    TrimmedLength(enc, payload, before);
    var plain := Plain(env, enc, link, payload, id, now);
    TakeApartSigned(env, OuterHeader(link, id, now), Trimmed(enc, payload, before),
                    CompressInto(enc, payload, before).bits);
    CipheredInverse(link, plain);
    CipheredHeader(Encrypting, link, plain);
    HeaderOnWire(link, id, now, plain, Wrap(env, enc, link, payload, id, now).packet);
  }

  /** Every wrapped payload shows its header, and so its two numbers. */
  lemma WrapShowsHeader(env: Env, enc: EncodeTable, link: Link, payload: seq<byte>, id: uint16, now: word)
    requires ValidLink(link) && 2 * |payload| + 64 <= MAX_BUFFER
    ensures var w := Wrap(env, enc, link, payload, id, now);
            w.Wrapped? ==>
              && ShowsHeader(w.packet, link, id, now)
              && Uint16(w.packet[0..2]) == id && Uint16(w.packet[2..4]) == link.clientID
  {
    hide CompressInto, TakesNormalPath, Plain, Ciphered, Unwrap, PutUint16, PutWord, Uint16;
    if Wrap(env, enc, link, payload, id, now).Wrapped? {
      UnwrapWrap(env, enc, link, payload, id, now);
      Uint16RoundTrip(id);
      Uint16RoundTrip(link.clientID);
    }
  }

  lemma HeaderOnWire(link: Link, id: uint16, now: word, plain: seq<byte>, packet: seq<byte>)
    requires ValidLink(link) && |packet| == |plain| >= HEADER_SIZE
    requires plain[..HEADER_SIZE] == OuterHeader(link, id, now) == packet[..HEADER_SIZE]
    ensures ShowsHeader(packet, link, id, now)
  {
    hide PutUint16, PutWord;
    var h := packet[..HEADER_SIZE];
    assert packet[0..2] == h[0..2] && packet[2..4] == h[2..4] && packet[4..8] == h[4..8];
    assert packet[8..12] == h[8..12] && packet[12..28] == h[12..28];
  }

  lemma TrimmedLength(enc: EncodeTable, src: seq<byte>, before: seq<byte>)
    requires 0 < |before| <= MAX_BUFFER && TakesNormalPath(enc, src, before)
    ensures 1 <= |Trimmed(enc, src, before)| == BytesFor(CompressInto(enc, src, before).bits)
  {
    hide CompressInto, CodeString;
    NormalImage(enc, src, before);
  }

  // ---------------------------------------------------------------- end to end

  /** The packets that one payload takes from the front of a batch. */
  function Taken(packets: seq<Routed>): (n: nat)
    ensures n <= |packets|
  {
    FitCount(Lengths(packets), MAX_PAYLOAD)
  }

  lemma TakenFits(packets: seq<Routed>, sequence: uint16)
    ensures |Payload(packets[..Taken(packets)], sequence)| <= 1300
    ensures packets != [] && SubLength(packets[0]) <= 1300 ==> Taken(packets) > 0
    ensures forall m :: 0 <= m <= |packets| ==>
      (|Payload(packets[..m], sequence)| <= 1300 <==> m <= Taken(packets))
  {
    forall m | 0 <= m <= |packets|
      ensures |Payload(packets[..m], sequence)| <= MAX_PAYLOAD <==> m <= Taken(packets)
    {
      PayloadLength(packets[..m], sequence);
      assert Lengths(packets[..m]) == Lengths(packets)[..m];
      FitCountIsLargest(Lengths(packets), MAX_PAYLOAD, m);
    }
  }

  predicate ShortCodes(enc: EncodeTable, text: seq<byte>) {
    forall i :: 0 <= i < |text| ==> HasCode(enc, text[i]) && CodeLength(enc, text[i]) <= 16
  }

  /** Payloads within the budget and with short codes always become datagrams. */
  lemma WrapSucceeds(env: Env, enc: EncodeTable, link: Link, payload: seq<byte>, id: uint16, now: word)
    requires ValidLink(link) && 0 < |payload| <= MAX_PAYLOAD && ShortCodes(enc, payload)
    ensures Wrap(env, enc, link, payload, id, now).Wrapped?
    ensures TakesNormalPath(enc, payload, Zeros(2 * |payload| + 64))
  {
    hide Ciphered, Plain, CompressInto;
    RouterBufferSuffices(enc, payload, Zeros(2 * |payload| + 64));
  }

  /**
   End to end: the datagram built from the front of any batch of representable
   packets decrypts, passes the digest check, decompresses (with the count less
   eight) to the exact payload, and splits into the packets it was made of, each
   under the sequence number in the datagram's own header.
   */
  lemma EndToEnd(env: Env, enc: EncodeTable, table: JumpTable, root: nat, link: Link, packets: seq<Routed>,
                 id: uint16, now: word, room: nat)
    requires ValidLink(link) && packets != []
    requires AllRepresentable(packets)
    requires var payload := Payload(packets[..Taken(packets)], id);
             ShortCodes(enc, payload) && AgreesOn(enc, table, root, payload) && room >= |payload|
    ensures var n := Taken(packets);
            var payload := Payload(packets[..n], id);
            && 0 < n && 0 < |payload| <= 1300
            && var wrapped := Wrap(env, enc, link, payload, id, now);
               && wrapped.Wrapped? && |wrapped.packet| >= 4 && Uint16(wrapped.packet[0..2]) == id
               && var body := Unwrap(env, link, wrapped.packet);
                  && body.Body? && body.bitCount > 8
                  && Decompress(table, Some(root), body.compressed, body.bitCount - 8, room) == Decoded(payload, None)
                  && Split(payload) == Some(SubsOf(packets[..n], id))
  {
    hide SubPacket, Payload, CompressInto, Trimmed, Wrap, Unwrap, Decompress, Split, SubsOf, CodeString, Code, Reaches,
      Uint16, PutUint16;
    var n := Taken(packets);
    assert Representable(packets[0]);
    TakenFits(packets, id);
    var payload := Payload(packets[..n], id);
    PayloadNotEmpty(packets[..n], id);
    var before := Zeros(2 * |payload| + 64);
    WrapSucceeds(env, enc, link, payload, id, now);
    UnwrapWrap(env, enc, link, payload, id, now);
    Uint16RoundTrip(id);
    NormalImage(enc, payload, before);
    var bits := CompressInto(enc, payload, before).bits;
    AgreementHasCodes(enc, table, root, payload);
    TrimmedIsPrefix(enc, payload, before);
    RoundTrip(enc, table, root, payload, before, BytesFor(bits), bits - 8, room);
    SplitPayload(packets[..n], id);
  }

  lemma PayloadNotEmpty(packets: seq<Routed>, id: uint16)
    requires packets != []
    ensures Payload(packets, id) != []
  {
    hide SubPacket;
  }

  lemma TrimmedIsPrefix(enc: EncodeTable, src: seq<byte>, before: seq<byte>)
    requires 0 < |before| <= MAX_BUFFER && TakesNormalPath(enc, src, before)
    ensures var r := CompressInto(enc, src, before);
            BytesFor(r.bits) <= |before| == |r.image| && Trimmed(enc, src, before) == r.image[..BytesFor(r.bits)]
  {
    hide CompressInto, CodeString;
    NormalImage(enc, src, before);
  }

  /**
   The receiver's own convention: handed any datagram the router itself builds
   from a payload within the budget, it rejects it, because it passes the count
   as returned together with a 4096-byte destination.
   */
  lemma RouterRejectsItself(env: Env, enc: EncodeTable, table: JumpTable, root: nat, link: Link, payload: seq<byte>,
                            id: uint16, now: word)
    requires ValidLink(link) && 0 < |payload| <= 1300 && AgreesOn(enc, table, root, payload)
    requires Wrap(env, enc, link, payload, id, now).Wrapped?
    ensures Receive(env, table, Some(root), link, Wrap(env, enc, link, payload, id, now).packet).NotDecompressed?
  {
    hide CompressInto, Trimmed, Unwrap, Decompress, CodeString, Code, Reaches, Ciphered, Plain;
    var before := Zeros(2 * |payload| + 64);
    assert TakesNormalPath(enc, payload, before);
    UnwrapWrap(env, enc, link, payload, id, now);
    CountAsReturnedBoundary(enc, table, root, payload, before, MAX_DECOMPRESSED);
  }
}
