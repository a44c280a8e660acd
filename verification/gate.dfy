/**
 What one datagram from a client does: the checks in front of the session
 table, the login that creates a session, and the packets forwarded to the map
 instance.  The properties are about whole runs of incoming datagrams.
 */
module Gate {
  import opened Bytes
  import opened CodecSpec
  import opened CipherSpec
  import opened Framing

  const LOGIN: bv16 := 0x0A
  const LOGIN_SIZE := 0x5C

  /** The part of a session that incoming datagrams read or write. */
  datatype Client = Client(character: Option<uint32>, header: seq<byte>, clientID: uint16, serverID: uint16,
                           cipher: Option<Tables>)

  function LinkOf(c: Client): Link {
    Link(c.header, c.clientID, c.cipher)
  }

  /** The answers of the account database and the message bus for a character. */
  datatype Lookup = Lookup(sessionKey: Option<seq<byte>>, subscribed: bool, character: Option<uint32>)

  datatype Incoming = Incoming(addr: string, length: nat, data: seq<byte>, directory: uint32 -> Lookup)

  datatype Tabled = Tabled(table: JumpTable, root: Option<nat>)

  /** The session table and every forward attempted so far. */
  datatype State = State(clients: map<string, Client>, forwards: seq<Routed>)

  // ---------------------------------------------------------------- login packets

  function ByteSum(s: seq<byte>): byte {
    if s == [] then 0 else PlusByte(ByteSum(s[..|s| - 1]), s[|s| - 1])
  }

  function PlusByte(a: byte, b: byte): byte {
    a + b
  }

  /** The character a login packet asks for, if the packet is well formed. */
  function ParseLogin(env: Env, data: seq<byte>): Option<uint32> {
    if |data| < HEADER_SIZE + 4 + CHECKSUM_SIZE then None
    else
      var h := HeaderOf(data[HEADER_SIZE..HEADER_SIZE + 2]);
      var payloadEnd := HEADER_SIZE + LOGIN_SIZE;
      if KindOf(h) != LOGIN || UnitsOf(h) as int * 4 != LOGIN_SIZE then None
      else if |data| < payloadEnd + CHECKSUM_SIZE then None
      else
        var body := data[HEADER_SIZE..payloadEnd];
        if env.md5(body) != data[payloadEnd..payloadEnd + CHECKSUM_SIZE] then None
        else if ByteSum(body[8..]) != body[4] then None
        else Some(Uint32(body[12..16]))
  }

  function Total(s: seq<byte>): nat {
    if s == [] then 0 else Total(s[..|s| - 1]) + Number(s[|s| - 1])
  }

  function Number(b: byte): (n: nat)
    ensures n < 256
  {
    b as int
  }

  lemma NumberOfZero()
    ensures Number(0) == 0
  {
  }

  lemma PlusByteSteps(a: byte, b: byte)
    ensures PlusByte(a, ByteOf(0)) == a
    ensures PlusByte(a, PlusByte(b, 1)) == PlusByte(PlusByte(a, b), 1)
  {
    ByteOfValue(0);
  }

  lemma OneMore(b: byte)
    ensures Number(PlusByte(b, 1)) == (Number(b) + 1) % 256
  {
    if b != 255 {
      Successor(b);
    }
  }

  lemma ByteOfNext(n: nat)
    requires n < 255
    ensures ByteOf(n + 1) == PlusByte(ByteOf(n), 1)
  {
    Successor(ByteOf(n));
    ByteOfValue(ByteOf(n) + 1);
  }

  lemma NextModulo(m: nat)
    ensures (m % 256 + 1) % 256 == (m + 1) % 256
  {
  }

  lemma {:induction false} AddsNumber(a: byte, n: nat)
    requires n < 256
    ensures Number(PlusByte(a, ByteOf(n))) == (Number(a) + n) % 256
  {
    hide PlusByte, Number, ByteOf;
    if n == 0 {
      PlusByteSteps(a, 0);
    } else {
      var b := ByteOf(n - 1);
      AddsNumber(a, n - 1);
      ByteOfNext(n - 1);
      PlusByteSteps(a, b);
      OneMore(PlusByte(a, b));
      NextModulo(Number(a) + (n - 1));
    }
  }

  /** A sum of bytes is the sum of their values modulo 256. */
  lemma BytesAdd(a: byte, b: byte)
    ensures Number(PlusByte(a, b)) == (Number(a) + Number(b)) % 256
  {
    hide PlusByte;
    ByteOfValue(b);
    AddsNumber(a, Number(b));
  }

  lemma {:induction false} ByteSumIsTotal(s: seq<byte>)
    ensures Number(ByteSum(s)) == Total(s) % 256
  {
    hide PlusByte, Number;
    NumberOfZero();
    if s != [] {
      ByteSumIsTotal(s[..|s| - 1]);
      BytesAdd(ByteSum(s[..|s| - 1]), s[|s| - 1]);
    }
  }

  /**
   A login datagram for character `n`, byte by byte: the type 0x0A and the size
   of 23 units in front, the sum of the bytes from 8 on at byte 4, the character
   at bytes 12 to 16, and the digest of these 92 bytes behind them.
   */
  predicate IsLogin(env: Env, data: seq<byte>, n: uint32) {
    && |data| >= 136
    && var body := data[28..120];
       && body[0] == 0x0A && body[1] == 0x2E
       && Number(body[4]) == Total(body[8..]) % 256
       && n == Uint32(body[12..16])
       && data[120..136] == env.md5(body)
  }

  /** The parser accepts exactly the login datagrams, and reads the character from them. */
  lemma ParseLoginExactly(env: Env, data: seq<byte>, n: uint32)
    ensures ParseLogin(env, data) == Some(n) <==> IsLogin(env, data, n)
  {
    hide Uint32, HeaderOf, KindOf, UnitsOf, ByteSum, Total, Number;
    if |data| >= 136 {
      var body := data[28..120];
      ByteSumIsTotal(body[8..]);
      HeaderIsLogin(data[28..30]);
      assert data[28..30][0] == body[0] && data[28..30][1] == body[1];
      SameNumberSameByte(ByteSum(body[8..]), body[4]);
    }
  }

  lemma SameNumberSameByte(a: byte, b: byte)
    ensures Number(a) == Number(b) <==> a == b
  {
    ByteOfValue(a);
    ByteOfValue(b);
  }

  lemma HeaderIsLogin(s: seq<byte>)
    requires |s| == 2
    ensures KindOf(HeaderOf(s)) == LOGIN && UnitsOf(HeaderOf(s)) as int * 4 == LOGIN_SIZE
       <==> s[0] == 0x0A && s[1] == 0x2E
  {
    HeaderBytes(0, 0, s);
    UnitsAre23(UnitsOf(HeaderOf(s)));
  }

  lemma UnitsAre23(units: byte)
    ensures units as int * 4 == 0x5C <==> units == 23
  {
    if units as int == 23 {
      ByteOfValue(units);
      ByteOfValue(23);
    }
  }

  /** A login datagram made from its fields; `rest` are the bytes behind the character. */
  function LoginBody(sync: seq<byte>, fill: seq<byte>, state: seq<byte>, n: uint32, rest: seq<byte>): (body: seq<byte>)
    requires |sync| == 2 && |fill| == 3 && |state| == 4 && |rest| == 76
    ensures |body| == 92
  {
    var summed := state + PutUint32(n) + rest;
    [0x0A, 0x2E] + sync + [ByteOf(Total(summed) % 256)] + fill + summed
  }

  /** Such a datagram is parsed to the character it was made for. */
  lemma LoginRoundTrip(env: Env, header: seq<byte>, sync: seq<byte>, fill: seq<byte>, state: seq<byte>, n: uint32,
                       rest: seq<byte>, behind: seq<byte>)
    requires |header| == 28 && |sync| == 2 && |fill| == 3 && |state| == 4 && |rest| == 76
    ensures var body := LoginBody(sync, fill, state, n, rest);
            ParseLogin(env, header + body + env.md5(body) + behind) == Some(n)
  {
    hide Total, PutUint32, Uint32, ParseLogin;
    var body := LoginBody(sync, fill, state, n, rest);
    var data := header + body + env.md5(body) + behind;
    assert data[28..120] == body && data[120..136] == env.md5(body);
    assert body[8..] == state + PutUint32(n) + rest && body[12..16] == PutUint32(n);
    Uint32RoundTrip(n);
    ParseLoginExactly(env, data, n);
  }

  /** The session that a lookup allows, fresh and without traffic yet. */
  function NewClient(env: Env, found: Lookup): Option<Client> {
    match found.sessionKey
    case None => None
    case Some(key) =>
      if |key| != KEY_SIZE || !found.subscribed then None
      else Some(Client(found.character, Zeros(HEADER_SIZE), 0, 0, Some(KeyTables(env, KeyOf(key)))))
  }

  // ---------------------------------------------------------------- one datagram

  function Acknowledge(serverID: uint16, ack: uint16): uint16 {
    if ack > serverID then ack else serverID
  }

  /** The client's sequence number, acknowledgement and header, remembered. */
  function Noted(c: Client, data: seq<byte>): Client
    requires |data| >= HEADER_SIZE
  {
    c.(clientID := Uint16(data[0..2]), serverID := Acknowledge(c.serverID, Uint16(data[2..4])),
       header := data[..HEADER_SIZE])
  }

  function Forward(addr: string, c: Client, kind: bv16, sequence: uint16, payload: seq<byte>): Routed {
    var characterID := if c.character.Some? then c.character.value else 0;
    Routed(addr, characterID, Packet(kind, |payload| % TWO_TO_THE_16, sequence, payload))
  }

  function ForwardAll(addr: string, c: Client, pieces: seq<Piece>): (r: seq<Routed>)
    ensures |r| == |pieces|
    ensures forall i :: 0 <= i < |pieces| ==>
      r[i] == Forward(addr, c, pieces[i].sub.kind, pieces[i].sub.sequence, pieces[i].sub.data)
  {
    seq(|pieces|, i requires 0 <= i < |pieces| => Forward(addr, c, pieces[i].sub.kind, pieces[i].sub.sequence,
                                                          pieces[i].sub.data))
  }

  function ForwardsOfEncrypted(env: Env, codec: Tabled, addr: string, c: Client, data: seq<byte>): seq<Routed> {
    match Receive(env, codec.table, codec.root, LinkOf(c), data)
    case Text(text) => ForwardAll(addr, c, Dispatch(text, 0))
    case _ => []
  }

  /** Whether a datagram gets past the size checks. */
  predicate Acceptable(incoming: Incoming) {
    incoming.length >= HEADER_SIZE + CHECKSUM_SIZE && HoldsInner(incoming.data)
  }

  /** Whether there is an inner packet of the length its header says. */
  predicate HoldsInner(data: seq<byte>) {
    && |data| >= HEADER_SIZE + CHECKSUM_SIZE
    && var units := UnitsOf(InnerHeader(data)) as int;
       units > 0 && HEADER_SIZE + 4 * units <= |data| - CHECKSUM_SIZE
  }

  function InnerHeader(data: seq<byte>): bv16
    requires |data| >= HEADER_SIZE + CHECKSUM_SIZE
  {
    HeaderOf(data[HEADER_SIZE..HEADER_SIZE + 2])
  }

  /** The inner header's size, read off the second of its bytes. */
  function InnerUnits(data: seq<byte>): nat
    requires |data| >= 44
  {
    Number(data[29] >> 1)
  }

  /** The inner header as bytes: a size in four-byte units, and nine bits of type. */
  lemma InnerHeaderBytes(data: seq<byte>)
    ensures HoldsInner(data) <==> |data| >= 44 && InnerUnits(data) > 0 && 44 + 4 * InnerUnits(data) <= |data|
    ensures |data| >= 44 ==>
      && (KindOf(InnerHeader(data)) == 0x0A <==> data[28] == 0x0A && data[29] & 1 == 0)
      && UnitsOf(InnerHeader(data)) as int == InnerUnits(data)
  {
    hide HeaderOf, KindOf, UnitsOf, Number;
    if |data| >= 44 {
      HeaderBytesRead(data[28..30]);
    }
  }

  lemma HeaderBytesRead(s: seq<byte>)
    requires |s| == 2
    ensures KindOf(HeaderOf(s)) == 0x0A <==> s[0] == 0x0A && s[1] & 1 == 0
    ensures UnitsOf(HeaderOf(s)) as int == Number(s[1] >> 1)
  {
    hide HeaderOf, KindOf, UnitsOf;
    HeaderBytes(0, 0, s);
    KindIsLogin(s[0], s[1]);
  }

  lemma KindIsLogin(a: byte, b: byte)
    ensures (a as bv16) | (((b & 1) as bv16) << 8) == 0x0A <==> a == 0x0A && b & 1 == 0
  {
  }

  /** The inner packet as it is, which is how a login is forwarded. */
  function ForwardInner(addr: string, c: Client, data: seq<byte>): Routed
    requires HoldsInner(data)
  {
    Forward(addr, c, KindOf(InnerHeader(data)), Uint16(data[HEADER_SIZE + 2..HEADER_SIZE + 4]),
      data[HEADER_SIZE..HEADER_SIZE + 4 * (UnitsOf(InnerHeader(data)) as int)])
  }

  /** The session that a datagram from an unknown address creates, if any. */
  function Admitted(env: Env, incoming: Incoming): Option<Client> {
    match ParseLogin(env, incoming.data)
    case None => None
    case Some(uniqueNo) => NewClient(env, incoming.directory(uniqueNo))
  }

  function Handle(env: Env, codec: Tabled, s: State, incoming: Incoming): State {
    if !Acceptable(incoming) then s
    else
      var data, addr := incoming.data, incoming.addr;
      var kind := KindOf(InnerHeader(data));
      if addr !in s.clients then
        if kind != LOGIN then s
        else
          match Admitted(env, incoming)
          case None => s
          case Some(admitted) =>
            var c := Noted(admitted, data);
            State(s.clients[addr := c], s.forwards + [ForwardInner(addr, c, data)])
      else
        var c := Noted(s.clients[addr], data);
        var more := if kind == LOGIN then [] else ForwardsOfEncrypted(env, codec, addr, c, data);
        State(s.clients[addr := c], s.forwards + more)
  }

  // ---------------------------------------------------------------- over whole runs

  function HandleAll(env: Env, codec: Tabled, s: State, run: seq<Incoming>): State
    decreases |run|
  {
    if run == [] then s else HandleAll(env, codec, Handle(env, codec, s, run[0]), run[1..])
  }

  const EMPTY := State(map[], [])

  function ForwardsTo(forwards: seq<Routed>, addr: string): seq<Routed> {
    if forwards == [] then []
    else
      var before := ForwardsTo(forwards[..|forwards| - 1], addr);
      if forwards[|forwards| - 1].clientAddr == addr then before + [forwards[|forwards| - 1]] else before
  }

  function CharacterOf(c: Client): uint32 {
    if c.character.Some? then c.character.value else 0
  }

  /** What an address has had forwarded starts with a login and always names the session's character. */
  ghost predicate Orderly(c: Client, mine: seq<Routed>) {
    && mine != [] && mine[0].packet.kind == LOGIN
    && forall i :: 0 <= i < |mine| ==> mine[i].characterID == CharacterOf(c)
  }

  ghost predicate GateHolds(s: State) {
    forall addr :: HoldsAt(s, addr)
  }

  ghost predicate HoldsAt(s: State, addr: string) {
    if addr in s.clients then Orderly(s.clients[addr], ForwardsTo(s.forwards, addr))
      else ForwardsTo(s.forwards, addr) == []
  }

  lemma {:induction false} ForwardsToConcat(a: seq<Routed>, b: seq<Routed>, addr: string)
    ensures ForwardsTo(a + b, addr) == ForwardsTo(a, addr) + ForwardsTo(b, addr)
    decreases |b|
  {
    if b == [] {
      assert a + b == a;
    } else {
      var front := b[..|b| - 1];
      assert (a + b)[..|a + b| - 1] == a + front;
      ForwardsToConcat(a, front, addr);
    }
  }

  lemma {:induction false} ForwardsToAll(forwards: seq<Routed>, addr: string, other: string)
    requires forall i :: 0 <= i < |forwards| ==> forwards[i].clientAddr == addr
    ensures ForwardsTo(forwards, other) == if other == addr then forwards else []
    decreases |forwards|
  {
    if forwards != [] {
      ForwardsToAll(forwards[..|forwards| - 1], addr, other);
      assert forwards == forwards[..|forwards| - 1] + [forwards[|forwards| - 1]];
    }
  }

  /** Sessions are never replaced: what the login settled stays. */
  ghost predicate SessionsKept(before: State, after: State) {
    && (forall addr :: addr in before.clients ==>
          && addr in after.clients
          && after.clients[addr].character == before.clients[addr].character
          && after.clients[addr].cipher == before.clients[addr].cipher
          && after.clients[addr].serverID >= before.clients[addr].serverID)
    && before.forwards <= after.forwards
  }

  /** `r` is this packet from the client at `addr`, for the map instance. */
  predicate Carries(r: Routed, addr: string, c: Client, kind: bv16, sequence: uint16, data: seq<byte>) {
    && r.clientAddr == addr && r.characterID == CharacterOf(c)
    && r.packet.kind == kind && r.packet.sequence == sequence
    && r.packet.data == data && r.packet.size == |data| % 0x1_0000
  }

  lemma ForwardCarries(addr: string, c: Client, kind: bv16, sequence: uint16, data: seq<byte>)
    ensures Carries(Forward(addr, c, kind, sequence, data), addr, c, kind, sequence, data)
  {
  }

  /** The forwards of some pieces carry them, one for one and in order. */
  lemma ForwardAllCarries(before: seq<Routed>, addr: string, c: Client, pieces: seq<Piece>)
    ensures var after := before + ForwardAll(addr, c, pieces);
            CarriesAll(before, after, addr, c, pieces)
  {
    hide Forward, Carries;
    var after := before + ForwardAll(addr, c, pieces);
    forall i | 0 <= i < |pieces|
      ensures Carries(after[|before| + i], addr, c, pieces[i].sub.kind, pieces[i].sub.sequence, pieces[i].sub.data)
    {
      ForwardCarries(addr, c, pieces[i].sub.kind, pieces[i].sub.sequence, pieces[i].sub.data);
    }
  }

  /** `after` continues `before` with these pieces. */
  ghost predicate CarriesAll(before: seq<Routed>, after: seq<Routed>, addr: string, c: Client, pieces: seq<Piece>) {
    && |after| == |before| + |pieces| && before <= after
    && forall i :: 0 <= i < |pieces| ==>
         Carries(after[|before| + i], addr, c, pieces[i].sub.kind, pieces[i].sub.sequence, pieces[i].sub.data)
  }

  /** A lookup that lets a character in: a session key of twenty bytes, and a subscription on the bus. */
  predicate LetsIn(found: Lookup) {
    found.sessionKey.Some? && |found.sessionKey.value| == 20 && found.subscribed
  }

  /** The character that a login datagram names. */
  function NamedIn(data: seq<byte>): uint32
    requires |data| >= 136
  {
    Uint32(data[40..44])
  }

  /** The datagram is a login that is let in. */
  predicate Creates(env: Env, incoming: Incoming) {
    var data := incoming.data;
    && incoming.length >= 44 && |data| >= 136 && IsLogin(env, data, NamedIn(data))
    && LetsIn(incoming.directory(NamedIn(data)))
  }

  /** The session that such a login creates: the character and the key looked up, the numbers and the header noted. */
  function CreatedClient(env: Env, incoming: Incoming): Client
    requires Creates(env, incoming)
  {
    var data := incoming.data;
    var found := incoming.directory(NamedIn(data));
    Client(found.character, data[..28], Uint16(data[0..2]), Uint16(data[2..4]),
           Some(KeyTables(env, KeyOf(found.sessionKey.value))))
  }

  /**
   The datagram is a login for `addr` that is let in, `c` has the character and
   the tables of the session it creates, and `login` is its inner packet, forwarded.
   */
  ghost predicate Created(env: Env, incoming: Incoming, addr: string, c: Client, login: Routed) {
    && incoming.addr == addr && |incoming.data| >= 136 && CarriesLogin(login, addr, c, incoming.data)
    && Creates(env, incoming)
    && c.character == CreatedClient(env, incoming).character && c.cipher == CreatedClient(env, incoming).cipher
  }

  /** `r` is the inner packet of a login datagram: its 92 bytes under the number they show. */
  predicate CarriesLogin(r: Routed, addr: string, c: Client, data: seq<byte>)
    requires |data| >= 136
  {
    Carries(r, addr, c, 0x0A, Uint16(data[30..32]), data[28..120])
  }

  /**
   The datagrams that create a session are exactly the logins that are let in,
   and the session and the forward are theirs; every other datagram from an
   address without a session changes nothing.
   */
  lemma CreatesExactly(env: Env, codec: Tabled, s: State, incoming: Incoming)
    requires incoming.addr !in s.clients
    ensures var r := Handle(env, codec, s, incoming);
            if Creates(env, incoming) then
              var c := CreatedClient(env, incoming);
              && r.clients == s.clients[incoming.addr := c]
              && |r.forwards| == |s.forwards| + 1 && r.forwards[..|s.forwards|] == s.forwards
              && Created(env, incoming, incoming.addr, c, r.forwards[|s.forwards|])
            else r == s
  {
    hide HeaderOf, KindOf, UnitsOf, Uint16, Uint32, ParseLogin, KeyTables, KeyOf, HoldsInner, IsLogin, Zeros;
    var data := incoming.data;
    LoginIsWhole(env, incoming);
    if |data| >= 136 && IsLogin(env, data, NamedIn(data)) {
      LoginHoldsInner(env, data);
      var admitted := NewClient(env, incoming.directory(NamedIn(data)));
      if admitted.Some? && incoming.length >= 44 {
        LoginForwarded(env, incoming.addr, Noted(admitted.value, data), data);
      }
    }
  }

  /** What gets as far as a lookup is a login datagram, and the lookup is for the character it names. */
  lemma LoginIsWhole(env: Env, incoming: Incoming)
    ensures var data := incoming.data;
            Admitted(env, incoming) == if |data| >= 136 && IsLogin(env, data, NamedIn(data))
                                       then NewClient(env, incoming.directory(NamedIn(data))) else None
  {
    hide ParseLogin, NewClient, Total, Number;
    var data := incoming.data;
    var parsed := ParseLogin(env, data);
    if parsed.Some? {
      ParseLoginExactly(env, data, parsed.value);
      NameIsInBody(data);
    }
    if |data| >= 136 {
      NameIsInBody(data);
      ParseLoginExactly(env, data, NamedIn(data));
    }
  }

  lemma NameIsInBody(data: seq<byte>)
    requires |data| >= 136
    ensures data[28..120][12..16] == data[40..44]
  {
  }

  lemma LoginHoldsInner(env: Env, data: seq<byte>)
    requires |data| >= 136 && IsLogin(env, data, NamedIn(data))
    ensures HoldsInner(data) && KindOf(InnerHeader(data)) == LOGIN && UnitsOf(InnerHeader(data)) as int == 23
  {
    hide HeaderOf, KindOf, UnitsOf, Total, Number, Uint32;
    var body := data[28..120];
    assert data[28..30][0] == body[0] && data[28..30][1] == body[1];
    HeaderIsLogin(data[28..30]);
  }

  lemma LoginForwarded(env: Env, addr: string, c: Client, data: seq<byte>)
    requires |data| >= 136 && IsLogin(env, data, NamedIn(data)) && HoldsInner(data)
    ensures Carries(ForwardInner(addr, c, data), addr, c, 0x0A, Uint16(data[30..32]), data[28..120])
  {
    hide HeaderOf, KindOf, UnitsOf, Total, Number, Uint32, Uint16, HoldsInner;
    LoginHoldsInner(env, data);
    ForwardCarries(addr, c, LOGIN, Uint16(data[30..32]), data[28..120]);
  }

  /** What a datagram from an address with a session does to the session table. */
  lemma NotesExactly(env: Env, codec: Tabled, s: State, incoming: Incoming)
    requires incoming.addr in s.clients
    ensures var c, data := s.clients[incoming.addr], incoming.data;
            Handle(env, codec, s, incoming).clients ==
            if incoming.length < 44 || !HoldsInner(data) then s.clients
            else
              var ack := Uint16(data[2..4]);
              s.clients[incoming.addr := Client(c.character, data[..28], Uint16(data[0..2]),
                                                if ack > c.serverID then ack else c.serverID, c.cipher)]
  {
    hide HeaderOf, KindOf, UnitsOf, Uint16, ForwardsOfEncrypted, Admitted;
  }

  /** The shape of every step: at most one session entry touched, and forwards for its address only. */
  lemma HandleShape(env: Env, codec: Tabled, s: State, incoming: Incoming) returns (c: Client, more: seq<Routed>)
    ensures var r := Handle(env, codec, s, incoming);
            || (r == s && more == [])
            || (&& r == State(s.clients[incoming.addr := c], s.forwards + more)
                && (forall i :: 0 <= i < |more| ==>
                    more[i].clientAddr == incoming.addr && more[i].characterID == CharacterOf(c))
                && (if incoming.addr in s.clients
                    then c.character == s.clients[incoming.addr].character
                      && c.cipher == s.clients[incoming.addr].cipher
                         && c.serverID >= s.clients[incoming.addr].serverID
                    else |more| == 1 && more[0].packet.kind == LOGIN
                         && Created(env, incoming, incoming.addr, c, more[0])))
  {
    hide ParseLogin, NewClient, Receive, Dispatch, HeaderOf, KindOf, UnitsOf, Uint16, Creates, CreatedClient, Admitted;
    c, more := Client(None, [], 0, 0, None), [];
    var r := Handle(env, codec, s, incoming);
    if incoming.addr !in s.clients {
      CreatesExactly(env, codec, s, incoming);
      if Creates(env, incoming) {
        c, more := CreatedClient(env, incoming), r.forwards[|s.forwards|..];
        assert r.forwards == r.forwards[..|s.forwards|] + more;
        assert more == [r.forwards[|s.forwards|]];
      }
    } else if Acceptable(incoming) {
      var data := incoming.data;
      c := Noted(s.clients[incoming.addr], data);
      more := if KindOf(InnerHeader(data)) == LOGIN then []
              else ForwardsOfEncrypted(env, codec, incoming.addr, c, data);
    }
  }

  lemma GateStep(env: Env, codec: Tabled, s: State, incoming: Incoming)
    requires GateHolds(s)
    ensures GateHolds(Handle(env, codec, s, incoming)) && SessionsKept(s, Handle(env, codec, s, incoming))
  {
    hide Handle, HoldsAt, Admitted, Noted, CharacterOf, Created;
    var c, more := HandleShape(env, codec, s, incoming);
    var r := Handle(env, codec, s, incoming);
    if r != s {
      forall addr
        ensures HoldsAt(r, addr)
      {
        GateStepAt(s, c, incoming.addr, more, addr);
      }
    }
  }

  lemma GateStepAt(s: State, c: Client, addr: string, more: seq<Routed>, other: string)
    requires HoldsAt(s, other)
    requires forall i :: 0 <= i < |more| ==> more[i].clientAddr == addr && more[i].characterID == CharacterOf(c)
    requires if addr in s.clients then c.character == s.clients[addr].character
             else more != [] && more[0].packet.kind == LOGIN
    ensures HoldsAt(State(s.clients[addr := c], s.forwards + more), other)
  {
    hide ForwardsTo;
    ForwardsToConcat(s.forwards, more, other);
    ForwardsToAll(more, addr, other);
    assert ForwardsTo(s.forwards, other) + [] == ForwardsTo(s.forwards, other);
    if other == addr && addr !in s.clients {
      assert ForwardsTo(s.forwards, other) + more == more;
    }
  }

  lemma {:induction false} GateKept(env: Env, codec: Tabled, s: State, run: seq<Incoming>)
    requires GateHolds(s)
    ensures GateHolds(HandleAll(env, codec, s, run)) && SessionsKept(s, HandleAll(env, codec, s, run))
    decreases |run|
  {
    hide GateHolds, Handle;
    if run != [] {
      GateStep(env, codec, s, run[0]);
      GateKept(env, codec, Handle(env, codec, s, run[0]), run[1..]);
    }
  }

  /**
   The session gate: over every run of datagrams, the first packet forwarded for
   an address is the login that created its session, the session is never
   replaced, and all its packets carry the same character.
   */
  lemma GateOverRuns(env: Env, codec: Tabled, s: State, run: seq<Incoming>)
    requires GateHolds(s)
    ensures var after := HandleAll(env, codec, s, run);
            && GateHolds(after) && SessionsKept(s, after)
            && forall addr :: addr in after.clients && addr !in s.clients ==>
                 && ForwardsTo(after.forwards, addr) != []
                 && exists i :: 0 <= i < |run|
                      && Created(env, run[i], addr, after.clients[addr], ForwardsTo(after.forwards, addr)[0])
  {
    hide Handle, HandleAll, Created, ForwardsTo, Orderly, SessionsKept;
    var after := HandleAll(env, codec, s, run);
    GateKept(env, codec, s, run);
    forall addr | addr in after.clients && addr !in s.clients
      ensures ForwardsTo(after.forwards, addr) != []
      ensures exists i :: 0 <= i < |run|
                && Created(env, run[i], addr, after.clients[addr], ForwardsTo(after.forwards, addr)[0])
    {
      assert HoldsAt(s, addr);
      SessionsComeFromLogins(env, codec, s, run, addr);
    }
  }

  lemma EmptyGateHolds()
    ensures GateHolds(EMPTY)
  {
  }

  lemma ForwardsToPrefix(a: seq<Routed>, b: seq<Routed>, addr: string)
    requires a <= b
    ensures ForwardsTo(a, addr) <= ForwardsTo(b, addr)
  {
    ForwardsToConcat(a, b[|a|..], addr);
    assert b == a + b[|a|..];
  }

  /**
   No session without an admitted login: a session that a run adds was created
   by a login of that run, and the next packet forwarded for its address is
   that very login.
   */
  lemma {:induction false} SessionsComeFromLogins(env: Env, codec: Tabled, s: State, run: seq<Incoming>, addr: string)
    requires addr !in s.clients && addr in HandleAll(env, codec, s, run).clients
    ensures var after := HandleAll(env, codec, s, run);
            var before, mine := ForwardsTo(s.forwards, addr), ForwardsTo(after.forwards, addr);
            && before < mine
            && exists i :: 0 <= i < |run| && Created(env, run[i], addr, after.clients[addr], mine[|before|])
    decreases |run|
  {
    hide Handle, Created, ForwardsTo;
    if run != [] {
      var next := Handle(env, codec, s, run[0]);
      var c, more := HandleShape(env, codec, s, run[0]);
      ForwardsToConcat(s.forwards, more, addr);
      ForwardsToAll(more, run[0].addr, addr);
      if addr in next.clients {
        var after := HandleAll(env, codec, s, run);
        KeptOverRuns(env, codec, next, run[1..]);
        ForwardsToPrefix(next.forwards, after.forwards, addr);
        CreatedStays(env, run[0], addr, c, after.clients[addr], more[0]);
        assert ForwardsTo(after.forwards, addr)[|ForwardsTo(s.forwards, addr)|] == more[0];
      } else {
        assert ForwardsTo(s.forwards, addr) + [] == ForwardsTo(s.forwards, addr);
        SessionsComeFromLogins(env, codec, next, run[1..], addr);
        var after := HandleAll(env, codec, s, run);
        var login := ForwardsTo(after.forwards, addr)[|ForwardsTo(s.forwards, addr)|];
        var i :| 0 <= i < |run[1..]| && Created(env, run[1..][i], addr, after.clients[addr], login);
        assert run[i + 1] == run[1..][i];
      }
    }
  }

  /** `Created` looks at a session only for what never changes. */
  lemma CreatedStays(env: Env, incoming: Incoming, addr: string, c: Client, later: Client, login: Routed)
    requires Created(env, incoming, addr, c, login) && later.character == c.character && later.cipher == c.cipher
    ensures Created(env, incoming, addr, later, login)
  {
  }

  lemma {:induction false} KeptOverRuns(env: Env, codec: Tabled, s: State, run: seq<Incoming>)
    ensures SessionsKept(s, HandleAll(env, codec, s, run))
    decreases |run|
  {
    hide Handle, Admitted, Noted, Created;
    if run != [] {
      var c, more := HandleShape(env, codec, s, run[0]);
      KeptOverRuns(env, codec, Handle(env, codec, s, run[0]), run[1..]);
    }
  }

  /**
   From the empty table: an address with a session has had forwarded first the
   login that created that session, and everything in the name of that login's
   character; an address without one has had nothing forwarded.
   */
  lemma GateFromEmpty(env: Env, codec: Tabled, run: seq<Incoming>, addr: string)
    ensures var after := HandleAll(env, codec, EMPTY, run);
            var mine := ForwardsTo(after.forwards, addr);
            if addr in after.clients then
              && mine != []
              && (exists i :: 0 <= i < |run| && Created(env, run[i], addr, after.clients[addr], mine[0]))
              && (forall i :: 0 <= i < |mine| ==> mine[i].characterID == CharacterOf(after.clients[addr]))
            else mine == []
  {
    hide Handle, HandleAll, Created, CharacterOf, ForwardsTo;
    EmptyGateHolds();
    GateOverRuns(env, codec, EMPTY, run);
    assert HoldsAt(HandleAll(env, codec, EMPTY, run), addr);
  }
}
