/**
 The wire: the bytes of a burst's datagrams, when each of them gets through, and
 how the entries for one address record the history of its channel.
 */
module Wire {
  import opened Bytes
  import opened CodecSpec
  import opened CipherSpec
  import opened Packing
  import opened Framing
  import opened Protocol

  // ---------------------------------------------------------------- datagrams as bytes

  /** The datagram for a payload, given the state of the codec. */
  ghost function WrapWith(env: Env, initErr: Option<CompressError>, enc: EncodeTable, link: Link, payload: seq<byte>,
                          id: uint16, now: word): Wrapped
    requires ValidLink(link) && 2 * |payload| + 64 <= MAX_BUFFER
  {
    if payload != []
      && initErr.Some? then Refused(CompressFailed(initErr.value)) else Wrap(env, enc, link, payload, id, now)
  }

  /** The bytes of consecutive datagrams for consecutive batches of packets, numbered on from `id`. */
  ghost function DatagramsFor(env: Env, enc: EncodeTable, link: Link, addr: string, batches: seq<seq<Routed>>,
                              id: uint16, clock: nat -> word, tick: nat): seq<(string, seq<byte>)>
    requires ValidLink(link)
  {
    if batches == [] then []
    else
      var n := |batches| - 1;
      DatagramsFor(env, enc, link, addr, batches[..n], id, clock, tick)
      + [(addr, DatagramFor(env, enc, link, batches[n], Later(id, n + 1), clock(tick + n)))]
  }

  lemma DatagramsStart(env: Env, enc: EncodeTable, link: Link, addr: string, id: uint16, clock: nat -> word, tick: nat)
    requires ValidLink(link)
    ensures DatagramsFor(env, enc, link, addr, [], id, clock, tick) == []
  {
  }

  lemma DatagramsNext(env: Env, enc: EncodeTable, link: Link, addr: string, sent: seq<seq<Routed>>, batch: seq<Routed>,
                      id: uint16, clock: nat -> word, tick: nat)
    requires ValidLink(link)
    ensures DatagramsFor(env, enc, link, addr, sent + [batch], id, clock, tick)
         == DatagramsFor(env, enc, link, addr, sent, id, clock, tick)
            + [(addr, DatagramFor(env, enc, link, batch, Later(id, |sent| + 1), clock(tick + |sent|)))]
  {
    hide DatagramFor, Later;
    assert (sent + [batch])[..|sent|] == sent;
  }

  ghost function DatagramFor(env: Env, enc: EncodeTable, link: Link, packets: seq<Routed>, id: uint16,
                             now: word): seq<byte>
    requires ValidLink(link)
  {
    var payload := Payload(packets, id);
    if 2 * |payload| + 64 > MAX_BUFFER then []
    else
      var w := Wrap(env, enc, link, payload, id, now);
      if w.Wrapped? then w.packet else []
  }

  /** A payload gets a datagram exactly if it is not empty and the codec takes it the normal way. */
  ghost predicate GoesThrough(initErr: Option<CompressError>, enc: EncodeTable, packets: seq<Routed>, id: uint16) {
    var payload := Payload(packets, id);
    && initErr == None && payload != []
    && 2 * |payload| + 64 <= MAX_BUFFER && TakesNormalPath(enc, payload, Zeros(2 * |payload| + 64))
  }

  lemma WrappedExactly(env: Env, initErr: Option<CompressError>, enc: EncodeTable, link: Link, packets: seq<Routed>,
                       id: uint16, now: word)
    requires ValidLink(link) && |Payload(packets, id)| <= MAX_PAYLOAD
    ensures var w := WrapWith(env, initErr, enc, link, Payload(packets, id), id, now);
            && (w.Wrapped? <==> GoesThrough(initErr, enc, packets, id))
            && (w.Wrapped? ==> w.packet == DatagramFor(env, enc, link, packets, id, now))
  {
    hide Payload, Plain, Ciphered, CompressInto, TakesNormalPath;
  }

  /** A datagram shows its number, the clock and the rest of the session's header in the clear. */
  lemma DatagramShowsNumber(env: Env, initErr: Option<CompressError>, enc: EncodeTable, link: Link,
                            packets: seq<Routed>, id: uint16, now: word)
    requires ValidLink(link) && GoesThrough(initErr, enc, packets, id)
    ensures var bytes := DatagramFor(env, enc, link, packets, id, now);
            ShowsHeader(bytes, link, id, now) && Uint16(bytes[0..2]) == id
  {
    hide Payload, Plain, Ciphered, CompressInto, TakesNormalPath, PutUint16, Uint16, Trimmed, Unwrap, PutUint32,
      PutWord;
    UnwrapWrap(env, enc, link, Payload(packets, id), id, now);
    Uint16RoundTrip(id);
  }

  // ---------------------------------------------------------------- the wire as one address sees it

  type SessionLink = link: Link | ValidLink(link) witness Link(Zeros(HEADER_SIZE), 0, None)

  /** What the session and the clock contributed to a datagram. */
  datatype Stamp = Stamp(link: SessionLink, now: word)

  function WireTo(wire: seq<(string, seq<byte>)>, addr: string): seq<seq<byte>> {
    if wire == [] then []
    else
      var before, last := WireTo(wire[..|wire| - 1], addr), wire[|wire| - 1];
      if last.0 == addr then before + [last.1] else before
  }

  lemma {:induction false} WireToConcat(a: seq<(string, seq<byte>)>, b: seq<(string, seq<byte>)>, addr: string)
    ensures WireTo(a + b, addr) == WireTo(a, addr) + WireTo(b, addr)
    decreases |b|
  {
    if b == [] {
      assert a + b == a;
    } else {
      var front := b[..|b| - 1];
      assert (a + b)[..|a + b| - 1] == a + front;
      WireToConcat(a, front, addr);
    }
  }

  /** The entry is the encoding of the datagram, and shows its number. */
  ghost predicate Encodes(env: Env, enc: EncodeTable, stamp: Stamp, d: Datagram, entry: seq<byte>) {
    && entry == DatagramFor(env, enc, stamp.link, d.packets, d.id, stamp.now)
    && |entry| >= HEADER_SIZE && Uint16(entry[0..2]) == d.id
  }

  /** Behind what was there before, the entries are the encodings of the datagrams, one for one and in order. */
  ghost predicate Logs(env: Env, enc: EncodeTable, base: nat, entries: seq<seq<byte>>, stamps: seq<Stamp>,
                       datagrams: seq<Datagram>) {
    && |stamps| == |datagrams| && |entries| == base + |datagrams|
    && forall k :: 0 <= k < |datagrams| ==> Encodes(env, enc, stamps[k], datagrams[k], entries[base + k])
  }

  lemma LogsMore(env: Env, enc: EncodeTable, base: nat, entries: seq<seq<byte>>, stamps: seq<Stamp>,
                 datagrams: seq<Datagram>, moreEntries: seq<seq<byte>>, moreStamps: seq<Stamp>, more: seq<Datagram>)
    requires Logs(env, enc, base, entries, stamps, datagrams) && Logs(env, enc, 0, moreEntries, moreStamps, more)
    ensures Logs(env, enc, base, entries + moreEntries, stamps + moreStamps, datagrams + more)
  {
    hide Encodes;
  }

  ghost function StampsFor(link: SessionLink, clock: nat -> word, tick: nat, n: nat): (r: seq<Stamp>)
    ensures |r| == n
  {
    seq(n, i requires 0 <= i < n => Stamp(link, clock(tick + i)))
  }

  /** Consecutive datagrams seen from their own address, and from any other. */
  lemma {:induction false} DatagramsTo(env: Env, initErr: Option<CompressError>, enc: EncodeTable, link: SessionLink,
                                       addr: string,
                                       batches: seq<seq<Routed>>, id: uint16, clock: nat -> word, tick: nat,
                                         other: string)
    requires forall i :: 0 <= i < |batches| ==> GoesThrough(initErr, enc, batches[i], Later(id, i + 1))
    ensures var entries := WireTo(DatagramsFor(env, enc, link, addr, batches, id, clock, tick), other);
            if other != addr then entries == []
            else
              && |entries| == |batches|
              && forall i :: 0 <= i < |batches| ==>
                   && entries[i] == DatagramFor(env, enc, link, batches[i], Later(id, i + 1), clock(tick + i))
                   && |entries[i]| >= HEADER_SIZE && Uint16(entries[i][0..2]) == Later(id, i + 1)
  {
    hide GoesThrough, DatagramFor, DatagramsFor, Later, Uint16, WireTo;
    if batches == [] {
      DatagramsStart(env, enc, link, addr, id, clock, tick);
      NothingTo(other);
    } else {
      var n := |batches| - 1;
      var front := batches[..n];
      DatagramsTo(env, initErr, enc, link, addr, front, id, clock, tick, other);
      DatagramShowsNumber(env, initErr, enc, link, batches[n], Later(id, n + 1), clock(tick + n));
      assert batches == front + [batches[n]];
      DatagramsNext(env, enc, link, addr, front, batches[n], id, clock, tick);
      OneTo(DatagramsFor(env, enc, link, addr, front, id, clock, tick), addr,
            DatagramFor(env, enc, link, batches[n], Later(id, n + 1), clock(tick + n)), other);
    }
  }

  lemma NothingTo(addr: string)
    ensures WireTo([], addr) == []
  {
  }

  lemma OneTo(wire: seq<(string, seq<byte>)>, addr: string, bytes: seq<byte>, other: string)
    ensures WireTo(wire + [(addr, bytes)], other) == WireTo(wire, other) + if other == addr then [bytes] else []
  {
    assert (wire + [(addr, bytes)])[..|wire|] == wire;
  }

  /** A burst's datagrams on the wire log the events they enter into the history. */
  lemma BurstLogs(env: Env, initErr: Option<CompressError>, enc: EncodeTable, link: SessionLink, addr: string,
                  batches: seq<seq<Routed>>, id: uint16, place: nat, clock: nat -> word, tick: nat)
    requires forall i :: 0 <= i < |batches| ==> GoesThrough(initErr, enc, batches[i], Later(id, i + 1))
    ensures Logs(env, enc, 0, WireTo(DatagramsFor(env, enc, link, addr, batches, id, clock, tick), addr),
                 StampsFor(link, clock, tick, |batches|), SentOf(SentEvents(id, place, batches)))
  {
    hide GoesThrough, DatagramFor, DatagramsFor, Later, Uint16, SentEvents, SentOf, WireTo;
    DatagramsTo(env, initErr, enc, link, addr, batches, id, clock, tick, addr);
    SentOfEvents(id, place, batches);
  }

  // ---------------------------------------------------------------- bursts one after the other

  /** The i-th datagram of a cut is accepted by the codec and by the network. */
  ghost predicate OneGoesThrough(initErr: Option<CompressError>, enc: EncodeTable, accepts: nat -> bool,
                                 batches: seq<seq<Routed>>, id: uint16, tick: nat, i: nat)
    requires i < |batches|
  {
    accepts(tick + i) && GoesThrough(initErr, enc, batches[i], Later(id, i + 1))
  }

  ghost predicate AllGoThrough(initErr: Option<CompressError>, enc: EncodeTable, accepts: nat -> bool,
                               batches: seq<seq<Routed>>, id: uint16, tick: nat) {
    forall i :: 0 <= i < |batches| ==> OneGoesThrough(initErr, enc, accepts, batches, id, tick, i)
  }

  lemma LaterLater(id: uint16, m: nat, n: nat)
    ensures Later(Later(id, m), n) == Later(id, m + n)
  {
    assert ((id + m) % TWO_TO_THE_16 + n) % TWO_TO_THE_16 == (id + m + n) % TWO_TO_THE_16;
  }

  lemma AllGoThroughConcat(initErr: Option<CompressError>, enc: EncodeTable, accepts: nat -> bool,
                           a: seq<seq<Routed>>, b: seq<seq<Routed>>, id: uint16, tick: nat)
    ensures AllGoThrough(initErr, enc, accepts, a + b, id, tick)
       <==> && AllGoThrough(initErr, enc, accepts, a, id, tick)
            && AllGoThrough(initErr, enc, accepts, b, Later(id, |a|), tick + |a|)
  {
    hide OneGoesThrough;
    var idB, tickB := Later(id, |a|), tick + |a|;
    if AllGoThrough(initErr, enc, accepts, a + b, id, tick) {
      forall i | 0 <= i < |a|
        ensures OneGoesThrough(initErr, enc, accepts, a, id, tick, i)
      {
        OneInFront(initErr, enc, accepts, a, b, id, tick, i);
      }
      forall i | 0 <= i < |b|
        ensures OneGoesThrough(initErr, enc, accepts, b, idB, tickB, i)
      {
        OneBehind(initErr, enc, accepts, a, b, id, tick, i);
      }
    }
    if AllGoThrough(initErr, enc, accepts, a, id, tick) && AllGoThrough(initErr, enc, accepts, b, idB, tickB) {
      forall i | 0 <= i < |a + b|
        ensures OneGoesThrough(initErr, enc, accepts, a + b, id, tick, i)
      {
        if i < |a| {
          OneInFront(initErr, enc, accepts, a, b, id, tick, i);
        } else {
          OneBehind(initErr, enc, accepts, a, b, id, tick, i - |a|);
        }
      }
    }
  }

  lemma OneInFront(initErr: Option<CompressError>, enc: EncodeTable, accepts: nat -> bool,
                   a: seq<seq<Routed>>, b: seq<seq<Routed>>, id: uint16, tick: nat, i: nat)
    requires i < |a|
    ensures OneGoesThrough(initErr, enc, accepts, a + b, id, tick, i)
      == OneGoesThrough(initErr, enc, accepts, a, id, tick, i)
  {
    hide GoesThrough, Later;
  }

  lemma OneBehind(initErr: Option<CompressError>, enc: EncodeTable, accepts: nat -> bool,
                  a: seq<seq<Routed>>, b: seq<seq<Routed>>, id: uint16, tick: nat, i: nat)
    requires i < |b|
    ensures OneGoesThrough(initErr, enc, accepts, a + b, id, tick, |a| + i)
         == OneGoesThrough(initErr, enc, accepts, b, Later(id, |a|), tick + |a|, i)
  {
    hide GoesThrough, Later;
    LaterLater(id, |a|, i + 1);
  }

  lemma {:induction false} DatagramsForConcat(env: Env, enc: EncodeTable, link: Link, addr: string, a: seq<seq<Routed>>,
                                              b: seq<seq<Routed>>, id: uint16, clock: nat -> word, tick: nat)
    requires ValidLink(link)
    ensures DatagramsFor(env, enc, link, addr, a + b, id, clock, tick)
         == DatagramsFor(env, enc, link, addr, a, id, clock, tick)
            + DatagramsFor(env, enc, link, addr, b, Later(id, |a|), clock, tick + |a|)
    decreases |b|
  {
    hide DatagramFor, DatagramsFor, Later;
    if b == [] {
      assert a + b == a;
      DatagramsStart(env, enc, link, addr, Later(id, |a|), clock, tick + |a|);
    } else {
      var n := |b| - 1;
      assert b == b[..n] + [b[n]];
      Associative(a, b[..n], [b[n]]);
      DatagramsForConcat(env, enc, link, addr, a, b[..n], id, clock, tick);
      DatagramsNext(env, enc, link, addr, a + b[..n], b[n], id, clock, tick);
      DatagramsNext(env, enc, link, addr, b[..n], b[n], Later(id, |a|), clock, tick + |a|);
      LaterLater(id, |a|, n + 1);
    }
  }

  /** The wire for an address after one more burst to it logs the longer history. */
  lemma BurstIsLogged(env: Env, initErr: Option<CompressError>, enc: EncodeTable, accepts: nat -> bool,
                      link: SessionLink,
                      addr: string, batches: seq<seq<Routed>>, id: uint16, place: nat, clock: nat -> word, tick: nat,
                      base: nat, wire: seq<(string, seq<byte>)>, stamps: seq<Stamp>, history: seq<Event>)
    requires AllGoThrough(initErr, enc, accepts, batches, id, tick)
    requires Logs(env, enc, base, WireTo(wire, addr), stamps, SentOf(history))
    ensures Logs(env, enc, base, WireTo(wire + DatagramsFor(env, enc, link, addr, batches, id, clock, tick), addr),
                 stamps + StampsFor(link, clock, tick, |batches|), SentOf(history + SentEvents(id, place, batches)))
  {
    hide GoesThrough, DatagramsFor, Later, SentEvents, SentOf, WireTo, Logs, StampsFor;
    var more := DatagramsFor(env, enc, link, addr, batches, id, clock, tick);
    forall i | 0 <= i < |batches|
      ensures GoesThrough(initErr, enc, batches[i], Later(id, i + 1))
    {
      assert OneGoesThrough(initErr, enc, accepts, batches, id, tick, i);
    }
    BurstLogs(env, initErr, enc, link, addr, batches, id, place, clock, tick);
    WireToConcat(wire, more, addr);
    SentOfConcat(history, SentEvents(id, place, batches));
    LogsMore(env, enc, base, WireTo(wire, addr), stamps, SentOf(history),
             WireTo(more, addr), StampsFor(link, clock, tick, |batches|), SentOf(SentEvents(id, place, batches)));
  }

  /** No other address sees a burst. */
  lemma BurstElsewhere(env: Env, initErr: Option<CompressError>, enc: EncodeTable, accepts: nat -> bool,
                       link: SessionLink,
                       addr: string, batches: seq<seq<Routed>>, id: uint16, clock: nat -> word, tick: nat,
                       wire: seq<(string, seq<byte>)>, other: string)
    requires AllGoThrough(initErr, enc, accepts, batches, id, tick) && other != addr
    ensures WireTo(wire + DatagramsFor(env, enc, link, addr, batches, id, clock, tick), other) == WireTo(wire, other)
  {
    hide GoesThrough, DatagramsFor, Later, WireTo, DatagramFor, Uint16;
    forall i | 0 <= i < |batches|
      ensures GoesThrough(initErr, enc, batches[i], Later(id, i + 1))
    {
      assert OneGoesThrough(initErr, enc, accepts, batches, id, tick, i);
    }
    DatagramsTo(env, initErr, enc, link, addr, batches, id, clock, tick, other);
    WireToConcat(wire, DatagramsFor(env, enc, link, addr, batches, id, clock, tick), other);
    assert WireTo(wire, other) + [] == WireTo(wire, other);
  }

  /** One more datagram of a cut. */
  lemma NextGoesThrough(initErr: Option<CompressError>, enc: EncodeTable, accepts: nat -> bool,
                        sent: seq<seq<Routed>>, batch: seq<Routed>, rest: seq<seq<Routed>>, id: uint16, tick: nat)
    ensures AllGoThrough(initErr, enc, accepts, sent + [batch], id, tick)
       <==> && AllGoThrough(initErr, enc, accepts, sent, id, tick)
            && accepts(tick + |sent|) && GoesThrough(initErr, enc, batch, Later(id, |sent| + 1))
    ensures AllGoThrough(initErr, enc, accepts, sent + [batch] + rest, id, tick)
        ==> AllGoThrough(initErr, enc, accepts, sent + [batch], id, tick)
  {
    hide GoesThrough, Later;
    var longer := sent + [batch];
    AllGoThroughConcat(initErr, enc, accepts, longer, rest, id, tick);
    AllGoThroughConcat(initErr, enc, accepts, sent, [batch], id, tick);
    LaterLater(id, |sent|, 1);
    assert AllGoThrough(initErr, enc, accepts, [batch], Later(id, |sent|), tick + |sent|)
      <==> OneGoesThrough(initErr, enc, accepts, [batch], Later(id, |sent|), tick + |sent|, 0);
  }

  /** Short codes let every datagram within the budget through, if the network does. */
  lemma ShortCodesGoThrough(enc: EncodeTable, accepts: nat -> bool, batches: seq<seq<Routed>>, id: uint16, tick: nat)
    requires forall b: byte :: HasCode(enc, b) && CodeLength(enc, b) <= 16
    requires forall n :: accepts(n)
    requires forall i :: 0 <= i < |batches| ==> batches[i] != [] && Sum(Lengths(batches[i])) <= MAX_PAYLOAD
    ensures AllGoThrough(None, enc, accepts, batches, id, tick)
  {
    hide Payload, HasCode, CodeLength, Later, CompressInto, TakesNormalPath, Lengths;
    forall i | 0 <= i < |batches|
      ensures OneGoesThrough(None, enc, accepts, batches, id, tick, i)
    {
      var batch, number := batches[i], Later(id, i + 1);
      PayloadLength(batch, number);
      PayloadNotEmpty(batch, number);
      RouterBufferSuffices(enc, Payload(batch, number), Zeros(2 * |Payload(batch, number)| + 64));
    }
  }
}
