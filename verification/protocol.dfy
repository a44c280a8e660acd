/**
 One client address as a state machine: its queue, the batch being sent, the
 server sequence number, and the history of what reached the wire.  The steps
 interleave freely, except that one goroutine flushes and so at most one batch
 is in flight.
 */
module Protocol {
  import opened Bytes
  import opened Packing
  import opened Framing

  /** A datagram on the wire, with the place of its first packet among all packets ever enqueued. */
  datatype Datagram = Datagram(id: uint16, place: nat, packets: seq<Routed>)

  datatype Event = Sent(datagram: Datagram) | Acked(number: uint16)

  datatype Flight = Idle | Flying(batch: seq<Routed>, sent: nat)

  datatype Channel = Channel(
    queue: seq<Routed>,
    flight: Flight,
    lastID: uint16,
    // what has happened so far
    enqueued: seq<Routed>,
    completed: seq<Routed>,
    history: seq<Event>,
    resent: nat,     // packets whose sending was in vain because their batch failed later
    wrapped: bool)   // the sequence number has passed 2^16 - 1

  const START := Channel([], Idle, 0, [], [], [], 0, false)

  datatype Action = Enqueue(packet: Routed) | Dequeue | Send | Fail | Finish | Ack(number: uint16)

  predicate Enabled(c: Channel, a: Action) {
    match a
    case Enqueue(_) => true
    case Dequeue => c.flight.Idle? && c.queue != []
    case Send => c.flight.Flying? && c.flight.sent < |c.flight.batch| && Taken(c.flight.batch[c.flight.sent..]) > 0
    case Fail => c.flight.Flying? && c.flight.sent < |c.flight.batch|
    case Finish => c.flight.Flying? && c.flight.sent == |c.flight.batch|
    case Ack(_) => true
  }

  function NextID(id: uint16): uint16 {
    (id + 1) % TWO_TO_THE_16
  }

  /** The number `n` sends after `id`. */
  function Later(id: uint16, n: nat): uint16 {
    (id + n) % TWO_TO_THE_16
  }

  lemma LaterByOne(id: uint16, n: nat)
    ensures Later(id, 0) == id
    ensures Later(id, n + 1) == NextID(Later(id, n))
    ensures Later(NextID(id), n) == Later(id, n + 1)
  {
    assert ((id + n) % TWO_TO_THE_16 + 1) % TWO_TO_THE_16 == (id + n + 1) % TWO_TO_THE_16;
    assert ((id + 1) % TWO_TO_THE_16 + n) % TWO_TO_THE_16 == (id + n + 1) % TWO_TO_THE_16;
  }

  /** The datagram that the next send puts on the wire. */
  function NextDatagram(c: Channel): Datagram
    requires Enabled(c, Send)
  {
    var rest := c.flight.batch[c.flight.sent..];
    Datagram(NextID(c.lastID), |c.completed| + c.flight.sent, rest[..Taken(rest)])
  }

  function Step(c: Channel, a: Action): Channel
    requires Enabled(c, a)
  {
    match a
    case Enqueue(p) => c.(queue := c.queue + [p], enqueued := c.enqueued + [p])
    case Dequeue => c.(queue := [], flight := Flying(c.queue, 0))
    case Send =>
      var d := NextDatagram(c);
      c.(flight := Flying(c.flight.batch, c.flight.sent + |d.packets|), lastID := d.id,
         history := c.history + [Sent(d)], wrapped := c.wrapped || d.id == 0)
    case Fail => c.(queue := c.flight.batch + c.queue, flight := Idle, resent := c.resent + c.flight.sent)
    case Finish => c.(flight := Idle, completed := c.completed + c.flight.batch)
    case Ack(n) => c.(lastID := if n > c.lastID then n else c.lastID, history := c.history + [Acked(n)])
  }

  // ---------------------------------------------------------------- runs

  predicate CanRun(c: Channel, actions: seq<Action>)
    decreases |actions|
  {
    actions == [] || (Enabled(c, actions[0]) && CanRun(Step(c, actions[0]), actions[1..]))
  }

  function Run(c: Channel, actions: seq<Action>): Channel
    requires CanRun(c, actions)
    decreases |actions|
  {
    if actions == [] then c else Run(Step(c, actions[0]), actions[1..])
  }

  lemma {:induction false} RunThen(c: Channel, a: seq<Action>, b: seq<Action>)
    requires CanRun(c, a) && CanRun(Run(c, a), b)
    ensures CanRun(c, a + b) && Run(c, a + b) == Run(Run(c, a), b)
    decreases |a|
  {
    hide Step, Enabled;
    if a == [] {
      assert a + b == b;
    } else {
      RunThen(Step(c, a[0]), a[1..], b);
      assert (a + b)[0] == a[0] && (a + b)[1..] == a[1..] + b;
    }
  }

  // ---------------------------------------------------------------- the invariant

  function InFlight(c: Channel): seq<Routed> {
    match c.flight
    case Idle => []
    case Flying(batch, _) => batch
  }

  /** How far into the stream of enqueued packets the channel has got in its current attempt. */
  function Progress(c: Channel): nat {
    |c.completed| + if c.flight.Flying? then c.flight.sent else 0
  }

  /** Nothing is lost, duplicated or reordered between arrival and completion. */
  predicate Conserved(c: Channel) {
    && c.enqueued == c.completed + InFlight(c) + c.queue
    && (c.flight.Flying? ==> c.flight.batch != [] && c.flight.sent <= |c.flight.batch|)
  }

  /** How many of the enqueued packets have been on the wire at least once. */
  function Reach(history: seq<Event>): nat {
    if history == [] then 0
    else
      var before := Reach(history[..|history| - 1]);
      match history[|history| - 1]
      case Acked(_) => before
      case Sent(d) => if d.place + |d.packets| > before then d.place + |d.packets| else before
  }

  /** Every datagram is a bounded, non-empty stretch of the stream and starts no later than what was sent before it. */
  ghost predicate WireIsFaithful(history: seq<Event>, enqueued: seq<Routed>) {
    forall i :: 0 <= i < |history| && history[i].Sent? ==> Faithful(history[i].datagram, Reach(history[..i]), enqueued)
  }

  ghost predicate Faithful(d: Datagram, reach: nat, enqueued: seq<Routed>) {
    && d.packets != [] && Sum(Lengths(d.packets)) <= MAX_PAYLOAD
    && d.place <= reach
    && d.place + |d.packets| <= |enqueued| && d.packets == enqueued[d.place..d.place + |d.packets|]
  }

  function Number(e: Event): uint16 {
    match e
    case Sent(d) => d.id
    case Acked(n) => n
  }

  /** A sent number exceeds every number, sent or acknowledged, before it. */
  ghost predicate NumbersGrow(history: seq<Event>, lastID: uint16) {
    && (forall i :: 0 <= i < |history| ==> Number(history[i]) <= lastID)
    && (forall i, j :: 0 <= i < j < |history| && history[j].Sent? ==> Number(history[i]) < history[j].datagram.id)
  }

  function WirePackets(history: seq<Event>): seq<Routed> {
    if history == [] then []
    else
      var before := WirePackets(history[..|history| - 1]);
      match history[|history| - 1]
      case Acked(_) => before
      case Sent(d) => before + d.packets
  }

  /** A number was sent that does not exceed one before it. */
  ghost predicate Overtaken(history: seq<Event>) {
    exists i, j :: 0 <= i < j < |history| && history[j].Sent? && Number(history[i]) >= history[j].datagram.id
  }

  /** The last number is in the history, and a wrap has left its mark there. */
  ghost predicate Tracks(c: Channel) {
    && (!c.wrapped && c.lastID != 0 ==> exists i :: 0 <= i < |c.history| && Number(c.history[i]) == c.lastID)
    && (c.wrapped ==> Overtaken(c.history))
  }

  ghost predicate Invariant(c: Channel) {
    && Conserved(c)
    && WireIsFaithful(c.history, c.enqueued)
    && Progress(c) <= Reach(c.history) <= |c.enqueued|
    && (!c.wrapped ==> NumbersGrow(c.history, c.lastID)) && Tracks(c)
    && |WirePackets(c.history)| == Progress(c) + c.resent
    && (c.resent == 0 ==> WirePackets(c.history) == c.enqueued[..Progress(c)])
  }

  lemma StartIsInvariant()
    ensures Invariant(START)
  {
  }

  lemma ConservedStep(c: Channel, a: Action)
    requires Conserved(c) && Enabled(c, a)
    ensures Conserved(Step(c, a))
  {
    match a
    case Enqueue(p) => assert c.completed + InFlight(c) + (c.queue + [p]) == c.completed + InFlight(c) + c.queue + [p];
    case Dequeue => assert c.completed + [] + c.queue == c.completed + c.queue + [];
    case Send =>
    case Fail => assert c.completed + [] + (c.flight.batch + c.queue) == c.completed + c.flight.batch + c.queue;
    case Finish => assert c.completed + c.flight.batch + [] + c.queue == c.completed + c.flight.batch + c.queue;
    case Ack(_) =>
  }

  lemma FaithfulGrows(history: seq<Event>, enqueued: seq<Routed>, p: Routed)
    requires WireIsFaithful(history, enqueued)
    ensures WireIsFaithful(history, enqueued + [p])
  {
    hide Reach, Lengths;
    forall i | 0 <= i < |history| && history[i].Sent?
      ensures Faithful(history[i].datagram, Reach(history[..i]), enqueued + [p])
    {
      var d := history[i].datagram;
      assert Faithful(d, Reach(history[..i]), enqueued);
      assert (enqueued + [p])[d.place..d.place + |d.packets|] == enqueued[d.place..d.place + |d.packets|];
    }
  }

  lemma FaithfulAppend(history: seq<Event>, enqueued: seq<Routed>, e: Event)
    requires WireIsFaithful(history, enqueued)
    requires e.Sent? ==> Faithful(e.datagram, Reach(history), enqueued)
    ensures WireIsFaithful(history + [e], enqueued)
    ensures Reach(history + [e]) == if e.Sent? && e.datagram.place + |e.datagram.packets| > Reach(history)
                                    then e.datagram.place + |e.datagram.packets| else Reach(history)
    ensures WirePackets(history + [e]) == WirePackets(history) + if e.Sent? then e.datagram.packets else []
  {
    hide Faithful;
    assert (history + [e])[..|history|] == history;
    forall i | 0 <= i < |history| + 1 && (history + [e])[i].Sent?
      ensures Faithful((history + [e])[i].datagram, Reach((history + [e])[..i]), enqueued)
    {
      if i < |history| {
        assert (history + [e])[..i] == history[..i];
      }
    }
  }

  lemma NumbersAppend(history: seq<Event>, lastID: uint16, e: Event)
    requires NumbersGrow(history, lastID)
    requires e.Sent? ==> e.datagram.id > lastID
    ensures NumbersGrow(history + [e], if Number(e) > lastID then Number(e) else lastID)
  {
  }

  lemma OvertakenStays(history: seq<Event>, e: Event)
    requires Overtaken(history)
    ensures Overtaken(history + [e])
  {
    var i, j :| 0 <= i < j < |history| && history[j].Sent? && Number(history[i]) >= history[j].datagram.id;
    var longer := history + [e];
    assert longer[i] == history[i] && longer[j] == history[j];
  }

  lemma TracksStep(c: Channel, a: Action)
    requires Tracks(c) && Enabled(c, a)
    ensures Tracks(Step(c, a))
  {
    hide Taken, Overtaken;
    if a.Send? || a.Ack? {
      var next, n := Step(c, a), |c.history|;
      var e := next.history[n];
      assert next.history == c.history + [e];
      if c.wrapped {
        OvertakenStays(c.history, e);
      } else if next.wrapped {
        WrapOvertakes(c, e);
      } else if next.lastID == c.lastID != 0 {
        var i :| 0 <= i < n && Number(c.history[i]) == c.lastID;
        assert Number(next.history[i]) == c.lastID;
      } else {
        assert next.lastID != 0 ==> Number(next.history[n]) == next.lastID;
      }
    }
  }

  lemma WrapOvertakes(c: Channel, e: Event)
    requires Tracks(c) && !c.wrapped && c.lastID == 0xFFFF && e.Sent? && e.datagram.id == 0
    ensures Overtaken(c.history + [e])
  {
    var i :| 0 <= i < |c.history| && Number(c.history[i]) == c.lastID;
    var longer, j := c.history + [e], |c.history|;
    assert longer[i] == c.history[i] && longer[j] == e;
  }

  /** What the next datagram carries is the stretch of the stream that comes next. */
  lemma SendIsFaithful(c: Channel)
    requires Conserved(c) && Enabled(c, Send) && Progress(c) <= Reach(c.history)
    ensures Faithful(NextDatagram(c), Reach(c.history), c.enqueued)
    ensures NextDatagram(c).place == Progress(c)
  {
    hide Reach;
    var d, rest := NextDatagram(c), c.flight.batch[c.flight.sent..];
    FitCountIsLargest(Lengths(rest), MAX_PAYLOAD, Taken(rest));
    assert Lengths(d.packets) == Lengths(rest)[..Taken(rest)];
    assert c.enqueued[d.place..d.place + |d.packets|] == d.packets;
  }

  lemma InvariantStep(c: Channel, a: Action)
    requires Invariant(c) && Enabled(c, a)
    ensures Invariant(Step(c, a))
  {
    hide WireIsFaithful, Reach, NumbersGrow, WirePackets, Faithful, Taken, Lengths, Tracks;
    ConservedStep(c, a);
    TracksStep(c, a);
    var next := Step(c, a);
    match a
    case Enqueue(p) =>
      FaithfulGrows(c.history, c.enqueued, p);
      assert next.enqueued[..Progress(c)] == c.enqueued[..Progress(c)];
    case Send =>
      var d := NextDatagram(c);
      SendIsFaithful(c);
      FaithfulFacts(d, Reach(c.history), c.enqueued);
      FaithfulAppend(c.history, c.enqueued, Sent(d));
      if !next.wrapped {
        NumbersAppend(c.history, c.lastID, Sent(d));
      }
      assert c.enqueued[..Progress(c)] + d.packets == c.enqueued[..Progress(next)];
    case Ack(n) =>
      FaithfulAppend(c.history, c.enqueued, Acked(n));
      if !next.wrapped {
        NumbersAppend(c.history, c.lastID, Acked(n));
      }
    case Dequeue =>
    case Fail =>
    case Finish =>
  }

  lemma FaithfulFacts(d: Datagram, reach: nat, enqueued: seq<Routed>)
    requires Faithful(d, reach, enqueued)
    ensures d.place <= reach && d.place + |d.packets| <= |enqueued|
      && d.packets == enqueued[d.place..d.place + |d.packets|]
  {
  }

  /** The invariant holds after every run, whatever the interleaving. */
  lemma {:induction false} InvariantOverRuns(c: Channel, actions: seq<Action>)
    requires Invariant(c) && CanRun(c, actions)
    ensures Invariant(Run(c, actions))
    decreases |actions|
  {
    hide Invariant, Step, Enabled;
    if actions != [] {
      InvariantStep(c, actions[0]);
      InvariantOverRuns(Step(c, actions[0]), actions[1..]);
    }
  }

  // ---------------------------------------------------------------- what runs from the start guarantee

  /** The packets that a list of actions brings in. */
  function Arrivals(actions: seq<Action>): seq<Routed> {
    if actions == [] then []
    else (if actions[0].Enqueue? then [actions[0].packet] else []) + Arrivals(actions[1..])
  }

  lemma {:induction false} EnqueuedIsArrivals(c: Channel, actions: seq<Action>)
    requires CanRun(c, actions)
    ensures Run(c, actions).enqueued == c.enqueued + Arrivals(actions)
    decreases |actions|
  {
    hide NextDatagram, Enabled;
    if actions != [] {
      EnqueuedIsArrivals(Step(c, actions[0]), actions[1..]);
    }
  }

  /** Conservation: all arrivals, in order, are the completed batches, then the batch in flight, then the queue. */
  lemma QueueConservation(actions: seq<Action>)
    requires CanRun(START, actions)
    ensures var c := Run(START, actions);
            && Arrivals(actions) == c.completed + InFlight(c) + c.queue
            && (c.flight.Idle? ==>
                  && |c.completed| <= |Arrivals(actions)|
                  && c.queue == Arrivals(actions)[|c.completed|..])
  {
    hide Arrivals, WireIsFaithful, NumbersGrow, WirePackets, Reach;
    InvariantAfterStart(actions);
    EnqueuedIsArrivals(START, actions);
    var c := Run(START, actions);
    assert START.enqueued + Arrivals(actions) == Arrivals(actions);
    if c.flight.Idle? {
      assert c.completed + [] + c.queue == c.completed + c.queue;
    }
  }

  lemma InvariantAfterStart(actions: seq<Action>)
    requires CanRun(START, actions)
    ensures Invariant(Run(START, actions))
  {
    hide Invariant, Step, Enabled;
    StartIsInvariant();
    InvariantOverRuns(START, actions);
  }

  /** Whatever the wire has reached it has covered: no packet overtakes one that was never sent. */
  lemma {:induction false} ReachIsCovered(history: seq<Event>, enqueued: seq<Routed>, j: nat)
    requires WireIsFaithful(history, enqueued) && j < Reach(history)
    ensures exists i :: 0 <= i < |history| && history[i].Sent?
              && history[i].datagram.place <= j < history[i].datagram.place + |history[i].datagram.packets|
    decreases |history|
  {
    hide Lengths;
    var n := |history| - 1;
    var front := history[..n];
    if j < Reach(front) {
      forall i | 0 <= i < n && front[i].Sent?
        ensures Faithful(front[i].datagram, Reach(front[..i]), enqueued)
      {
        assert front[..i] == history[..i];
        assert history[i].Sent?;
      }
      ReachIsCovered(front, enqueued, j);
      var i :| 0 <= i < n && front[i].Sent?
        && front[i].datagram.place <= j < front[i].datagram.place + |front[i].datagram.packets|;
      assert history[i] == front[i];
    } else {
      assert history[n].Sent?;
      assert Faithful(history[n].datagram, Reach(history[..n]), enqueued);
      assert history[n].datagram.place <= j;
    }
  }

  /**
   At least once, in order: every completed packet has been on the wire, in a
   datagram that carries the stream faithfully and, but for packets sent before,
   starts no later than where the wire had got to.
   */
  lemma CompletedWasSent(c: Channel, j: nat)
    requires Invariant(c) && j < |c.completed|
    ensures exists i :: 0 <= i < |c.history| && c.history[i].Sent?
              && var d := c.history[i].datagram;
                 && Faithful(d, Reach(c.history[..i]), c.enqueued)
                 && d.place <= j < d.place + |d.packets| && d.packets[j - d.place] == c.completed[j]
  {
    hide Faithful, NumbersGrow, WirePackets, Reach, Tracks;
    ReachIsCovered(c.history, c.enqueued, j);
    var i :| 0 <= i < |c.history| && c.history[i].Sent?
      && c.history[i].datagram.place <= j < c.history[i].datagram.place + |c.history[i].datagram.packets|;
    var d := c.history[i].datagram;
    FaithfulFacts(d, Reach(c.history[..i]), c.enqueued);
    assert d.packets[j - d.place] == c.enqueued[j] == c.completed[j];
  }

  lemma {:induction false} LengthInSum(packets: seq<Routed>, i: nat)
    requires i < |packets|
    ensures SubLength(packets[i]) <= Sum(Lengths(packets))
  {
    hide SubLength;
    assert Lengths(packets)[1..] == Lengths(packets[1..]);
    if i > 0 {
      LengthInSum(packets[1..], i - 1);
    }
  }

  /**
   A packet too large for any datagram is never sent, and nothing behind it
   either: completion stops in front of it.
   */
  lemma OversizedBlocks(c: Channel, k: nat)
    requires Invariant(c) && k < |c.enqueued| && SubLength(c.enqueued[k]) > MAX_PAYLOAD
    ensures Reach(c.history) <= k && |c.completed| <= Progress(c) <= k
  {
    hide NumbersGrow, WirePackets, Reach, Tracks, SubLength, Lengths, Conserved;
    if k < Reach(c.history) {
      ReachIsCovered(c.history, c.enqueued, k);
      var i :| 0 <= i < |c.history| && c.history[i].Sent?
        && c.history[i].datagram.place <= k < c.history[i].datagram.place + |c.history[i].datagram.packets|;
      var d := c.history[i].datagram;
      assert Faithful(d, Reach(c.history[..i]), c.enqueued);
      assert d.packets[k - d.place] == c.enqueued[k];
      LengthInSum(d.packets, k - d.place);
    }
  }

  /**
   So it is over every run: what is behind an oversized packet never reaches the
   wire, however often it is flushed.
   */
  lemma BlockedForever(actions: seq<Action>, k: nat)
    requires CanRun(START, actions) && k < |Arrivals(actions)| && SubLength(Arrivals(actions)[k]) > MAX_PAYLOAD
    ensures Reach(Run(START, actions).history) <= k && |Run(START, actions).completed| <= k
  {
    hide Invariant, Reach, SubLength, Arrivals, Run, CanRun;
    InvariantAfterStart(actions);
    EnqueuedIsArrivals(START, actions);
    assert START.enqueued + Arrivals(actions) == Arrivals(actions);
    OversizedBlocks(Run(START, actions), k);
  }

  /** A run after which everything that was queued is completed. */
  ghost predicate Completes(c: Channel, actions: seq<Action>) {
    CanRun(c, actions) && |Run(c, actions).completed| >= |c.completed| + |c.queue|
  }

  /** An idle queue can ever be completed exactly if each of its packets fits a datagram. */
  lemma CompletableExactly(c: Channel)
    requires Invariant(c) && c.flight.Idle?
    ensures (exists actions :: Completes(c, actions)) <==> AllFit(Lengths(c.queue))
  {
    hide Invariant, Step, Enabled, Batches, Run, CanRun, SubLength, Flatten, BurstActions;
    IdleIsQueued(c);
    if AllFit(Lengths(c.queue)) {
      BatchesAreGreedy(c.queue);
      var n := |Batches(c.queue)|;
      assert Batches(c.queue)[..n] == Batches(c.queue);
      if c.queue == [] {
        NoActions(c);
        assert Completes(c, []);
      } else {
        BurstOnChannel(c, n, [], true);
        assert Completes(c, BurstActions(n, [], true));
      }
    }
    if actions :| Completes(c, actions) {
      forall k | 0 <= k < |c.queue|
        ensures Lengths(c.queue)[k] <= MAX_PAYLOAD
      {
        InvariantOverRuns(c, actions);
        EnqueuedIsArrivals(c, actions);
        assert Run(c, actions).enqueued[|c.completed| + k] == c.queue[k];
        if SubLength(c.queue[k]) > MAX_PAYLOAD {
          OversizedBlocks(Run(c, actions), |c.completed| + k);
        }
      }
    }
  }

  lemma IdleIsQueued(c: Channel)
    requires Invariant(c) && c.flight.Idle?
    ensures c.enqueued == c.completed + c.queue
  {
    hide WireIsFaithful, NumbersGrow, WirePackets, Reach, Tracks;
    assert c.completed + [] == c.completed;
  }

  lemma NoActions(c: Channel)
    ensures CanRun(c, []) && Run(c, []) == c
  {
  }

  /**
   Whether some batch fails after one of its datagrams was sent; `sending` says
   that the current one has sent some.
   */
  predicate SendsInVain(actions: seq<Action>, sending: bool) {
    && actions != []
    && match actions[0]
       case Dequeue => SendsInVain(actions[1..], false)
       case Send => SendsInVain(actions[1..], true)
       case Fail => sending || SendsInVain(actions[1..], false)
       case Finish => SendsInVain(actions[1..], false)
       case _ => SendsInVain(actions[1..], sending)
  }

  lemma {:induction false} VainFollows(c: Channel, actions: seq<Action>, sending: bool)
    requires CanRun(c, actions)
    requires sending <==> c.flight.Flying? && c.flight.sent > 0
    ensures Run(c, actions).resent >= c.resent
    ensures Run(c, actions).resent > c.resent <==> SendsInVain(actions, sending)
    decreases |actions|
  {
    hide Taken;
    if actions != [] {
      var next := Step(c, actions[0]);
      VainFollows(next, actions[1..], next.flight.Flying? && next.flight.sent > 0);
    }
  }

  /**
   The packets on the wire are those delivered plus those sent in vain: each was
   there once and in order exactly if no batch failed after sending some of it.
   */
  lemma ExactlyOnce(actions: seq<Action>)
    requires CanRun(START, actions)
    ensures var c := Run(START, actions);
            && |WirePackets(c.history)| == Progress(c) + c.resent
            && Progress(c) <= |c.enqueued|
            && (WirePackets(c.history) == c.enqueued[..Progress(c)] <==> !SendsInVain(actions, false))
  {
    hide Run, CanRun, Conserved, WireIsFaithful, Reach, NumbersGrow, WirePackets, Progress, Tracks, SendsInVain;
    InvariantAfterStart(actions);
    VainFollows(START, actions, false);
  }

  lemma NumbersGrowUnlessWrapped(c: Channel)
    requires Invariant(c)
    ensures NumbersGrow(c.history, c.lastID) <==> !c.wrapped
  {
    hide Conserved, WireIsFaithful, Reach, WirePackets, Progress, Number;
  }

  /** The sequence number as it would be without wrapping: one up for a send, raised by an acknowledgement. */
  function Count(n: nat, actions: seq<Action>): nat
    decreases |actions|
  {
    if actions == [] then n
    else
      match actions[0]
      case Send => Count(n + 1, actions[1..])
      case Ack(number) => Count(if number > n then number else n, actions[1..])
      case _ => Count(n, actions[1..])
  }

  lemma {:induction false} CountGrows(n: nat, actions: seq<Action>)
    ensures Count(n, actions) >= n
    decreases |actions|
  {
    if actions != [] {
      match actions[0]
      case Send => CountGrows(n + 1, actions[1..]);
      case Ack(number) => CountGrows(if number > n then number else n, actions[1..]);
      case _ => CountGrows(n, actions[1..]);
    }
  }

  lemma {:induction false} CountFollows(c: Channel, actions: seq<Action>, n: nat)
    requires CanRun(c, actions)
    requires if c.wrapped then n > 0xFFFF else n == c.lastID
    ensures var r := Run(c, actions); if r.wrapped then Count(n, actions) > 0xFFFF else Count(n, actions) == r.lastID
    decreases |actions|
  {
    hide Taken;
    if actions != [] {
      var next := Step(c, actions[0]);
      match actions[0]
      case Send => CountFollows(next, actions[1..], n + 1);
      case Ack(number) => CountFollows(next, actions[1..], if number > n then number else n);
      case _ => CountFollows(next, actions[1..], n);
    }
  }

  /**
   Numbers on the wire grow, each exceeding every number sent or acknowledged
   before it, exactly as long as sends and acknowledgements have not driven the
   count past 65535.
   */
  lemma NumbersOverRuns(actions: seq<Action>)
    requires CanRun(START, actions)
    ensures var c := Run(START, actions); NumbersGrow(c.history, c.lastID) <==> Count(0, actions) <= 0xFFFF
  {
    hide Run, CanRun, Invariant, NumbersGrow, Count;
    InvariantAfterStart(actions);
    NumbersGrowUnlessWrapped(Run(START, actions));
    CountFollows(START, actions, 0);
  }

  /** It takes one acknowledgement of the largest number: the next datagram is numbered zero. */
  lemma WrapByAck(p: Routed)
    requires SubLength(p) <= MAX_PAYLOAD
    ensures var actions := [Ack(0xFFFF), Enqueue(p), Dequeue, Send];
            CanRun(START, actions) && Run(START, actions).history == [Acked(0xFFFF), Sent(Datagram(0, 0, [p]))]
  {
    hide SubLength;
    assert FitCount(Lengths([p]), MAX_PAYLOAD) == 1 by {
      FitCountIsLargest(Lengths([p]), MAX_PAYLOAD, 1);
      assert Sum([SubLength(p)]) == SubLength(p);
      assert Lengths([p])[..1] == [SubLength(p)];
    }
    var c1 := Step(START, Ack(0xFFFF));
    var c2 := Step(c1, Enqueue(p));
    var c3 := Step(c2, Dequeue);
    assert c2.queue == [p] && c3.flight.batch[0..] == [p];
    assert [p][..1] == [p];
    var c4 := Step(c3, Send);
    assert CanRun(c3, [Send]) && Run(c3, [Send]) == c4;
    assert [Dequeue, Send][1..] == [Send];
    assert CanRun(c2, [Dequeue, Send]) && Run(c2, [Dequeue, Send]) == c4;
    assert [Enqueue(p), Dequeue, Send][1..] == [Dequeue, Send];
    assert CanRun(c1, [Enqueue(p), Dequeue, Send]) && Run(c1, [Enqueue(p), Dequeue, Send]) == c4;
    assert [Ack(0xFFFF), Enqueue(p), Dequeue, Send][1..] == [Enqueue(p), Dequeue, Send];
  }

  /** The one number that the next datagram fails to exceed is the largest there is. */
  lemma NumberExceedsUnlessWrapping(c: Channel)
    requires Enabled(c, Send)
    ensures NextDatagram(c).id > c.lastID <==> c.lastID != 0xFFFF
    ensures Step(c, Send).lastID == NextDatagram(c).id
    ensures Step(c, Send).wrapped <==> c.wrapped || c.lastID == 0xFFFF
    ensures Enabled(c, Fail) && Step(c, Fail).lastID == c.lastID
  {
    hide Taken;
  }

  /** The steps that can happen while a burst is under way. */
  predicate DuringBurst(actions: seq<Action>) {
    forall i :: 0 <= i < |actions| ==> actions[i].Enqueue? || actions[i].Send? || actions[i].Ack?
  }

  lemma {:induction false} BurstSteps(c: Channel, actions: seq<Action>)
    requires CanRun(c, actions) && DuringBurst(actions)
    requires c.flight.Flying? && c.flight.sent <= |c.flight.batch|
    ensures var r := Run(c, actions);
            && r.flight.Flying? && r.flight.batch == c.flight.batch
              && c.flight.sent <= r.flight.sent <= |c.flight.batch|
            && r.queue == c.queue + Arrivals(actions) && r.completed == c.completed
            && WirePackets(r.history) == WirePackets(c.history) + c.flight.batch[c.flight.sent..r.flight.sent]
    decreases |actions|
  {
    hide Step, Enabled, WirePackets;
    if actions == [] {
      assert c.flight.batch[c.flight.sent..c.flight.sent] == [];
      assert c.queue + [] == c.queue && WirePackets(c.history) + [] == WirePackets(c.history);
    } else {
      assert actions[0].Enqueue? || actions[0].Send? || actions[0].Ack?;
      BurstStep(c, actions[0]);
      var next, r := Step(c, actions[0]), Run(c, actions);
      BurstSteps(next, actions[1..]);
      var k, m, n := c.flight.sent, next.flight.sent, r.flight.sent;
      assert c.flight.batch[k..m] + c.flight.batch[m..n] == c.flight.batch[k..n];
      Associative(WirePackets(c.history), c.flight.batch[k..m], c.flight.batch[m..n]);
      Associative(c.queue, if actions[0].Enqueue? then [actions[0].packet] else [], Arrivals(actions[1..]));
    }
  }

  lemma BurstStep(c: Channel, a: Action)
    requires Enabled(c, a) && (a.Enqueue? || a.Send? || a.Ack?)
    requires c.flight.Flying? && c.flight.sent <= |c.flight.batch|
    ensures var r := Step(c, a);
            && r.flight.Flying? && r.flight.batch == c.flight.batch
              && c.flight.sent <= r.flight.sent <= |c.flight.batch|
            && r.queue == c.queue + (if a.Enqueue? then [a.packet] else []) && r.completed == c.completed
            && WirePackets(r.history) == WirePackets(c.history) + c.flight.batch[c.flight.sent..r.flight.sent]
  {
    hide Taken;
    var r := Step(c, a);
    if a.Send? || a.Ack? {
      assert r.history[..|r.history| - 1] == c.history;
    }
    if a.Send? {
      assert r.history[|r.history| - 1].datagram.packets == c.flight.batch[c.flight.sent..r.flight.sent];
    } else {
      assert c.flight.batch[c.flight.sent..c.flight.sent] == [];
    }
  }

  /**
   A burst that fails after any sends, whatever arrives or is acknowledged
   meanwhile, puts a prefix of its batch on the wire and restores the whole
   batch ahead of the newer packets.
   */
  lemma FailedBurst(c: Channel, actions: seq<Action>)
    requires c.flight.Idle? && DuringBurst(actions) && CanRun(c, [Dequeue] + actions + [Fail])
    ensures var r := Run(c, [Dequeue] + actions + [Fail]);
            && r.queue == c.queue + Arrivals(actions) && r.completed == c.completed && r.flight.Idle?
            && exists k :: 0 <= k < |c.queue| && WirePackets(r.history) == WirePackets(c.history) + c.queue[..k]
  {
    hide WirePackets, Arrivals, DuringBurst;
    var mid := RunOfBurst(c, actions, Fail);
    assert c.queue[0..mid.flight.sent] == c.queue[..mid.flight.sent];
    assert [] + Arrivals(actions) == Arrivals(actions);
    assert 0 <= mid.flight.sent < |c.queue|;
  }

  /** A burst that finishes puts its whole batch on the wire, once and in order. */
  lemma FinishedBurst(c: Channel, actions: seq<Action>)
    requires c.flight.Idle? && DuringBurst(actions) && CanRun(c, [Dequeue] + actions + [Finish])
    ensures var r := Run(c, [Dequeue] + actions + [Finish]);
            && r.queue == Arrivals(actions) && r.completed == c.completed + c.queue && r.flight.Idle?
            && WirePackets(r.history) == WirePackets(c.history) + c.queue
  {
    hide WirePackets, Arrivals, DuringBurst;
    var mid := RunOfBurst(c, actions, Finish);
    assert c.queue[0..|c.queue|] == c.queue;
    assert [] + Arrivals(actions) == Arrivals(actions);
  }

  lemma RunOfBurst(c: Channel, actions: seq<Action>, last: Action) returns (mid: Channel)
    requires c.flight.Idle? && DuringBurst(actions) && CanRun(c, [Dequeue] + actions + [last])
    ensures mid.flight.Flying? && mid.flight.batch == c.queue && mid.flight.sent <= |c.queue|
    ensures mid.queue == [] + Arrivals(actions) && mid.completed == c.completed
    ensures WirePackets(mid.history) == WirePackets(c.history) + c.queue[0..mid.flight.sent]
    ensures Enabled(mid, last) && Run(c, [Dequeue] + actions + [last]) == Step(mid, last)
  {
    hide WirePackets, Arrivals, DuringBurst, Taken;
    var all := [Dequeue] + actions + [last];
    assert all[0] == Dequeue && all[1..] == actions + [last];
    var flying := Step(c, Dequeue);
    CanRunSplits(flying, actions, [last]);
    mid := Run(flying, actions);
    assert [last][1..] == [];
    BurstSteps(flying, actions);
  }

  lemma {:induction false} CanRunSplits(c: Channel, a: seq<Action>, b: seq<Action>)
    requires CanRun(c, a + b)
    ensures CanRun(c, a) && CanRun(Run(c, a), b) && Run(c, a + b) == Run(Run(c, a), b)
    decreases |a|
  {
    hide Step, Enabled;
    if a == [] {
      assert a + b == b;
    } else {
      assert (a + b)[0] == a[0] && (a + b)[1..] == a[1..] + b;
      CanRunSplits(Step(c, a[0]), a[1..], b);
    }
  }

  // ---------------------------------------------------------------- a burst of sends

  /** The datagrams that a batch is cut into; short of the whole batch if a packet fits none. */
  function Batches(packets: seq<Routed>): (r: seq<seq<Routed>>)
    decreases |packets|
  {
    var n := Taken(packets);
    if n == 0 then [] else [packets[..n]] + Batches(packets[n..])
  }

  /** The cut is the greedy one, so no other in-order cut into bounded datagrams has fewer. */
  lemma {:induction false} BatchesAreGreedy(packets: seq<Routed>)
    ensures var batches, greedy := Batches(packets), Greedy(Lengths(packets));
            && |batches| == |greedy|
            && (forall i :: 0 <= i < |batches| ==> Lengths(batches[i]) == greedy[i])
            && (AllFit(Lengths(packets)) <==> Flatten(batches) == packets)
    decreases |packets|
  {
    hide FitCount, Lengths, AllFit, Flatten, Taken;
    var n := Taken(packets);
    if n == 0 {
      NothingTaken(packets);
    } else {
      var rest := packets[n..];
      BatchesAreGreedy(rest);
      BatchCut(packets);
      TakenPartFits(packets);
      AllFitSplits(Lengths(packets), n);
      FlattenCut(packets, n, Batches(rest));
    }
  }

  lemma NothingTaken(packets: seq<Routed>)
    requires Taken(packets) == 0
    ensures Greedy(Lengths(packets)) == [] && Flatten<Routed>([]) == []
    ensures AllFit(Lengths(packets)) <==> packets == []
  {
    hide FitCount, SubLength;
    if packets != [] {
      FitCountIsLargest(Lengths(packets), MAX_PAYLOAD, 1);
      assert Lengths(packets)[..1] == [Lengths(packets)[0]];
      assert Sum([Lengths(packets)[0]]) == Lengths(packets)[0];
    }
  }

  lemma BatchCut(packets: seq<Routed>)
    requires Taken(packets) > 0
    ensures var n := Taken(packets);
            && Lengths(packets[..n]) == Lengths(packets)[..n] && Lengths(packets[n..]) == Lengths(packets)[n..]
            && Greedy(Lengths(packets)) == [Lengths(packets[..n])] + Greedy(Lengths(packets[n..]))
  {
    hide FitCount, SubLength;
    var n := Taken(packets);
    assert Lengths(packets[..n]) == Lengths(packets)[..n] && Lengths(packets[n..]) == Lengths(packets)[n..];
  }

  lemma FlattenCut(packets: seq<Routed>, n: nat, parts: seq<seq<Routed>>)
    requires n <= |packets|
    ensures Flatten([packets[..n]] + parts) == packets <==> Flatten(parts) == packets[n..]
  {
    assert ([packets[..n]] + parts)[1..] == parts;
    assert packets == packets[..n] + packets[n..];
    var whole := Flatten([packets[..n]] + parts);
    assert whole == packets[..n] + Flatten(parts);
    assert whole[n..] == Flatten(parts);
  }

  lemma TakenPartFits(packets: seq<Routed>)
    ensures AllFit(Lengths(packets)[..Taken(packets)])
    ensures Sum(Lengths(packets[..Taken(packets)])) <= MAX_PAYLOAD
  {
    hide FitCount, SubLength;
    var n := Taken(packets);
    FitCountIsLargest(Lengths(packets), MAX_PAYLOAD, n);
    PartsOfFittingFit(Lengths(packets)[..n]);
    assert Lengths(packets[..n]) == Lengths(packets)[..n];
  }

  lemma AllFitSplits(lens: seq<nat>, n: nat)
    requires n <= |lens| && AllFit(lens[..n])
    ensures AllFit(lens) <==> AllFit(lens[n..])
  {
    assert lens == lens[..n] + lens[n..];
    assert forall i :: 0 <= i < |lens| - n ==> lens[n..][i] == lens[n + i];
    assert forall i :: n <= i < |lens| ==> lens[i] == lens[n..][i - n];
    assert forall i :: 0 <= i < n ==> lens[i] == lens[..n][i];
  }

  /** No in-order division of a batch into datagrams within the budget needs fewer datagrams than the router sends. */
  lemma FewestDatagrams(packets: seq<Routed>, others: seq<seq<Routed>>)
    requires Flatten(others) == packets
    requires forall i :: 0 <= i < |others| ==> Sum(Lengths(others[i])) <= MAX_PAYLOAD
    ensures Flatten(Batches(packets)) == packets && |Batches(packets)| <= |others|
  {
    BatchesAreGreedy(packets);
    var segments := seq(|others|, i requires 0 <= i < |others| => Lengths(others[i]));
    LengthsOfFlatten(others, segments);
    GreedyIsOptimal(Lengths(packets), segments);
    GreedyDivides(Lengths(packets));
  }

  lemma {:induction false} LengthsOfFlatten(parts: seq<seq<Routed>>, segments: seq<seq<nat>>)
    requires |segments| == |parts| && forall i :: 0 <= i < |parts| ==> segments[i] == Lengths(parts[i])
    ensures Flatten(segments) == Lengths(Flatten(parts))
  {
    hide SubLength;
    if parts != [] {
      LengthsOfFlatten(parts[1..], segments[1..]);
      assert Lengths(parts[0] + Flatten(parts[1..])) == Lengths(parts[0]) + Lengths(Flatten(parts[1..]));
    }
  }

  function Sends(n: nat): (r: seq<Action>)
    ensures |r| == n && forall i :: 0 <= i < n ==> r[i] == Send
  {
    seq(n, _ => Send)
  }

  /** Consecutive datagrams as they enter the history, numbered on from `id`. */
  function SentEvents(id: uint16, place: nat, batches: seq<seq<Routed>>): seq<Event>
    decreases |batches|
  {
    if batches == [] then []
    else [Sent(Datagram(NextID(id), place, batches[0]))] + SentEvents(NextID(id), place + |batches[0]|, batches[1..])
  }

  /** `n` sends in a row put the first `n` datagrams of the rest of the batch on the wire and count up the number. */
  lemma {:induction false} SendsFollowBatches(c: Channel, n: nat)
    requires c.flight.Flying? && c.flight.sent <= |c.flight.batch|
    requires n <= |Batches(c.flight.batch[c.flight.sent..])|
    ensures CanRun(c, Sends(n))
    ensures var r, batches := Run(c, Sends(n)), Batches(c.flight.batch[c.flight.sent..])[..n];
            && r.flight == Flying(c.flight.batch, c.flight.sent + |Flatten(batches)|)
            && r.history == c.history + SentEvents(c.lastID, |c.completed| + c.flight.sent, batches)
            && r.lastID == Later(c.lastID, n)
            && r.queue == c.queue && r.completed == c.completed && r.enqueued == c.enqueued
    decreases n
  {
    hide Taken, Later;
    LaterByOne(c.lastID, if n > 0 then n - 1 else 0);
    if n > 0 {
      var rest := c.flight.batch[c.flight.sent..];
      var next := Step(c, Send);
      var batches := Batches(rest)[..n];
      assert Sends(n)[1..] == Sends(n - 1);
      assert next.flight.batch[next.flight.sent..] == rest[Taken(rest)..];
      assert batches[1..] == Batches(rest[Taken(rest)..])[..n - 1];
      SendsFollowBatches(next, n - 1);
      Associative(c.history, [Sent(NextDatagram(c))],
                  SentEvents(next.lastID, |next.completed| + next.flight.sent, batches[1..]));
    } else {
      assert Sends(0) == [];
      assert c.history + [] == c.history;
    }
  }

  function Enqueues(packets: seq<Routed>): (r: seq<Action>)
    ensures |r| == |packets|
  {
    seq(|packets|, i requires 0 <= i < |packets| => Enqueue(packets[i]))
  }

  lemma {:induction false} EnqueuesFollow(c: Channel, packets: seq<Routed>)
    ensures CanRun(c, Enqueues(packets))
    ensures Run(c, Enqueues(packets)) == c.(queue := c.queue + packets, enqueued := c.enqueued + packets)
    ensures Arrivals(Enqueues(packets)) == packets
    decreases |packets|
  {
    if packets != [] {
      assert Enqueues(packets)[1..] == Enqueues(packets[1..]);
      EnqueuesFollow(Step(c, Enqueue(packets[0])), packets[1..]);
      Associative(c.queue, [packets[0]], packets[1..]);
      Associative(c.enqueued, [packets[0]], packets[1..]);
      assert packets == [packets[0]] + packets[1..];
    } else {
      assert Enqueues(packets) == [];
      assert c.queue + packets == c.queue && c.enqueued + packets == c.enqueued;
    }
  }

  /** The steps of a burst of `n` datagrams during which `arrivals` come in. */
  function BurstActions(n: nat, arrivals: seq<Routed>, done: bool): seq<Action> {
    [Dequeue] + (Sends(n) + Enqueues(arrivals)) + [if done then Finish else Fail]
  }

  /** A burst seen from its channel: dequeue, some sends, what arrived meanwhile, and the end it came to. */
  lemma BurstOnChannel(c: Channel, n: nat, arrivals: seq<Routed>, done: bool)
    requires c.flight.Idle? && c.queue != [] && Invariant(c) && n <= |Batches(c.queue)|
    requires if done then Flatten(Batches(c.queue)[..n]) == c.queue else Flatten(Batches(c.queue)[..n]) < c.queue
    ensures var actions := BurstActions(n, arrivals, done);
            && CanRun(c, actions)
            && var r := Run(c, actions);
               && Invariant(r) && r.flight.Idle? && r.queue == (if done then [] else c.queue) + arrivals
               && r.completed == c.completed + (if done then c.queue else [])
               && r.enqueued == c.enqueued + arrivals
               && r.history == c.history + SentEvents(c.lastID, |c.completed|, Batches(c.queue)[..n])
               && r.lastID == Later(c.lastID, n)
  {
    hide Invariant, Batches, Taken, Later, SentEvents, Enqueues, Sends;
    var last := if done then Finish else Fail;
    var flying := Step(c, Dequeue);
    assert flying.flight.batch[0..] == c.queue;
    SendsFollowBatches(flying, n);
    var mid := Run(flying, Sends(n));
    EnqueuesFollow(mid, arrivals);
    RunThen(flying, Sends(n), Enqueues(arrivals));
    var end := Run(flying, Sends(n) + Enqueues(arrivals));
    OneAction(end, last);
    RunThen(flying, Sends(n) + Enqueues(arrivals), [last]);
    OneAction(c, Dequeue);
    RunThen(c, [Dequeue], Sends(n) + Enqueues(arrivals) + [last]);
    Associative([Dequeue], Sends(n) + Enqueues(arrivals), [last]);
    InvariantOverRuns(c, BurstActions(n, arrivals, done));
    assert c.completed + [] == c.completed;
  }

  lemma OneAction(c: Channel, a: Action)
    requires Enabled(c, a)
    ensures CanRun(c, [a]) && Run(c, [a]) == Step(c, a)
  {
    hide Enabled, Step;
    assert [a][1..] == [];
  }

  // ---------------------------------------------------------------- the datagrams of a history

  function SentOf(history: seq<Event>): seq<Datagram> {
    if history == [] then []
    else
      var before, last := SentOf(history[..|history| - 1]), history[|history| - 1];
      if last.Sent? then before + [last.datagram] else before
  }

  lemma {:induction false} SentOfConcat(a: seq<Event>, b: seq<Event>)
    ensures SentOf(a + b) == SentOf(a) + SentOf(b)
    decreases |b|
  {
    if b == [] {
      assert a + b == a;
    } else {
      var front := b[..|b| - 1];
      assert (a + b)[..|a + b| - 1] == a + front;
      SentOfConcat(a, front);
    }
  }

  lemma {:induction false} SentOfEvents(id: uint16, place: nat, batches: seq<seq<Routed>>)
    ensures var sent := SentOf(SentEvents(id, place, batches));
            && |sent| == |batches|
            && forall i :: 0 <= i < |batches| ==> sent[i].id == Later(id, i + 1) && sent[i].packets == batches[i]
    decreases |batches|
  {
    hide Later, NextID;
    if batches != [] {
      var first := Sent(Datagram(NextID(id), place, batches[0]));
      var rest := SentEvents(NextID(id), place + |batches[0]|, batches[1..]);
      SentOfEvents(NextID(id), place + |batches[0]|, batches[1..]);
      SentOfConcat([first], rest);
      assert SentOf([first]) == [first.datagram];
      LaterByOne(id, 0);
      forall i | 0 <= i < |batches|
        ensures SentOf([first] + rest)[i].id == Later(id, i + 1) && SentOf([first] + rest)[i].packets == batches[i]
      {
        if i > 0 {
          LaterByOne(id, i);
        }
      }
    }
  }

  lemma AckSendsNothing(c: Channel, number: uint16)
    ensures SentOf(Step(c, Ack(number)).history) == SentOf(c.history)
  {
    assert Step(c, Ack(number)).history[..|c.history|] == c.history;
  }

  /** The datagram of an event is among those of the history, and the other way round. */
  lemma {:induction false} SentOfHas(history: seq<Event>, i: nat) returns (k: nat)
    requires i < |history| && history[i].Sent?
    ensures k < |SentOf(history)| && SentOf(history)[k] == history[i].datagram
    decreases |history|
  {
    if i == |history| - 1 {
      k := |SentOf(history)| - 1;
    } else {
      k := SentOfHas(history[..|history| - 1], i);
    }
  }

  lemma {:induction false} SentOfFrom(history: seq<Event>, k: nat) returns (i: nat)
    requires k < |SentOf(history)|
    ensures i < |history| && history[i].Sent? && SentOf(history)[k] == history[i].datagram
    ensures |SentOf(history[..i])| == k
    decreases |history|
  {
    var front := history[..|history| - 1];
    if k < |SentOf(front)| {
      i := SentOfFrom(front, k);
      assert front[..i] == history[..i];
    } else {
      i := |history| - 1;
    }
  }

  lemma LongerHasSentMore(history: seq<Event>, m: nat, i: nat)
    requires m <= i <= |history|
    ensures |SentOf(history[..m])| <= |SentOf(history[..i])|
  {
    SentOfConcat(history[..m], history[m..i]);
    assert history[..i] == history[..m] + history[m..i];
  }

  /** Along the datagrams of a history the numbers grow, as long as they do in the history. */
  lemma SentNumbersGrow(history: seq<Event>, lastID: uint16, j: nat, k: nat)
    requires NumbersGrow(history, lastID) && j < k < |SentOf(history)|
    ensures SentOf(history)[j].id < SentOf(history)[k].id
  {
    var i := SentOfFrom(history, j);
    var m := SentOfFrom(history, k);
    if m <= i {
      LongerHasSentMore(history, m, i);
    }
    assert Number(history[i]) < history[m].datagram.id;
  }

  // ---------------------------------------------------------------- the rounds of a flush

  /**
   The batches that a flush dequeues one after the other, if each burst gets
   through, while `arrivals[i]` come in during the i-th.
   */
  function Rounds(queue: seq<Routed>, arrivals: seq<seq<Routed>>): seq<seq<Routed>>
    decreases |arrivals|, |queue|
  {
    if queue == [] then []
    else if arrivals == [] then [queue]
    else [queue] + Rounds(arrivals[0], arrivals[1..])
  }

  /** The datagrams of consecutive batches. */
  function Cut(rounds: seq<seq<Routed>>): seq<seq<Routed>> {
    if rounds == [] then [] else Batches(rounds[0]) + Cut(rounds[1..])
  }

  lemma {:induction false} CutConcat(a: seq<seq<Routed>>, b: seq<seq<Routed>>)
    ensures Cut(a + b) == Cut(a) + Cut(b)
  {
    hide Batches;
    if a == [] {
      assert a + b == b;
    } else {
      CutConcat(a[1..], b);
      assert (a + b)[0] == a[0] && (a + b)[1..] == a[1..] + b;
      Associative(Batches(a[0]), Cut(a[1..]), Cut(b));
    }
  }

  lemma {:induction false} FlattenConcat<T>(a: seq<seq<T>>, b: seq<seq<T>>)
    ensures Flatten(a + b) == Flatten(a) + Flatten(b)
  {
    if a == [] {
      assert a + b == b;
    } else {
      FlattenConcat(a[1..], b);
      assert (a + b)[0] == a[0] && (a + b)[1..] == a[1..] + b;
      Associative(a[0], Flatten(a[1..]), Flatten(b));
    }
  }

  predicate Fitting(rounds: seq<seq<Routed>>) {
    forall i :: 0 <= i < |rounds| ==> AllFit(Lengths(rounds[i]))
  }

  /** What comes in during the i-th round. */
  function During(arrivals: seq<seq<Routed>>, i: nat): seq<Routed> {
    if i < |arrivals| then arrivals[i] else []
  }

  function From(arrivals: seq<seq<Routed>>, i: nat): seq<seq<Routed>> {
    if i < |arrivals| then arrivals[i..] else []
  }

  /** A flush of `start` after `i` good rounds: `done` were sent as `sent`, `heard` came in, and `queue` is left. */
  ghost predicate Flushing(start: seq<Routed>, arrivals: seq<seq<Routed>>, i: nat, done: seq<seq<Routed>>,
                           queue: seq<Routed>, heard: seq<Routed>, sent: seq<seq<Routed>>) {
    && Rounds(start, arrivals) == done + Rounds(queue, From(arrivals, i))
    && |done| == i && Fitting(done) && sent == Cut(done) && Flatten(sent) == Flatten(done)
    && Flatten(done) + queue == start + heard
  }

  lemma FlushingStart(start: seq<Routed>, arrivals: seq<seq<Routed>>)
    ensures Flushing(start, arrivals, 0, [], start, [], [])
  {
    assert From(arrivals, 0) == arrivals;
    assert [] + Rounds(start, arrivals) == Rounds(start, arrivals);
    assert Flatten<Routed>([]) + start == start + [];
  }

  lemma RoundsNext(queue: seq<Routed>, arrivals: seq<seq<Routed>>, i: nat)
    requires queue != []
    ensures Rounds(queue, From(arrivals, i)) == [queue] + Rounds(During(arrivals, i), From(arrivals, i + 1))
  {
    if i < |arrivals| {
      assert arrivals[i..][1..] == From(arrivals, i + 1);
    }
  }

  lemma FlushingNext(start: seq<Routed>, arrivals: seq<seq<Routed>>, i: nat, done: seq<seq<Routed>>, queue: seq<Routed>,
                     heard: seq<Routed>, sent: seq<seq<Routed>>)
    requires Flushing(start, arrivals, i, done, queue, heard, sent) && queue != []
    requires AllFit(Lengths(queue)) && Flatten(Batches(queue)) == queue
    ensures Flushing(start, arrivals, i + 1, done + [queue], During(arrivals, i), heard + During(arrivals, i),
                     sent + Batches(queue))
  {
    hide Batches, Rounds, AllFit, Flatten, Cut, During, From;
    RoundsNext(queue, arrivals, i);
    Associative(done, [queue], Rounds(During(arrivals, i), From(arrivals, i + 1)));
    CutSnoc(done, queue);
    FlattenSnoc(done, queue);
    FlattenConcat(sent, Batches(queue));
    Associative(start, heard, During(arrivals, i));
  }

  lemma CutSnoc(rounds: seq<seq<Routed>>, last: seq<Routed>)
    ensures Cut(rounds + [last]) == Cut(rounds) + Batches(last)
  {
    hide Batches;
    CutConcat(rounds, [last]);
    assert [last][1..] == [];
    assert Batches(last) + [] == Batches(last);
  }

  /** A flush that runs dry has sent the cut of all its rounds. */
  lemma FlushingDry(start: seq<Routed>, arrivals: seq<seq<Routed>>, i: nat, done: seq<seq<Routed>>, heard: seq<Routed>,
                    sent: seq<seq<Routed>>)
    requires Flushing(start, arrivals, i, done, [], heard, sent)
    ensures Rounds(start, arrivals) == done && Fitting(done) && sent == Cut(done)
    ensures Flatten(sent) == Flatten(done) == start + heard
  {
    hide Cut, Flatten;
    assert Rounds([], From(arrivals, i)) == [];
    assert done + [] == done;
    assert Flatten(done) + [] == Flatten(done);
  }

  /** A flush whose next burst fails after `part` has sent a part of that cut, and less than has come in. */
  lemma FlushingFails(start: seq<Routed>, arrivals: seq<seq<Routed>>, i: nat, done: seq<seq<Routed>>,
                      queue: seq<Routed>, heard: seq<Routed>, sent: seq<seq<Routed>>, part: seq<seq<Routed>>)
    requires Flushing(start, arrivals, i, done, queue, heard, sent) && part <= Batches(queue) && Flatten(part) < queue
    ensures sent + part <= Cut(Rounds(start, arrivals))
    ensures Flatten(done) <= Flatten(sent + part) < start + heard
    ensures exists rest :: Cut(Rounds(start, arrivals)) == sent + (Batches(queue) + rest)
    ensures done <= Rounds(start, arrivals) && i < |Rounds(start, arrivals)| && Rounds(start, arrivals)[i] == queue
    ensures !AllFit(Lengths(queue)) ==> !Fitting(Rounds(start, arrivals))
  {
    hide Batches, Rounds, AllFit, Flatten, Cut, During, From, Lengths;
    RoundsNext(queue, arrivals, i);
    var rest := Rounds(During(arrivals, i), From(arrivals, i + 1));
    Associative(done, [queue], rest);
    CutConcat(done + [queue], rest);
    CutSnoc(done, queue);
    Associative(sent, Batches(queue), Cut(rest));
    FlattenConcat(sent, part);
    assert Rounds(start, arrivals)[|done|] == queue;
    assert Flatten(sent + part) == Flatten(done) + Flatten(part);
  }

  /** Every datagram of a cut is non-empty and within the budget, and made of packets of the batch. */
  lemma {:induction false} BatchesFit(packets: seq<Routed>)
    ensures forall i :: 0 <= i < |Batches(packets)| ==>
              Batches(packets)[i] != [] && Sum(Lengths(Batches(packets)[i])) <= MAX_PAYLOAD
    ensures forall i, j :: 0 <= i < |Batches(packets)| && 0 <= j < |Batches(packets)[i]| ==>
      Batches(packets)[i][j] in packets
    decreases |packets|
  {
    hide Taken, Lengths;
    var n := Taken(packets);
    if n > 0 {
      TakenPartFits(packets);
      BatchesFit(packets[n..]);
      assert Batches(packets) == [packets[..n]] + Batches(packets[n..]);
    }
  }
}
