/** The monitor over whole runs: its event grammar, and its agreement with a monitor on unbounded time. */
module MonitorRuns {
  import opened CIntegers
  import opened Messages
  import opened MonitorModel

  /** What the application feeds in, with the true time in milliseconds since reset. */
  datatype Input = Beat(node: uint8, hb: Heartbeat, time: nat) | Poll(time: nat)

  function Next(clock: Clock, m: Monitor, i: Input): (k: Monitor)
    ensures k.timeout == m.timeout
  {
    match i
    case Beat(node, hb, time) => Heartbeated(m, node, hb, clock.Stamp(time))
    case Poll(time) => Polled(clock, m, clock.Stamp(time))
  }

  function Run(clock: Clock, m: Monitor, inputs: seq<Input>): (k: Monitor)
    ensures k.timeout == m.timeout
    decreases |inputs|
  {
    if inputs == [] then m else Run(clock, Next(clock, m, inputs[0]), inputs[1..])
  }

  lemma {:induction false} RunSplit(clock: Clock, m: Monitor, a: seq<Input>, b: seq<Input>)
    ensures Run(clock, m, a + b) == Run(clock, Run(clock, m, a), b)
    decreases |a|
  {
    if a == [] {
      assert a + b == b;
    } else {
      assert (a + b)[1..] == a[1..] + b;
      RunSplit(clock, Next(clock, m, a[0]), a[1..], b);
    }
  }

  // ---- grammar and conservation ----------------------------------------------------------

  lemma {:induction false} RunKeepsValid(clock: Clock, m: Monitor, inputs: seq<Input>)
    requires Valid(m)
    ensures Valid(Run(clock, m, inputs))
    decreases |inputs|
  {
    if inputs != [] {
      match inputs[0] {
        case Beat(node, hb, time) => HeartbeatKeepsValid(m, node, hb, clock.Stamp(time));
        case Poll(time) => PollKeepsValid(clock, m, clock.Stamp(time));
      }
      RunKeepsValid(clock, Next(clock, m, inputs[0]), inputs[1..]);
    }
  }

  /**
    From start-up, whatever is heard and whenever the table is polled: the table holds at most 16
    distinct valid nodes, each ALIVE or LOST; the events of every node spell a word of the grammar
    JOINED (REBOOTED | LOST JOINED)* [LOST] that ends in the state the table shows; and the number of
    live peers is the number of JOINED minus the number of LOST events.
   */
  lemma EventGrammar(clock: Clock, timeout: uint32, inputs: seq<Input>, node: uint8)
    ensures var m := Run(clock, Initial(timeout), inputs);
      && Valid(m)
      && Trace(m.events, node) != IllFormed
      && (Trace(m.events, node) == Unseen <==> !Known(m.peers, node))
      && (Trace(m.events, node) == Up <==> exists i :: 0 <= i < |m.peers| && m.peers[i].node == node
                                                      && m.peers[i].status == Alive)
      && AliveCount(m.peers) == Count(m.events, Joined) - Count(m.events, Gone)
  {
    assert Valid(Initial(timeout));
    RunKeepsValid(clock, Initial(timeout), inputs);
    var m := Run(clock, Initial(timeout), inputs);
    assert Trace(m.events, node) == PhaseInTable(m.peers, node);
    var i := IndexOf(m.peers, node);
    forall k | 0 <= k < |m.peers| && m.peers[k].node == node
      ensures k == i
    {
    }
  }

  /** Nodes are never removed: a table only grows, and every entry keeps its node. */
  lemma {:induction false} NodesAreKept(clock: Clock, m: Monitor, inputs: seq<Input>)
    ensures var k := Run(clock, m, inputs);
      && |m.peers| <= |k.peers|
      && (forall i :: 0 <= i < |m.peers| ==> k.peers[i].node == m.peers[i].node)
      && m.events <= k.events
    decreases |inputs|
  {
    if inputs != [] {
      var n := Next(clock, m, inputs[0]);
      NodesAreKept(clock, n, inputs[1..]);
      assert forall i :: 0 <= i < |m.peers| ==> n.peers[i].node == m.peers[i].node;
    }
  }

  // ---- refinement of unbounded time ------------------------------------------------------

  /** True time never runs backward and polls are at most gap apart. */
  predicate Scheduled(inputs: seq<Input>, now: nat, lastPoll: nat, gap: nat)
    decreases |inputs|
  {
    inputs == [] ||
    (&& inputs[0].time >= now
     && (inputs[0].Poll? ==> inputs[0].time - lastPoll <= gap)
     && Scheduled(inputs[1..], inputs[0].time, if inputs[0].Poll? then inputs[0].time else lastPoll, gap))
  }

  /** The table of the firmware is the ideal one with its time stamps taken modulo 2^32. */
  predicate Related(wrapped: Monitor, ideal: Monitor) {
    && wrapped.timeout == ideal.timeout && wrapped.events == ideal.events && |wrapped.peers| == |ideal.peers|
    && forall i :: 0 <= i < |wrapped.peers| ==> SamePeer(wrapped.peers[i], ideal.peers[i])
  }

  predicate SamePeer(p: Peer, q: Peer) {
    p == q.(lastSeen := p.lastSeen) && p.lastSeen == q.lastSeen % TWO_32
  }

  /** In the ideal table: nobody was heard in the future, and the last poll left no silent peer ALIVE. */
  predicate Fresh(ideal: Monitor, now: nat, lastPoll: nat) {
    lastPoll <= now
    && forall i :: 0 <= i < |ideal.peers| && ideal.peers[i].status == Alive ==>
         ideal.peers[i].lastSeen <= now && lastPoll - ideal.peers[i].lastSeen <= ideal.timeout
  }

  lemma {:induction false} SameIndex(wrapped: seq<Peer>, ideal: seq<Peer>, node: uint8)
    requires |wrapped| == |ideal|
    requires forall i :: 0 <= i < |wrapped| ==> wrapped[i].node == ideal[i].node
    ensures IndexOf(wrapped, node) == IndexOf(ideal, node)
  {
    var i := IndexOf(wrapped, node);
    if i < |wrapped| {
      IndexIs(ideal, node, i);
    } else {
      IndexAbsent(ideal, node);
    }
  }

  lemma BeatRefines(wrapped: Monitor, ideal: Monitor, node: uint8, hb: Heartbeat, time: nat, now: nat, lastPoll: nat)
    requires Related(wrapped, ideal) && Fresh(ideal, now, lastPoll) && time >= now
    ensures Related(Heartbeated(wrapped, node, hb, time % TWO_32), Heartbeated(ideal, node, hb, time))
    ensures Fresh(Heartbeated(ideal, node, hb, time), time, lastPoll)
  {
    SameIndex(wrapped.peers, ideal.peers, node);
    var i := IndexOf(wrapped.peers, node);
    if !Refused(wrapped, node) {
      assert SamePeer(Beaten(Entry(wrapped, node), hb, time % TWO_32), Beaten(Entry(ideal, node), hb, time));
    }
  }

  /** As long as the true age stays below 2^32, unsigned subtraction computes it. */
  lemma AgeIsExact(now: nat, seen: int)
    requires 0 <= now - seen < TWO_32
    ensures Wrapping.Age(Wrapping.Stamp(now), seen % TWO_32) == Unbounded.Age(now, seen)
  {
    var d := now % TWO_32 - seen % TWO_32;
    assert now == now / TWO_32 * TWO_32 + now % TWO_32 && seen == seen / TWO_32 * TWO_32 + seen % TWO_32;
    assert d == (now - seen) - (now / TWO_32 - seen / TWO_32) * TWO_32;
    assert d % TWO_32 == now - seen;
  }

  lemma {:induction false} PollEventsRefine(wrapped: seq<Peer>, ideal: seq<Peer>, timeout: uint32, time: nat)
    requires |wrapped| == |ideal|
    requires forall i :: 0 <= i < |wrapped| ==> SamePeer(wrapped[i], ideal[i])
    requires forall i :: 0 <= i < |wrapped| ==>
      Silent(Wrapping, wrapped[i], timeout, time % TWO_32) == Silent(Unbounded, ideal[i], timeout, time)
    ensures PollEvents(Wrapping, wrapped, timeout, time % TWO_32) == PollEvents(Unbounded, ideal, timeout, time)
  {
    hide Silent;
    if wrapped != [] {
      var n := |wrapped| - 1;
      assert SamePeer(wrapped[n], ideal[n]);
      PollEventsRefine(wrapped[..n], ideal[..n], timeout, time);
    }
  }

  lemma PollRefines(wrapped: Monitor, ideal: Monitor, time: nat, now: nat, lastPoll: nat, gap: nat)
    requires Related(wrapped, ideal) && Fresh(ideal, now, lastPoll)
    requires time >= now && time - lastPoll <= gap && ideal.timeout + gap < TWO_32
    ensures Related(Polled(Wrapping, wrapped, time % TWO_32), Polled(Unbounded, ideal, time))
    ensures Fresh(Polled(Unbounded, ideal, time), time, time)
  {
    forall i | 0 <= i < |wrapped.peers|
      ensures Silent(Wrapping, wrapped.peers[i], wrapped.timeout, time % TWO_32)
           == Silent(Unbounded, ideal.peers[i], ideal.timeout, time)
    {
      assert SamePeer(wrapped.peers[i], ideal.peers[i]);
      if ideal.peers[i].status == Alive {
        AgeIsExact(time, ideal.peers[i].lastSeen);
      }
    }
    PollEventsRefine(wrapped.peers, ideal.peers, wrapped.timeout, time);
  }

  lemma {:induction false} RunRefines(wrapped: Monitor, ideal: Monitor, inputs: seq<Input>, now: nat, lastPoll: nat,
                                      gap: nat)
    requires Related(wrapped, ideal) && Fresh(ideal, now, lastPoll)
    requires Scheduled(inputs, now, lastPoll, gap) && ideal.timeout + gap < TWO_32
    ensures Related(Run(Wrapping, wrapped, inputs), Run(Unbounded, ideal, inputs))
    decreases |inputs|
  {
    if inputs != [] {
      match inputs[0] {
        case Beat(node, hb, time) =>
          BeatRefines(wrapped, ideal, node, hb, time, now, lastPoll);
          RunRefines(Next(Wrapping, wrapped, inputs[0]), Next(Unbounded, ideal, inputs[0]), inputs[1..], time, lastPoll,
                     gap);
        case Poll(time) =>
          PollRefines(wrapped, ideal, time, now, lastPoll, gap);
          RunRefines(Next(Wrapping, wrapped, inputs[0]), Next(Unbounded, ideal, inputs[0]), inputs[1..], time, time,
                     gap);
      }
    }
  }

  /**
    Across any number of wraps of the millisecond counter, and however long a peer stays silent, the
    monitor shows the states and has emitted the events of a monitor whose clock never wraps, provided
    the timeout plus the longest time between two polls stays below 2^32 ms.
   */
  lemma WrapIsInvisible(timeout: uint32, inputs: seq<Input>, start: nat, gap: nat)
    requires Scheduled(inputs, start, start, gap) && timeout + gap < TWO_32
    ensures Related(Run(Wrapping, Initial(timeout), inputs), Run(Unbounded, Initial(timeout), inputs))
  {
    RunRefines(Initial(timeout), Initial(timeout), inputs, start, start, gap);
  }

  // ---- what ALIVE and LOST mean, in terms of what was heard ------------------------------

  /** When a node was last heard in a run, or -1. */
  function LastHeard(inputs: seq<Input>, node: uint8): int {
    if inputs == [] then -1
    else
      var i := inputs[|inputs| - 1];
      if i.Beat? && i.node == node then i.time else LastHeard(inputs[..|inputs| - 1], node)
  }

  /** How many heartbeats a node has sent in a run, and the last of them. */
  function BeatCount(inputs: seq<Input>, node: uint8): nat {
    if inputs == [] then 0
    else
      var i := inputs[|inputs| - 1];
      BeatCount(inputs[..|inputs| - 1], node) + (if i.Beat? && i.node == node then 1 else 0)
  }

  function LastReport(inputs: seq<Input>, node: uint8): Heartbeat {
    if inputs == [] then NO_HEARTBEAT
    else
      var i := inputs[|inputs| - 1];
      if i.Beat? && i.node == node then i.hb else LastReport(inputs[..|inputs| - 1], node)
  }

  /** The time of the last poll of a run that follows a poll at lastPoll. */
  function EndPoll(inputs: seq<Input>, lastPoll: nat): nat
    decreases |inputs|
  {
    if inputs == [] then lastPoll else EndPoll(inputs[1..], if inputs[0].Poll? then inputs[0].time else lastPoll)
  }

  /**
    The ideal table tells of each node when it was last heard, what it said, how often, and whether that
    was in time for the last poll; and until the table is full it knows every node that was heard.
   */
  predicate Tells(ideal: Monitor, past: seq<Input>, lastPoll: nat) {
    && WellFormed(ideal.peers)
    && (forall i :: 0 <= i < |ideal.peers| ==> PeerTells(ideal.peers[i], ideal.timeout, past, lastPoll))
    && (|ideal.peers| < MAX_NODES ==>
          forall node: uint8 :: 1 <= node <= NODE_ID_MAX && BeatCount(past, node) > 0
            ==> IndexOf(ideal.peers, node) < |ideal.peers|)
  }

  predicate PeerTells(p: Peer, timeout: uint32, past: seq<Input>, lastPoll: nat) {
    && p.lastSeen == LastHeard(past, p.node)
    && p.last == LastReport(past, p.node)
    && p.heartbeats == BeatCount(past, p.node) % TWO_32
    && (p.status == Alive <==> lastPoll - p.lastSeen <= timeout)
  }

  lemma HistoryAppend(past: seq<Input>, i: Input, node: uint8)
    ensures var mine := i.Beat? && i.node == node;
      && LastHeard(past + [i], node) == (if mine then i.time else LastHeard(past, node))
      && LastReport(past + [i], node) == (if mine then i.hb else LastReport(past, node))
      && BeatCount(past + [i], node) == BeatCount(past, node) + (if mine then 1 else 0)
  {
    assert (past + [i])[..|past|] == past;
  }

  lemma BeatTells(m: Monitor, past: seq<Input>, i: Input, lastPoll: nat)
    requires Tells(m, past, lastPoll) && i.Beat? && i.time >= lastPoll
    ensures Tells(Next(Unbounded, m, i), past + [i], lastPoll)
  {
    hide LastHeard, LastReport, BeatCount, WellFormed, Stored, ToUint32;
    var k := Next(Unbounded, m, i);
    forall j | 0 <= j < |k.peers|
      ensures PeerTells(k.peers[j], k.timeout, past + [i], lastPoll)
    {
      HistoryAppend(past, i, k.peers[j].node);
      if Refused(m, i.node) {
        RefusedIsUnknown(m, i.node, j);
      } else {
        OthersKept(m.peers, Beaten(Entry(m, i.node), i.hb, i.time), j);
        CountsUp(m, past, i, lastPoll);
      }
    }
    forall node: uint8 | 1 <= node <= NODE_ID_MAX && BeatCount(past + [i], node) > 0 && |k.peers| < MAX_NODES
      ensures IndexOf(k.peers, node) < |k.peers|
    {
      HistoryAppend(past, i, node);
      StaysKnown(m, i.node, i.hb, i.time, node);
    }
    if !Refused(m, i.node) {
      StoredWellFormed(m, i.node, Beaten(Entry(m, i.node), i.hb, i.time));
    }
  }

  /** A table that is not full has room for the sender of a heartbeat, and forgets nobody. */
  lemma StaysKnown(m: Monitor, sender: uint8, hb: Heartbeat, now: int, node: uint8)
    ensures var k := Heartbeated(m, sender, hb, now);
      && |m.peers| <= |k.peers|
      && (IndexOf(m.peers, node) < |m.peers| ==> IndexOf(k.peers, node) < |k.peers|)
      && (node == sender && 1 <= node <= NODE_ID_MAX && |m.peers| < MAX_NODES ==> IndexOf(k.peers, node) < |k.peers|)
  {
    if !Refused(m, sender) {
      var after := Beaten(Entry(m, sender), hb, now);
      var i, k := IndexOf(m.peers, node), Stored(m.peers, after);
      if i < |m.peers| {
        assert k[i].node == node;
      } else if node == sender {
        assert k[|m.peers|].node == node;
      }
    }
  }

  /** The heartbeat count of the sender goes up by one, in 32 bits. */
  lemma CountsUp(m: Monitor, past: seq<Input>, i: Input, lastPoll: nat)
    requires Tells(m, past, lastPoll) && i.Beat? && !Refused(m, i.node)
    ensures Beaten(Entry(m, i.node), i.hb, i.time).heartbeats == (BeatCount(past, i.node) + 1) % TWO_32
  {
    hide ToUint32, BeatCount, LastHeard, LastReport;
    var at := IndexOf(m.peers, i.node);
    CountOneMore(BeatCount(past, i.node));
    if at < |m.peers| {
      assert PeerTells(m.peers[at], m.timeout, past, lastPoll);
    } else {
      assert BeatCount(past, i.node) == 0;
    }
  }

  lemma StoredWellFormed(m: Monitor, node: uint8, after: Peer)
    requires WellFormed(m.peers) && !Refused(m, node) && after.node == node && after.status == Alive
    ensures WellFormed(Stored(m.peers, after))
  {
    StoredIsWellFormed(m.peers, after);
  }

  /** A refused heartbeat comes from a node the table does not hold. */
  lemma RefusedIsUnknown(m: Monitor, node: uint8, j: nat)
    requires WellFormed(m.peers) && Refused(m, node) && j < |m.peers|
    ensures m.peers[j].node != node
  {
  }

  lemma OthersKept(peers: seq<Peer>, after: Peer, j: nat)
    requires WellFormed(peers) && j < |Stored(peers, after)|
    ensures var p := Stored(peers, after)[j];
      p == after || (p.node != after.node && j < |peers| && p == peers[j])
  {
  }

  lemma PollTells(m: Monitor, past: seq<Input>, i: Input, lastPoll: nat)
    requires Tells(m, past, lastPoll) && i.Poll? && i.time >= lastPoll
    ensures Tells(Next(Unbounded, m, i), past + [i], i.time)
  {
    hide LastHeard, LastReport, BeatCount, WellFormed, PeerTells, PolledPeer, PollEvents;
    var k := Next(Unbounded, m, i);
    PollKeepsTable(Unbounded, m.peers, m.timeout, i.time);
    forall j | 0 <= j < |m.peers|
      ensures PeerTells(k.peers[j], m.timeout, past + [i], i.time)
    {
      PolledPeerTells(m.peers[j], m.timeout, past, i, lastPoll);
    }
    forall node: uint8
      ensures BeatCount(past + [i], node) == BeatCount(past, node)
      ensures IndexOf(k.peers, node) == IndexOf(m.peers, node)
    {
      HistoryAppend(past, i, node);
      PollKeepsIndex(m.peers, m.timeout, i.time, node);
    }
  }

  lemma PollKeepsIndex(peers: seq<Peer>, timeout: uint32, now: int, node: uint8)
    ensures IndexOf(PolledPeers(Unbounded, peers, timeout, now), node) == IndexOf(peers, node)
  {
    SameIndex(PolledPeers(Unbounded, peers, timeout, now), peers, node);
  }

  lemma PolledPeerTells(p: Peer, timeout: uint32, past: seq<Input>, i: Input, lastPoll: nat)
    requires PeerTells(p, timeout, past, lastPoll) && i.Poll? && i.time >= lastPoll
    ensures PeerTells(PolledPeer(Unbounded, p, timeout, i.time), timeout, past + [i], i.time)
  {
    hide LastHeard, LastReport, BeatCount;
    HistoryAppend(past, i, p.node);
  }

  lemma {:induction false} RunTells(m: Monitor, past: seq<Input>, inputs: seq<Input>, now: nat, lastPoll: nat, gap: nat)
    requires Tells(m, past, lastPoll) && now >= lastPoll && Scheduled(inputs, now, lastPoll, gap)
    ensures Tells(Run(Unbounded, m, inputs), past + inputs, EndPoll(inputs, lastPoll))
    decreases |inputs|
  {
    if inputs == [] {
      assert past + inputs == past;
    } else {
      hide Tells, Next;
      var i := inputs[0];
      if i.Beat? {
        BeatTells(m, past, i, lastPoll);
      } else {
        PollTells(m, past, i, lastPoll);
      }
      RunTells(Next(Unbounded, m, i), past + [i], inputs[1..], i.time, if i.Poll? then i.time else lastPoll, gap);
      assert past + [i] + inputs[1..] == past + inputs;
    }
  }

  /**
    What the firmware shows, wraps included: at any time after start-up a known node is ALIVE exactly
    when the last heartbeat it sent was at most the timeout old when the table was last polled, or
    came after that poll; the entry holds that heartbeat, its time modulo 2^32 and the number of
    heartbeats so far modulo 2^32; and until 16 nodes are known, every valid node that was heard is.
   */
  lemma AliveExactlyWhenHeard(timeout: uint32, inputs: seq<Input>, start: nat, gap: nat)
    requires Scheduled(inputs, start, start, gap) && timeout + gap < TWO_32
    ensures var peers := Run(Wrapping, Initial(timeout), inputs).peers;
      && (forall i :: 0 <= i < |peers| ==>
            var heard := LastHeard(inputs, peers[i].node);
            && (peers[i].status == Alive <==> EndPoll(inputs, start) - heard <= timeout)
            && peers[i].lastSeen == heard % TWO_32
            && peers[i].last == LastReport(inputs, peers[i].node)
            && peers[i].heartbeats == BeatCount(inputs, peers[i].node) % TWO_32)
      && (|peers| < MAX_NODES ==>
            forall node: uint8 :: 1 <= node <= NODE_ID_MAX && BeatCount(inputs, node) > 0
              ==> IndexOf(peers, node) < |peers|)
  {
    hide LastHeard, LastReport, BeatCount, EndPoll, Run, Scheduled;
    WrapIsInvisible(timeout, inputs, start, gap);
    NothingTold(timeout, start);
    RunTells(Initial(timeout), [], inputs, start, start, gap);
    assert [] + inputs == inputs;
    var firmware, ideal := Run(Wrapping, Initial(timeout), inputs), Run(Unbounded, Initial(timeout), inputs);
    forall i | 0 <= i < |firmware.peers|
      ensures SamePeer(firmware.peers[i], ideal.peers[i])
      ensures PeerTells(ideal.peers[i], timeout, inputs, EndPoll(inputs, start))
    {
    }
    forall node: uint8
      ensures IndexOf(firmware.peers, node) == IndexOf(ideal.peers, node)
    {
      SameIndex(firmware.peers, ideal.peers, node);
    }
  }

  lemma NothingTold(timeout: uint32, start: nat)
    ensures Tells(Initial(timeout), [], start)
  {
  }

  /**
    Which event a heartbeat causes, told from what was heard before. From a known node: JOINED when it
    had been silent too long at the last poll, REBOOTED when it had not and its uptime went backward
    against its last heartbeat, and otherwise none. From any other: JOINED when the node is valid and
    there is room, and otherwise none.
   */
  lemma BeatEventsFromHistory(timeout: uint32, inputs: seq<Input>, start: nat, gap: nat, node: uint8, hb: Heartbeat,
                              time: nat)
    requires Scheduled(inputs, start, start, gap) && timeout + gap < TWO_32
    ensures var m := Run(Wrapping, Initial(timeout), inputs);
      Next(Wrapping, m, Beat(node, hb, time)).events == m.events +
        if IndexOf(m.peers, node) == |m.peers| then
          if 1 <= node <= 127 && |m.peers| < 16 then [Event(Joined, node, hb)] else []
        else
          if EndPoll(inputs, start) - LastHeard(inputs, node) > timeout then [Event(Joined, node, hb)]
          else if hb.uptime < LastReport(inputs, node).uptime then [Event(Rebooted, node, hb)]
          else []
  {
    hide LastHeard, LastReport, BeatCount, EndPoll, Run, Scheduled;
    AliveExactlyWhenHeard(timeout, inputs, start, gap);
    KnownIsAccepted(timeout, inputs, node);
  }

  /** The events of a poll are the LOST events of the silent peers, with what each said last. */
  lemma {:induction false} PollEventsAre(clock: Clock, peers: seq<Peer>, timeout: uint32, now: int, e: Event)
    ensures e in PollEvents(clock, peers, timeout, now) <==>
      exists i :: 0 <= i < |peers| && Silent(clock, peers[i], timeout, now)
                  && e == Event(Gone, peers[i].node, peers[i].last)
  {
    hide Silent;
    if peers != [] {
      var n := |peers| - 1;
      PollEventsAre(clock, peers[..n], timeout, now, e);
      assert forall i :: 0 <= i < n ==> peers[..n][i] == peers[i];
    }
  }

  /**
    Which events a poll causes, told from what was heard before: LOST, with its last heartbeat, for
    exactly the nodes that were in time for the poll before and are not for this one, one event each.
   */
  lemma PollEventsFromHistory(timeout: uint32, inputs: seq<Input>, start: nat, gap: nat, time: nat, e: Event)
    requires Scheduled(inputs, start, start, gap) && Scheduled(inputs + [Poll(time)], start, start, gap)
    requires timeout + gap < TWO_32
    ensures var m := Run(Wrapping, Initial(timeout), inputs);
      var k := Next(Wrapping, m, Poll(time));
      && m.events <= k.events && |k.events| - |m.events| == AliveCount(m.peers) - AliveCount(k.peers)
      && (e in k.events[|m.events|..] <==>
            exists i :: 0 <= i < |m.peers| && e == Event(Gone, m.peers[i].node, LastReport(inputs, m.peers[i].node))
              && EndPoll(inputs, start) - LastHeard(inputs, m.peers[i].node) <= timeout
              && time - LastHeard(inputs, m.peers[i].node) > timeout)
  {
    hide LastHeard, LastReport, BeatCount, EndPoll, Run, Scheduled, PollEvents, Silent, AliveCount;
    var m := Run(Wrapping, Initial(timeout), inputs);
    var now := Wrapping.Stamp(time);
    AliveExactlyWhenHeard(timeout, inputs, start, gap);
    AliveExactlyWhenHeard(timeout, inputs + [Poll(time)], start, gap);
    RunAppend(Wrapping, Initial(timeout), inputs, Poll(time));
    EndsWithPoll(inputs, start, time);
    PollEventsAre(Wrapping, m.peers, timeout, now, e);
    PollEventCount(Wrapping, m.peers, timeout, now);
    PollCountsPeers(Wrapping, m.peers, timeout, now);
    assert (m.events + PollEvents(Wrapping, m.peers, timeout, now))[|m.events|..]
           == PollEvents(Wrapping, m.peers, timeout, now);
    forall i | 0 <= i < |m.peers|
      ensures Silent(Wrapping, m.peers[i], timeout, now) <==>
        EndPoll(inputs, start) - LastHeard(inputs, m.peers[i].node) <= timeout
        && time - LastHeard(inputs, m.peers[i].node) > timeout
    {
      var k := Next(Wrapping, m, Poll(time));
      SilentGoesLost(Wrapping, m.peers[i], timeout, now);
      HistoryAppend(inputs, Poll(time), m.peers[i].node);
      assert k.peers[i] == PolledPeer(Wrapping, m.peers[i], timeout, now);
    }
  }

  lemma SilentGoesLost(clock: Clock, p: Peer, timeout: uint32, now: int)
    ensures Silent(clock, p, timeout, now) <==>
      p.status == Alive && PolledPeer(clock, p, timeout, now).status != Alive
    ensures PolledPeer(clock, p, timeout, now).node == p.node
  {
  }

  lemma {:induction false} PollEventCount(clock: Clock, peers: seq<Peer>, timeout: uint32, now: int)
    ensures |PollEvents(clock, peers, timeout, now)| == SilentCount(clock, peers, timeout, now)
  {
    hide Silent;
    if peers != [] {
      PollEventCount(clock, peers[..|peers| - 1], timeout, now);
    }
  }

  lemma RunAppend(clock: Clock, m: Monitor, inputs: seq<Input>, i: Input)
    ensures Run(clock, m, inputs + [i]) == Next(clock, Run(clock, m, inputs), i)
  {
    hide Next;
    RunSplit(clock, m, inputs, [i]);
    assert [i][1..] == [];
    assert Run(clock, Run(clock, m, inputs), [i]) == Run(clock, Next(clock, Run(clock, m, inputs), i), []);
  }

  lemma {:induction false} EndsWithPoll(inputs: seq<Input>, lastPoll: nat, time: nat)
    ensures EndPoll(inputs + [Poll(time)], lastPoll) == time
    decreases |inputs|
  {
    if inputs == [] {
      assert inputs + [Poll(time)] == [Poll(time)] && [Poll(time)][1..] == [];
    } else {
      assert (inputs + [Poll(time)])[1..] == inputs[1..] + [Poll(time)];
      EndsWithPoll(inputs[1..], if inputs[0].Poll? then inputs[0].time else lastPoll, time);
    }
  }

  lemma KnownIsAccepted(timeout: uint32, inputs: seq<Input>, node: uint8)
    ensures var m := Run(Wrapping, Initial(timeout), inputs);
      IndexOf(m.peers, node) < |m.peers| ==> !Refused(m, node)
  {
    RunKeepsValid(Wrapping, Initial(timeout), inputs);
  }

  // ---- the condition on the polls cannot be weakened -------------------------------------

  /** One heartbeat at time 0, a poll every millisecond up to the timeout, then one after a full wrap. */
  function SlowPolls(from: nat, until: nat): seq<Input>
    requires from <= until
    decreases until - from
  {
    if from == until then [Poll(TWO_32)] else [Poll(from + 1)] + SlowPolls(from + 1, until)
  }

  lemma {:induction false} SlowPollsScheduled(from: nat, until: nat, gap: nat)
    requires from <= until < TWO_32 && until + gap >= TWO_32
    ensures Scheduled(SlowPolls(from, until), from, from, gap)
    decreases until - from
  {
    if from == until {
      assert SlowPolls(from, until)[1..] == [];
    } else {
      SlowPollsScheduled(from + 1, until, gap);
      assert SlowPolls(from, until)[1..] == SlowPolls(from + 1, until);
    }
  }

  /** A table holding one peer that was heard at time 0. */
  predicate HeardAtZero(m: Monitor) {
    |m.peers| == 1 && m.peers[0].status == Alive && m.peers[0].lastSeen == 0
  }

  lemma PollTooEarly(clock: Clock, m: Monitor, time: nat)
    requires HeardAtZero(m) && time <= m.timeout
    ensures Polled(clock, m, clock.Stamp(time)) == m
  {
    var stamp := clock.Stamp(time);
    assert clock.Age(stamp, 0) == time;
    assert PolledPeers(clock, m.peers, m.timeout, stamp) == m.peers;
    assert m.peers[..0] == [];
    assert PollEvents(clock, m.peers, m.timeout, stamp) == [];
  }

  lemma {:induction false} SlowPollsRun(clock: Clock, m: Monitor, from: nat, until: nat)
    requires HeardAtZero(m) && from <= until && until == m.timeout
    ensures Run(clock, m, SlowPolls(from, until)) == Polled(clock, m, clock.Stamp(TWO_32))
    decreases until - from
  {
    var polls := SlowPolls(from, until);
    if from == until {
      assert polls[1..] == [];
      assert Run(clock, m, polls) == Next(clock, m, polls[0]);
    } else {
      PollTooEarly(clock, m, from + 1);
      assert polls[1..] == SlowPolls(from + 1, until);
      SlowPollsRun(clock, m, from + 1, until);
    }
  }

  lemma {:induction false} AfterFullWrap(m: Monitor)
    requires HeardAtZero(m)
    ensures Polled(Wrapping, m, Wrapping.Stamp(TWO_32)) == m
    ensures |Polled(Unbounded, m, Unbounded.Stamp(TWO_32)).events| == |m.events| + 1
  {
    PollTooEarly(Wrapping, m, 0);
    assert m.peers[..0] == [];
    assert Silent(Unbounded, m.peers[0], m.timeout, TWO_32);
    assert PollEvents(Unbounded, m.peers, m.timeout, TWO_32)
           == [] + PeerEvents(Unbounded, m.peers[0], m.timeout, TWO_32);
  }

  /** With slower polls there is a run on which the wrapped monitor misses a LOST event. */
  lemma SlowPollsAreMissed(timeout: uint32, gap: nat, hb: Heartbeat)
    requires timeout + gap >= TWO_32
    ensures var inputs := [Beat(1, hb, 0)] + SlowPolls(0, timeout);
      && Scheduled(inputs, 0, 0, gap)
      && Run(Wrapping, Initial(timeout), inputs).events != Run(Unbounded, Initial(timeout), inputs).events
  {
    var inputs := [Beat(1, hb, 0)] + SlowPolls(0, timeout);
    assert inputs[1..] == SlowPolls(0, timeout);
    SlowPollsScheduled(0, timeout, gap);
    var m := Heartbeated(Initial(timeout), 1, hb, 0);
    assert HeardAtZero(m);
    SlowPollsRun(Wrapping, m, 0, timeout);
    SlowPollsRun(Unbounded, m, 0, timeout);
    AfterFullWrap(m);
  }

  /** The monitor is wrap-proof on every schedule with a given poll gap exactly when timeout + gap < 2^32. */
  lemma WrapIsInvisibleExactlyWhen(timeout: uint32, gap: nat)
    ensures (forall inputs :: Scheduled(inputs, 0, 0, gap) ==>
               Related(Run(Wrapping, Initial(timeout), inputs), Run(Unbounded, Initial(timeout), inputs)))
            <==> timeout + gap < TWO_32
  {
    if timeout + gap < TWO_32 {
      forall inputs | Scheduled(inputs, 0, 0, gap)
        ensures Related(Run(Wrapping, Initial(timeout), inputs), Run(Unbounded, Initial(timeout), inputs))
      {
        WrapIsInvisible(timeout, inputs, 0, gap);
      }
    } else {
      SlowPollsAreMissed(timeout, gap, NO_HEARTBEAT);
    }
  }
}
