/** Heartbeat supervision of common/node/src/node_monitor.c, as functions on values. */
module MonitorModel {
  import opened CIntegers
  import opened Messages

  const MAX_NODES: nat := 16

  datatype Status = Unknown | Alive | Lost

  datatype Peer = Peer(node: uint8, status: Status, lastSeen: int, last: Heartbeat, heartbeats: uint32)

  datatype Kind = Joined | Gone | Rebooted

  /** One callback: what happened, to which node, and the heartbeat it last sent. */
  datatype Event = Event(kind: Kind, node: uint8, last: Heartbeat)

  datatype Monitor = Monitor(peers: seq<Peer>, timeout: uint32, events: seq<Event>)

  /** The firmware's millisecond counter wraps after 2^32; the ideal one never does. */
  datatype Clock = Wrapping | Unbounded {
    function Stamp(time: nat): int {
      if Wrapping? then time % TWO_32 else time
    }

    /** Elapsed time between two stamps of this clock. */
    function Age(now: int, seen: int): int {
      if Wrapping? then (now - seen) % TWO_32 else now - seen
    }
  }

  function Initial(timeout: uint32): Monitor {
    Monitor([], timeout, [])
  }

  // ---- table -----------------------------------------------------------------------------

  predicate Known(peers: seq<Peer>, node: uint8) {
    exists i :: 0 <= i < |peers| && peers[i].node == node
  }

  /** Where a node is in the table, or the length of the table. */
  function IndexOf(peers: seq<Peer>, node: uint8): (i: nat)
    ensures i <= |peers|
    ensures i < |peers| ==> peers[i].node == node
    ensures forall k :: 0 <= k < i ==> peers[k].node != node
  {
    if peers == [] then 0 else if peers[0].node == node then 0 else 1 + IndexOf(peers[1..], node)
  }

  function AliveCount(peers: seq<Peer>): nat {
    if peers == [] then 0
    else AliveCount(peers[..|peers| - 1]) + (if peers[|peers| - 1].status == Alive then 1 else 0)
  }

  // ---- heartbeat -------------------------------------------------------------------------

  /** A heartbeat is refused from an invalid node, and from a new node once the table is full. */
  predicate Refused(m: Monitor, node: uint8) {
    node == NODE_BROADCAST || node > NODE_ID_MAX || (IndexOf(m.peers, node) == |m.peers| && |m.peers| >= MAX_NODES)
  }

  function Beaten(p: Peer, hb: Heartbeat, now: int): Peer {
    p.(last := hb, lastSeen := now, status := Alive, heartbeats := ToUint32(p.heartbeats + 1))
  }

  const NO_HEARTBEAT: Heartbeat := Heartbeat(0, 0, 0, 0, 0, 0)

  function Blank(node: uint8): Peer {
    Peer(node, Unknown, 0, NO_HEARTBEAT, 0)
  }

  function BeatEvents(before: Peer, hb: Heartbeat): seq<Event> {
    if before.status != Alive then [Event(Joined, before.node, hb)]
    else if hb.uptime < before.last.uptime then [Event(Rebooted, before.node, hb)]
    else []
  }

  /** The entry a heartbeat finds, or the blank one it makes. */
  function Entry(m: Monitor, node: uint8): Peer {
    var i := IndexOf(m.peers, node);
    if i < |m.peers| then m.peers[i] else Blank(node)
  }

  /** The table with the entry of one node replaced, or added at the end. */
  function Stored(peers: seq<Peer>, p: Peer): seq<Peer> {
    var i := IndexOf(peers, p.node);
    if i < |peers| then peers[i := p] else peers + [p]
  }

  function Heartbeated(m: Monitor, node: uint8, hb: Heartbeat, now: int): Monitor {
    if Refused(m, node) then m
    else
      m.(peers := Stored(m.peers, Beaten(Entry(m, node), hb, now)),
         events := m.events + BeatEvents(Entry(m, node), hb))
  }

  // ---- poll ------------------------------------------------------------------------------

  predicate Silent(clock: Clock, p: Peer, timeout: uint32, now: int) {
    p.status == Alive && clock.Age(now, p.lastSeen) > timeout
  }

  function PolledPeer(clock: Clock, p: Peer, timeout: uint32, now: int): Peer {
    if Silent(clock, p, timeout, now) then p.(status := Lost) else p
  }

  function PolledPeers(clock: Clock, peers: seq<Peer>, timeout: uint32, now: int): (after: seq<Peer>)
    ensures |after| == |peers|
    ensures forall i :: 0 <= i < |peers| ==> after[i] == PolledPeer(clock, peers[i], timeout, now)
  {
    seq(|peers|, i requires 0 <= i < |peers| => PolledPeer(clock, peers[i], timeout, now))
  }

  /** The event of one silent peer; none for any other. */
  function PeerEvents(clock: Clock, p: Peer, timeout: uint32, now: int): seq<Event> {
    if Silent(clock, p, timeout, now) then [Event(Gone, p.node, p.last)] else []
  }

  function PollEvents(clock: Clock, peers: seq<Peer>, timeout: uint32, now: int): seq<Event> {
    if peers == [] then []
    else
      PollEvents(clock, peers[..|peers| - 1], timeout, now) + PeerEvents(clock, peers[|peers| - 1], timeout, now)
  }

  function Polled(clock: Clock, m: Monitor, now: int): Monitor {
    m.(peers := PolledPeers(clock, m.peers, m.timeout, now),
       events := m.events + PollEvents(clock, m.peers, m.timeout, now))
  }

  // ---- event traces ----------------------------------------------------------------------

  /** Where a node is in the grammar JOINED (REBOOTED | LOST JOINED)* [LOST] of its events. */
  datatype Phase = Unseen | Up | Down | IllFormed

  function Advance(phase: Phase, kind: Kind): Phase {
    match (phase, kind)
    case (Unseen, Joined) => Up
    case (Up, Rebooted) => Up
    case (Up, Gone) => Down
    case (Down, Joined) => Up
    case (_, _) => IllFormed
  }

  /** The phase of a node after a log of events. */
  function Trace(events: seq<Event>, node: uint8): Phase {
    if events == [] then Unseen
    else
      var e := events[|events| - 1];
      var phase := Trace(events[..|events| - 1], node);
      if e.node == node then Advance(phase, e.kind) else phase
  }

  function Count(events: seq<Event>, kind: Kind): nat {
    if events == [] then 0
    else Count(events[..|events| - 1], kind) + (if events[|events| - 1].kind == kind then 1 else 0)
  }

  function PhaseInTable(peers: seq<Peer>, node: uint8): Phase {
    var i := IndexOf(peers, node);
    if i == |peers| then Unseen else match peers[i].status case Alive => Up case Lost => Down case Unknown => IllFormed
  }

  predicate WellFormed(peers: seq<Peer>) {
    && |peers| <= MAX_NODES
    && (forall i :: 0 <= i < |peers| ==> 1 <= peers[i].node <= NODE_ID_MAX && peers[i].status != Unknown)
    && DistinctNodes(peers)
  }

  predicate DistinctNodes(peers: seq<Peer>) {
    forall i, k :: 0 <= i < k < |peers| ==> peers[i].node != peers[k].node
  }

  /** The table is well formed, and every node's events agree with its entry. */
  predicate Valid(m: Monitor) {
    && WellFormed(m.peers)
    && (forall node: uint8 :: Trace(m.events, node) == PhaseInTable(m.peers, node))
    && Count(m.events, Joined) == Count(m.events, Gone) + AliveCount(m.peers)
  }

  lemma IndexIs(peers: seq<Peer>, node: uint8, i: nat)
    requires i < |peers| && peers[i].node == node
    requires forall k :: 0 <= k < i ==> peers[k].node != node
    ensures IndexOf(peers, node) == i
  {
  }

  lemma IndexAbsent(peers: seq<Peer>, node: uint8)
    requires forall k :: 0 <= k < |peers| ==> peers[k].node != node
    ensures IndexOf(peers, node) == |peers|
  {
  }

  lemma TraceAppend(events: seq<Event>, e: Event, node: uint8)
    ensures Trace(events + [e], node)
         == if e.node == node then Advance(Trace(events, node), e.kind) else Trace(events, node)
    ensures forall kind :: Count(events + [e], kind) == Count(events, kind) + if e.kind == kind then 1 else 0
  {
    assert (events + [e])[..|events|] == events;
  }

  lemma CountAppend(events: seq<Event>, es: seq<Event>, kind: Kind)
    requires |es| <= 1
    ensures Count(events + es, kind) == Count(events, kind) + if es != [] && es[0].kind == kind then 1 else 0
  {
    if es == [] {
      assert events + es == events;
    } else {
      assert (events + es)[..|events|] == events;
    }
  }

  lemma {:induction false} AliveCountUpdate(peers: seq<Peer>, i: nat, p: Peer)
    requires i < |peers|
    ensures AliveCount(peers[i := p]) + (if peers[i].status == Alive then 1 else 0)
         == AliveCount(peers) + (if p.status == Alive then 1 else 0)
  {
    var n := |peers| - 1;
    if i == n {
      assert peers[i := p][..n] == peers[..n];
    } else {
      assert peers[i := p][..n] == peers[..n][i := p];
      AliveCountUpdate(peers[..n], i, p);
    }
  }

  lemma AliveCountAppend(peers: seq<Peer>, p: Peer)
    ensures AliveCount(peers + [p]) == AliveCount(peers) + if p.status == Alive then 1 else 0
  {
    assert (peers + [p])[..|peers|] == peers;
  }

  // ---- one call keeps the table ----------------------------------------------------------

  function PhaseBefore(status: Status): Phase {
    match status case Alive => Up case Lost => Down case Unknown => Unseen
  }

  lemma EntryPhase(m: Monitor, node: uint8)
    requires Valid(m)
    ensures PhaseInTable(m.peers, node) == PhaseBefore(Entry(m, node).status) && Entry(m, node).node == node
  {
  }

  lemma StoredIsWellFormed(peers: seq<Peer>, p: Peer)
    requires WellFormed(peers) && 1 <= p.node <= NODE_ID_MAX && p.status != Unknown
    requires IndexOf(peers, p.node) < |peers| || |peers| < MAX_NODES
    ensures WellFormed(Stored(peers, p))
  {
  }

  lemma StoredCount(peers: seq<Peer>, p: Peer)
    ensures var i := IndexOf(peers, p.node);
      AliveCount(Stored(peers, p)) + (if i < |peers| && peers[i].status == Alive then 1 else 0)
      == AliveCount(peers) + if p.status == Alive then 1 else 0
  {
    var i := IndexOf(peers, p.node);
    if i < |peers| {
      AliveCountUpdate(peers, i, p);
    } else {
      AliveCountAppend(peers, p);
    }
  }

  lemma HeartbeatKeepsValid(m: Monitor, node: uint8, hb: Heartbeat, now: int)
    requires Valid(m)
    ensures Valid(Heartbeated(m, node, hb, now))
    ensures !Refused(m, node) ==> Trace(Heartbeated(m, node, hb, now).events, node) == Up
  {
    hide Trace, PhaseInTable, Count, AliveCount, PhaseBefore, WellFormed, Stored;
    if !Refused(m, node) {
      var k, after := Heartbeated(m, node, hb, now), Beaten(Entry(m, node), hb, now);
      EntryPhase(m, node);
      StoredIsWellFormed(m.peers, after);
      StoredCount(m.peers, after);
      BeatTrace(m.events, Entry(m, node), hb, node);
      forall other: uint8
        ensures Trace(k.events, other) == PhaseInTable(k.peers, other)
      {
        BeatPhase(m.peers, after, other);
        BeatTrace(m.events, Entry(m, node), hb, other);
      }
    }
  }

  /** A heartbeat changes the table phase of its own node only. */
  lemma BeatPhase(peers: seq<Peer>, after: Peer, other: uint8)
    requires after.status == Alive
    ensures PhaseInTable(Stored(peers, after), other)
         == if other == after.node then Up else PhaseInTable(peers, other)
  {
    var k := Stored(peers, after);
    if other == after.node {
      IndexIs(k, other, IndexOf(peers, other));
    } else {
      var j := IndexOf(peers, other);
      if j < |peers| {
        IndexIs(k, other, j);
      } else {
        IndexAbsent(k, other);
      }
    }
  }

  lemma BeatTrace(events: seq<Event>, before: Peer, hb: Heartbeat, other: uint8)
    ensures var after := events + BeatEvents(before, hb);
      && (other != before.node ==> Trace(after, other) == Trace(events, other))
      && (Trace(events, before.node) == PhaseBefore(before.status) ==> Trace(after, before.node) == Up)
      && Count(after, Gone) == Count(events, Gone)
      && Count(after, Joined) == Count(events, Joined) + if before.status == Alive then 0 else 1
  {
    var es := BeatEvents(before, hb);
    if es != [] {
      TraceAppend(events, es[0], other);
      TraceAppend(events, es[0], before.node);
    } else {
      assert events + es == events;
    }
  }

  lemma PollKeepsValid(clock: Clock, m: Monitor, now: int)
    requires Valid(m)
    ensures Valid(Polled(clock, m, now))
  {
    hide Trace, PhaseInTable, Count, AliveCount, Silent;
    var k := Polled(clock, m, now);
    forall node: uint8
      ensures Trace(k.events, node) == PhaseInTable(k.peers, node)
    {
      PollTrace(clock, m.events, m.peers, m.timeout, now, node);
      PollPhase(clock, m, now, node);
    }
    PollCounts(clock, m.events, m.peers, m.timeout, now);
    assert WellFormed(k.peers) by {
      PollKeepsTable(clock, m.peers, m.timeout, now);
    }
  }

  lemma PollKeepsTable(clock: Clock, peers: seq<Peer>, timeout: uint32, now: int)
    requires WellFormed(peers)
    ensures WellFormed(PolledPeers(clock, peers, timeout, now))
  {
  }

  lemma PollPhase(clock: Clock, m: Monitor, now: int, node: uint8)
    requires Valid(m)
    ensures var i := IndexOf(m.peers, node);
      PhaseInTable(Polled(clock, m, now).peers, node)
      == if i < |m.peers| && Silent(clock, m.peers[i], m.timeout, now) then Down else PhaseInTable(m.peers, node)
  {
    var i := IndexOf(m.peers, node);
    var after := PolledPeers(clock, m.peers, m.timeout, now);
    if i < |m.peers| {
      IndexIs(after, node, i);
    } else {
      IndexAbsent(after, node);
    }
  }

  /** Over a table with distinct nodes a poll ends the trace of each silent node once, and of no other. */
  lemma {:induction false} PollTrace(clock: Clock, events: seq<Event>, peers: seq<Peer>, timeout: uint32, now: int,
                                     node: uint8)
    requires DistinctNodes(peers)
    requires Trace(events, node) == PhaseInTable(peers, node)
    ensures var i := IndexOf(peers, node);
      Trace(events + PollEvents(clock, peers, timeout, now), node)
      == if i < |peers| && Silent(clock, peers[i], timeout, now) then Down else Trace(events, node)
  {
    PollTraceFrom(clock, events, peers, timeout, now, node, |peers|);
    assert peers[..|peers|] == peers;
  }

  lemma {:induction false} PollTraceFrom(clock: Clock, events: seq<Event>, peers: seq<Peer>, timeout: uint32, now: int,
                                         node: uint8, n: nat)
    requires n <= |peers|
    requires DistinctNodes(peers)
    requires Trace(events, node) == PhaseInTable(peers, node)
    ensures var i := IndexOf(peers, node);
      Trace(events + PollEvents(clock, peers[..n], timeout, now), node)
      == if i < n && Silent(clock, peers[i], timeout, now) then Down else Trace(events, node)
  {
    if n == 0 {
      assert events + PollEvents(clock, peers[..0], timeout, now) == events;
    } else {
      hide Silent, PhaseInTable, Trace, IndexOf, PeerEvents, PollEvents, DistinctNodes, Advance;
      var p, log := peers[n - 1], events + PollEvents(clock, peers[..n - 1], timeout, now);
      PollTraceFrom(clock, events, peers, timeout, now, node, n - 1);
      PollEventsSplit(clock, events, peers, timeout, now, n);
      PeerTrace(clock, log, p, timeout, now, node);
      EntryIs(peers, n - 1);
      if p.node == node && Silent(clock, p, timeout, now) {
        SilentIsAlive(clock, p, timeout, now);
        assert Trace(log, node) == Up;
        UpGoesDown();
      }
    }
  }

  lemma UpGoesDown()
    ensures Advance(Up, Gone) == Down
  {
  }

  lemma PollEventsSplit(clock: Clock, log: seq<Event>, peers: seq<Peer>, timeout: uint32, now: int, n: nat)
    requires 0 < n <= |peers|
    ensures log + PollEvents(clock, peers[..n], timeout, now)
         == log + PollEvents(clock, peers[..n - 1], timeout, now) + PeerEvents(clock, peers[n - 1], timeout, now)
  {
    assert peers[..n][..n - 1] == peers[..n - 1];
  }

  /** What the events of one peer do to a trace. */
  lemma PeerTrace(clock: Clock, log: seq<Event>, p: Peer, timeout: uint32, now: int, node: uint8)
    ensures Trace(log + PeerEvents(clock, p, timeout, now), node)
         == if p.node == node && Silent(clock, p, timeout, now) then Advance(Trace(log, node), Gone)
            else Trace(log, node)
  {
    hide Silent, Advance;
    var es := PeerEvents(clock, p, timeout, now);
    if es == [] {
      assert log + es == log;
    } else {
      TraceAppend(log, es[0], node);
    }
  }

  /** The entry of a node in a table of distinct nodes, and its phase when it is alive. */
  lemma EntryIs(peers: seq<Peer>, i: nat)
    requires i < |peers| && DistinctNodes(peers)
    ensures IndexOf(peers, peers[i].node) == i
    ensures peers[i].status == Alive ==> PhaseInTable(peers, peers[i].node) == Up
  {
    IndexIs(peers, peers[i].node, i);
  }

  lemma SilentIsAlive(clock: Clock, p: Peer, timeout: uint32, now: int)
    ensures Silent(clock, p, timeout, now) ==> p.status == Alive
  {
  }

  function SilentCount(clock: Clock, peers: seq<Peer>, timeout: uint32, now: int): nat {
    if peers == [] then 0
    else SilentCount(clock, peers[..|peers| - 1], timeout, now)
         + (if Silent(clock, peers[|peers| - 1], timeout, now) then 1 else 0)
  }

  lemma {:induction false} PollCountsEvents(clock: Clock, events: seq<Event>, peers: seq<Peer>, timeout: uint32,
                                            now: int)
    ensures var after := events + PollEvents(clock, peers, timeout, now);
      && Count(after, Joined) == Count(events, Joined)
      && Count(after, Gone) == Count(events, Gone) + SilentCount(clock, peers, timeout, now)
  {
    hide Silent;
    if peers == [] {
      assert events + PollEvents(clock, peers, timeout, now) == events;
    } else {
      hide PollEvents, Count;
      var n := |peers| - 1;
      PollCountsEvents(clock, events, peers[..n], timeout, now);
      PollEventsSplit(clock, events, peers, timeout, now, n + 1);
      assert peers[..n + 1] == peers;
      CountsAfter(events + PollEvents(clock, peers[..n], timeout, now), PeerEvents(clock, peers[n], timeout, now));
    }
  }

  lemma CountsAfter(events: seq<Event>, es: seq<Event>)
    requires |es| <= 1 && (es != [] ==> es[0].kind == Gone)
    ensures Count(events + es, Joined) == Count(events, Joined)
    ensures Count(events + es, Gone) == Count(events, Gone) + |es|
  {
    CountAppend(events, es, Joined);
    CountAppend(events, es, Gone);
  }

  lemma {:induction false} PollCountsPeers(clock: Clock, peers: seq<Peer>, timeout: uint32, now: int)
    ensures AliveCount(PolledPeers(clock, peers, timeout, now)) + SilentCount(clock, peers, timeout, now)
         == AliveCount(peers)
  {
    if peers != [] {
      var n := |peers| - 1;
      var after := PolledPeers(clock, peers, timeout, now);
      PollCountsPeers(clock, peers[..n], timeout, now);
      assert after[..n] == PolledPeers(clock, peers[..n], timeout, now);
      assert after[n] == PolledPeer(clock, peers[n], timeout, now);
    }
  }

  /** A poll turns alive peers into LOST events one for one. */
  lemma PollCounts(clock: Clock, events: seq<Event>, peers: seq<Peer>, timeout: uint32, now: int)
    ensures var after := events + PollEvents(clock, peers, timeout, now);
      && Count(after, Joined) == Count(events, Joined)
      && Count(after, Gone) + AliveCount(PolledPeers(clock, peers, timeout, now))
         == Count(events, Gone) + AliveCount(peers)
  {
    PollCountsEvents(clock, events, peers, timeout, now);
    PollCountsPeers(clock, peers, timeout, now);
  }
}
