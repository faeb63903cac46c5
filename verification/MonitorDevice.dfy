/** The peer table as the firmware keeps it: a fixed array, a count, and callbacks as a ghost log. */
module MonitorDevice {
  import opened CIntegers
  import opened Messages
  import opened MonitorModel

  /** What the poll loop does to one entry. */
  lemma PollOneMore(events: seq<Event>, ps: seq<Peer>, timeout: uint32, now: int, i: nat)
    requires i < |ps|
    ensures var silent := ps[i].status == Alive && (now - ps[i].lastSeen) % TWO_32 > timeout;
      && PolledPeer(Wrapping, ps[i], timeout, now) == (if silent then ps[i].(status := Lost) else ps[i])
      && events + PollEvents(Wrapping, ps[..i + 1], timeout, now)
         == events + PollEvents(Wrapping, ps[..i], timeout, now)
            + (if silent then [Event(Gone, ps[i].node, ps[i].last)] else [])
  {
    PollEventsSplit(Wrapping, events, ps, timeout, now, i + 1);
  }

  lemma PollNone(ps: seq<Peer>, timeout: uint32, now: int)
    ensures PollEvents(Wrapping, ps[..0], timeout, now) == []
  {
  }

  class Table {
    const peers: array<Peer>
    var count: uint8
    const timeout: uint32
    ghost var events: seq<Event>

    ghost predicate Ok()
      reads this, peers
    {
      peers.Length == MAX_NODES && count as nat <= MAX_NODES && Valid(View())
    }

    /** The used part of the table, and everything emitted so far. */
    ghost function View(): Monitor
      requires count as nat <= peers.Length
      reads this, peers
    {
      Monitor(peers[..count], timeout, events)
    }

    constructor (timeoutMs: uint32)
      ensures Ok() && fresh(peers)
      ensures View() == Initial(timeoutMs)
      ensures count == 0 && timeout == timeoutMs && events == []
    {
      peers := new Peer[MAX_NODES](_ => Blank(0));
      count := 0;
      timeout := timeoutMs;
      events := [];
      new;
      assert View() == Initial(timeoutMs);
    }

    /** The slot of a node; count when it has none. */
    method Find(node: uint8) returns (i: uint8)
      requires Ok()
      ensures i as nat == IndexOf(View().peers, node)
    {
      i := 0;
      while i < count
        invariant i <= count
        invariant forall k :: 0 <= k < i ==> peers[k].node != node
      {
        if peers[i].node == node {
          IndexIs(View().peers, node, i as nat);
          return;
        }
        i := i + 1;
      }
      IndexAbsent(View().peers, node);
    }

    method OnHeartbeat(node: uint8, hb: Heartbeat, now: uint32) returns (accepted: bool)
      requires Ok()
      modifies this`count, this`events, peers
      ensures Ok()
      ensures accepted == !Refused(old(View()), node)
      ensures View() == Heartbeated(old(View()), node, hb, now)
    {
      hide MonitorModel.Valid;
      HeartbeatKeepsValid(View(), node, hb, now);
      if node == NODE_BROADCAST || node > NODE_ID_MAX {
        return false;
      }
      var i := Find(node);
      if i == count {
        if count as nat >= MAX_NODES {
          return false;
        }
        count := count + 1;
        peers[i] := Blank(node);
      }
      ghost var was := old(View());
      assert forall k :: 0 <= k < |was.peers| && k != i as nat ==> peers[k] == was.peers[k];
      var before := peers[i].status;
      var rebooted := before == Alive && hb.uptime < peers[i].last.uptime;
      assert peers[i] == Entry(was, node);

      peers[i] := peers[i].(last := hb, lastSeen := now, status := Alive,
                            heartbeats := ToUint32(peers[i].heartbeats + 1));
      if before != Alive {
        events := events + [Event(Joined, node, hb)];
      } else if rebooted {
        events := events + [Event(Rebooted, node, hb)];
      }
      assert peers[i] == Beaten(Entry(was, node), hb, now);
      assert View().peers == Stored(was.peers, peers[i]);
      assert events == was.events + BeatEvents(Entry(was, node), hb);
      return true;
    }

    method Poll(now: uint32)
      requires Ok()
      modifies this`events, peers
      ensures Ok()
      ensures View() == Polled(Wrapping, old(View()), now)
    {
      hide PollEvents, Silent, PolledPeers, MonitorModel.Valid, PeerEvents;
      ghost var was := View();
      PollKeepsValid(Wrapping, was, now);
      PollNone(was.peers, timeout, now);
      var i: uint8 := 0;
      while i < count
        invariant i <= count
        invariant forall k :: 0 <= k < i ==> peers[k] == PolledPeer(Wrapping, was.peers[k], timeout, now)
        invariant forall k :: i <= k < count ==> peers[k] == was.peers[k]
        invariant events == was.events + PollEvents(Wrapping, was.peers[..i], timeout, now)
      {
        PollOneMore(was.events, was.peers, timeout, now, i as nat);
        if peers[i].status == Alive && ToUint32(now - peers[i].lastSeen) > timeout {
          peers[i] := peers[i].(status := Lost);
          events := events + [Event(Gone, peers[i].node, peers[i].last)];
        }
        i := i + 1;
      }
      assert was.peers[..count] == was.peers;
      assert View().peers == PolledPeers(Wrapping, was.peers, timeout, now);
    }

    method Alives() returns (n: uint8)
      requires Ok()
      ensures n as nat == AliveCount(View().peers)
    {
      n := 0;
      var i: uint8 := 0;
      while i < count
        invariant i <= count && n <= i
        invariant n as nat == AliveCount(View().peers[..i])
      {
        assert View().peers[..i + 1][..i] == View().peers[..i];
        if peers[i].status == Alive {
          n := n + 1;
        }
        i := i + 1;
      }
      assert View().peers[..count] == View().peers;
    }
  }

  // ---- the functions of node_monitor.h, whose arguments may be NULL -----------------------

  method OnHeartbeat(m: Table?, node: uint8, hb: Option<Heartbeat>, now: uint32) returns (accepted: bool)
    requires m != null ==> m.Ok()
    modifies if m == null then {} else {m, m.peers}
    ensures m != null ==> m.Ok()
    ensures m == null || hb.None? ==> !accepted
    ensures m != null && hb.None? ==> m.View() == old(m.View())
    ensures m != null && hb.Some? ==>
      accepted == !Refused(old(m.View()), node) && m.View() == Heartbeated(old(m.View()), node, hb.value, now)
  {
    if m == null || hb.None? {
      return false;
    }
    accepted := m.OnHeartbeat(node, hb.value, now);
  }

  method Poll(m: Table?, now: uint32)
    requires m != null ==> m.Ok()
    modifies if m == null then {} else {m, m.peers}
    ensures m != null ==> m.Ok() && m.View() == Polled(Wrapping, old(m.View()), now)
  {
    if m != null {
      m.Poll(now);
    }
  }

  method Alives(m: Table?) returns (n: uint8)
    requires m != null ==> m.Ok()
    ensures n as nat == if m == null then 0 else AliveCount(m.View().peers)
  {
    if m == null {
      return 0;
    }
    n := m.Alives();
  }
}
