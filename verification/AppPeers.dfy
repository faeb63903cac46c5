/** Whom a node takes to be alive, and shows as alive, told from the frames it has handled. */
module AppPeers {
  import opened AppConfig
  import opened AppModel
  import opened AppSafety
  import opened CIntegers
  import opened ProtocolModel
  import M = MonitorModel
  import MR = MonitorRuns

  // ---- time ------------------------------------------------------------------------------

  /**
    The rounds of can_rx, from when its task runs: true time never runs backward, and polls are at most
    gap apart.
   */
  predicate OnTime(actions: seq<Action>, ready: bool, now: nat, lastPoll: nat, gap: nat)
    decreases |actions|
  {
    if actions == [] then true
    else match actions[0]
      case CanRx(beatTime, pollTime) =>
        if ready then
          && now <= beatTime <= pollTime && pollTime - lastPoll <= gap
          && OnTime(actions[1..], true, pollTime, pollTime, gap)
        else OnTime(actions[1..], false, now, lastPoll, gap)
      case Start(_) => OnTime(actions[1..], true, now, lastPoll, gap)
      case _ => OnTime(actions[1..], ready, now, lastPoll, gap)
  }

  /** When the table was last polled. */
  function LastPoll(actions: seq<Action>, ready: bool, lastPoll: nat): nat
    decreases |actions|
  {
    if actions == [] then lastPoll
    else match actions[0]
      case CanRx(_, pollTime) => LastPoll(actions[1..], ready, if ready then pollTime else lastPoll)
      case Start(_) => LastPoll(actions[1..], true, lastPoll)
      case _ => LastPoll(actions[1..], ready, lastPoll)
  }

  /** The time of the last input. */
  function EndTime(inputs: seq<MR.Input>, now: nat): nat
    decreases |inputs|
  {
    if inputs == [] then now else EndTime(inputs[1..], inputs[0].time)
  }

  lemma {:induction false} ScheduledAppend(inputs: seq<MR.Input>, i: MR.Input, now: nat, lastPoll: nat, gap: nat)
    requires MR.Scheduled(inputs, now, lastPoll, gap)
    requires i.time >= EndTime(inputs, now) && (i.Poll? ==> i.time - MR.EndPoll(inputs, lastPoll) <= gap)
    ensures MR.Scheduled(inputs + [i], now, lastPoll, gap)
    ensures EndTime(inputs + [i], now) == i.time
    ensures MR.EndPoll(inputs + [i], lastPoll) == if i.Poll? then i.time else MR.EndPoll(inputs, lastPoll)
    decreases |inputs|
  {
    if inputs == [] {
      assert [] + [i] == [i] && [i][1..] == [];
    } else {
      assert (inputs + [i])[1..] == inputs[1..] + [i];
      ScheduledAppend(inputs[1..], i, inputs[0].time, if inputs[0].Poll? then inputs[0].time else lastPoll, gap);
    }
  }

  // ---- what the monitor is given ---------------------------------------------------------

  lemma NextInputs(s: App, a: Action)
    requires Possible(s) && (a.Isr? ==> Whole(a.f))
    ensures Next(s, a).ready == (s.ready || a.Start?)
    ensures !(a.CanRx? && s.ready) ==> Next(s, a).peers.inputs == s.peers.inputs
  {
    hide Whole, CanRxRound, Beaten, Advanced, ButtonSeen, EncodedCommand, Offered, ToUint32, Fed, StateSent;
    if a.CanRx? && s.ready {
      CanRxInputs(s, a.beatTime, a.pollTime);
    }
  }

  lemma CanRxInputs(s: App, beatTime: nat, pollTime: nat)
    requires s.rx.queue != [] ==> Whole(s.rx.queue[0])
    ensures CanRxRound(s, beatTime, pollTime).ready == s.ready
    ensures var was, t := s.peers.inputs, CanRxRound(s, beatTime, pollTime);
      || t.peers.inputs == was + [MR.Poll(pollTime)]
      || exists node, hb :: t.peers.inputs == was + [MR.Beat(node, hb, beatTime)] + [MR.Poll(pollTime)]
  {
    hide Whole, DecodedCommand, DecodedHeartbeat, IdType, IdNode, M.Polled, M.Heartbeated, Shown, Offered, ToUint32;
    if s.rx.queue != [] && DecodedHeartbeat(s.rx.queue[0]).Ok? {
      var f, was, t := s.rx.queue[0], s.peers.inputs, CanRxRound(s, beatTime, pollTime);
      IdRebuilt(f.id);
      HeartbeatsHaveTheirType(f);
      assert t.peers.inputs
             == was + [MR.Beat(IdNode(f.id), DecodedHeartbeat(f).value, beatTime)] + [MR.Poll(pollTime)];
    }
  }

  /** The inputs of the monitor keep the schedule of the rounds. */
  lemma {:induction false} RunOnTime(s: App, actions: seq<Action>, start: nat, now: nat, lastPoll: nat, gap: nat)
    requires Possible(s) && WholeFrames(actions) && OnTime(actions, s.ready, now, lastPoll, gap)
    requires MR.Scheduled(s.peers.inputs, start, start, gap)
    requires EndTime(s.peers.inputs, start) <= now && MR.EndPoll(s.peers.inputs, start) == lastPoll
    ensures var inputs := Run(s, actions).peers.inputs;
      && MR.Scheduled(inputs, start, start, gap)
      && MR.EndPoll(inputs, start) == LastPoll(actions, s.ready, lastPoll)
    decreases |actions|
  {
    hide Possible, Next, MR.Scheduled, MR.EndPoll, EndTime, CanRxRound, Whole;
    if actions != [] {
      var a, k := actions[0], Next(s, actions[0]);
      NextInputs(s, a);
      if a.CanRx? && s.ready {
        RoundOnTime(s, a.beatTime, a.pollTime, start, gap);
        RunOnTime(k, actions[1..], start, a.pollTime, a.pollTime, gap);
      } else {
        RunOnTime(k, actions[1..], start, now, lastPoll, gap);
      }
    }
  }

  lemma RoundOnTime(s: App, beatTime: nat, pollTime: nat, start: nat, gap: nat)
    requires Possible(s) && s.ready
    requires MR.Scheduled(s.peers.inputs, start, start, gap)
    requires EndTime(s.peers.inputs, start) <= beatTime <= pollTime
    requires pollTime - MR.EndPoll(s.peers.inputs, start) <= gap
    ensures var inputs := Next(s, CanRx(beatTime, pollTime)).peers.inputs;
      && MR.Scheduled(inputs, start, start, gap)
      && EndTime(inputs, start) == pollTime && MR.EndPoll(inputs, start) == pollTime
  {
    hide MR.Scheduled, MR.EndPoll, EndTime, CanRxRound, Whole;
    CanRxInputs(s, beatTime, pollTime);
    var was, inputs := s.peers.inputs, CanRxRound(s, beatTime, pollTime).peers.inputs;
    if inputs == was + [MR.Poll(pollTime)] {
      ScheduledAppend(was, MR.Poll(pollTime), start, start, gap);
    } else {
      var node, hb :| inputs == was + [MR.Beat(node, hb, beatTime)] + [MR.Poll(pollTime)];
      ScheduledAppend(was, MR.Beat(node, hb, beatTime), start, start, gap);
      ScheduledAppend(was + [MR.Beat(node, hb, beatTime)], MR.Poll(pollTime), start, start, gap);
    }
  }

  /** Polls are no part of what was heard. */
  lemma {:induction false} HeardInBeats(inputs: seq<MR.Input>, node: uint8)
    ensures MR.LastHeard(OnlyBeats(inputs), node) == MR.LastHeard(inputs, node)
    ensures MR.LastReport(OnlyBeats(inputs), node) == MR.LastReport(inputs, node)
    ensures MR.BeatCount(OnlyBeats(inputs), node) == MR.BeatCount(inputs, node)
  {
    if inputs != [] {
      var n := |inputs| - 1;
      var before := OnlyBeats(inputs[..n]);
      HeardInBeats(inputs[..n], node);
      if inputs[n].Beat? {
        MR.HistoryAppend(before, inputs[n], node);
      } else {
        assert before + [] == before;
      }
    }
  }

  // ---- who is shown as alive -------------------------------------------------------------

  /**
    Under every interleaving, and however often the millisecond counter wraps: as long as the rounds of
    can_rx are at most gap apart, 350 ms + gap below 2^32 ms, a node in the table is ALIVE exactly when
    the last heartbeat from it among the frames handled was at most 350 ms old when the table was last
    polled; its entry holds that heartbeat; until 16 nodes are known, every valid node that one of
    those heartbeats came from is; the published count is the number of them that are ALIVE; and the
    display is given the first four as they are.
   */
  lemma AliveExactlyWhenHeard(nodeId: uint8, actions: seq<Action>, start: nat, gap: nat)
    requires WholeFrames(actions) && OnTime(actions, false, start, start, gap) && PEER_TIMEOUT_MS + gap < TWO_32
    ensures Possible(Initial(nodeId))
    ensures var s := Run(Initial(nodeId), actions);
      && AllWhole(s.rx.handled) && |s.rx.times| == |s.rx.handled|
      && var peers, heard := s.peers.monitor.peers, BeatsIn(s.rx.handled, s.rx.times);
      && (forall i :: 0 <= i < |peers| ==>
            && (peers[i].status == M.Alive <==>
                  LastPoll(actions, false, start) - MR.LastHeard(heard, peers[i].node) <= 350)
            && peers[i].last == MR.LastReport(heard, peers[i].node))
      && (|peers| < 16 ==>
            forall node: uint8 :: 1 <= node <= 127 && MR.BeatCount(heard, node) > 0
              ==> M.IndexOf(peers, node) < |peers|)
      && s.peers.alive == M.AliveCount(peers)
      && |s.peers.shown| == Min(|peers|, 4)
      && (forall i :: 0 <= i < |s.peers.shown| ==>
            s.peers.shown[i] == PeerView(peers[i].node, peers[i].status, peers[i].last.state, peers[i].last.errorFlags))
  {
    hide Run, MR.Run, MR.LastHeard, MR.LastReport, MR.BeatCount, LastPoll, OnTime, MR.EndPoll, MR.Scheduled, Whole,
         BeatsIn, OnlyBeats, FramesKept, CommandsKept, HistoryKept, JointKept, SnapshotKept, SentKept, BroadcastKept,
         M.AliveCount, AllWhole;
    InitialInv(nodeId);
    StartsOnTime(nodeId, start, gap);
    RunKeepsInv(Initial(nodeId), actions);
    RunOnTime(Initial(nodeId), actions, start, start, start, gap);
    var s := Run(Initial(nodeId), actions);
    MR.AliveExactlyWhenHeard(PEER_TIMEOUT_MS, s.peers.inputs, start, gap);
    forall node: uint8
      ensures MR.LastHeard(OnlyBeats(s.peers.inputs), node) == MR.LastHeard(s.peers.inputs, node)
      ensures MR.LastReport(OnlyBeats(s.peers.inputs), node) == MR.LastReport(s.peers.inputs, node)
      ensures MR.BeatCount(OnlyBeats(s.peers.inputs), node) == MR.BeatCount(s.peers.inputs, node)
    {
      HeardInBeats(s.peers.inputs, node);
    }
  }

  lemma StartsOnTime(nodeId: uint8, start: nat, gap: nat)
    ensures MR.Scheduled(Initial(nodeId).peers.inputs, start, start, gap)
    ensures EndTime(Initial(nodeId).peers.inputs, start) == start
    ensures MR.EndPoll(Initial(nodeId).peers.inputs, start) == start
    ensures !Initial(nodeId).ready
  {
  }
}
