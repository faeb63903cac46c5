/** What every interleaving of interrupt, can_rx, comms and control keeps. */
module AppSafety {
  import opened AppConfig
  import opened AppModel
  import opened CIntegers
  import opened Messages
  import opened ProtocolModel
  import PL = ProtocolLaws
  import J = JointModel
  import JL = JointLimits
  import M = MonitorModel
  import MR = MonitorRuns

  // ---- subsequences ----------------------------------------------------------------------

  /** a is b with some elements left out, in the same order. */
  predicate Subsequence<T(==)>(a: seq<T>, b: seq<T>) {
    a == [] ||
    (b != [] &&
     (Subsequence(a, b[..|b| - 1]) ||
      (a[|a| - 1] == b[|b| - 1] && Subsequence(a[..|a| - 1], b[..|b| - 1]))))
  }

  lemma SubsequenceSkip<T>(a: seq<T>, b: seq<T>, x: T)
    requires Subsequence(a, b)
    ensures Subsequence(a, b + [x])
  {
    assert (b + [x])[..|b|] == b;
  }

  lemma SubsequenceKeep<T>(a: seq<T>, b: seq<T>, x: T)
    requires Subsequence(a, b)
    ensures Subsequence(a + [x], b + [x])
  {
    assert (a + [x])[..|a|] == a && (b + [x])[..|b|] == b;
  }

  lemma {:induction false} SubsequenceMember<T>(a: seq<T>, b: seq<T>, i: nat)
    requires Subsequence(a, b) && i < |a|
    ensures a[i] in b
    decreases |b|
  {
    var b' := b[..|b| - 1];
    if Subsequence(a, b') {
      SubsequenceMember(a, b', i);
    } else if i < |a| - 1 {
      SubsequenceMember(a[..|a| - 1], b', i);
    }
  }

  lemma {:induction false} SubsequenceTrans<T>(a: seq<T>, b: seq<T>, c: seq<T>)
    requires Subsequence(a, b) && Subsequence(b, c)
    ensures Subsequence(a, c)
    decreases |c|
  {
    if a != [] {
      var b', c' := b[..|b| - 1], c[..|c| - 1];
      if Subsequence(b, c') {
        SubsequenceTrans(a, b, c');
      } else if Subsequence(a, b') {
        SubsequenceTrans(a, b', c');
      } else {
        SubsequenceTrans(a[..|a| - 1], b', c');
      }
    }
  }

  /** Leaving out the end as well. */
  lemma {:induction false} SubsequencePrefix<T>(a: seq<T>, rest: seq<T>, b: seq<T>)
    requires Subsequence(a + rest, b)
    ensures Subsequence(a, b)
    decreases |b|
  {
    if rest == [] {
      assert a + rest == a;
    } else {
      var all := a + rest;
      var b' := b[..|b| - 1];
      assert all[..|all| - 1] == a + rest[..|rest| - 1];
      if Subsequence(all, b') {
        SubsequencePrefix(a, rest, b');
      } else {
        SubsequencePrefix(a, rest[..|rest| - 1], b');
      }
    }
  }

  // ---- frames ----------------------------------------------------------------------------

  /**
    The receive queue is a bounded FIFO between the interrupt and can_rx: nothing is reordered, made
    up or lost without being counted. The counters are 32 bits wide.
   */
  ghost predicate FramesKept(rx: RxPath) {
    && |rx.queue| <= RX_QUEUE_DEPTH
    && rx.accepted == rx.handled + rx.queue
    && Subsequence(rx.accepted, rx.offered)
    && |rx.accepted| <= |rx.offered|
    && rx.frames == |rx.handled| % TWO_32
    && rx.dropped == (|rx.offered| - |rx.accepted|) % TWO_32
    && AllWhole(rx.queue) && AllWhole(rx.handled)
  }

  predicate AllWhole(frames: seq<Frame>) {
    forall i :: 0 <= i < |frames| ==> Whole(frames[i])
  }

  lemma ReceivedKeepsFrames(rx: RxPath, ready: bool, f: Frame)
    requires FramesKept(rx) && Whole(f)
    ensures FramesKept(Received(rx, ready, f))
  {
    hide Subsequence, Whole, ToUint32;
    CountOneMore(|rx.offered| - |rx.accepted|);
    SubsequenceSkip(rx.accepted, rx.offered, f);
    SubsequenceKeep(rx.accepted, rx.offered, f);
    assert rx.accepted + [f] == rx.handled + (rx.queue + [f]);
  }

  lemma TakenKeepsFrames(rx: RxPath, time: nat)
    requires FramesKept(rx) && rx.queue != []
    ensures FramesKept(Taken(rx, time)) && Whole(rx.queue[0])
  {
    hide Subsequence, ToUint32;
    CountOneMore(|rx.handled|);
    assert rx.handled + rx.queue == rx.handled + [rx.queue[0]] + rx.queue[1..];
  }

  // ---- commands --------------------------------------------------------------------------

  function CommandsOf(offers: seq<Offer>): seq<Command> {
    if offers == [] then [] else CommandsOf(offers[..|offers| - 1]) + [offers[|offers| - 1].c]
  }

  /** A command of this node's own sweep. */
  predicate SweepOrder(c: Command) {
    c.mode == MODE_POSITION && Abs(c.target) == SWEEP_AMPLITUDE_MDEG && c.maxVelocity == SWEEP_VELOCITY_MDEG_S
  }

  predicate OfferOk(nodeId: uint8, o: Offer) {
    Executable(o.c) && (o.Own? ==> nodeId == CONTROLLER_NODE_ID && SweepOrder(o.c))
  }

  predicate AllExecutable(cmds: seq<Command>) {
    forall i :: 0 <= i < |cmds| ==> Executable(cmds[i])
  }

  /**
    The command queue is a bounded FIFO between can_rx, comms and control. Whatever is offered to it
    passed the decoder or is a sweep order of the controller node; what reaches the joint is a
    subsequence of what was offered, in order.
   */
  ghost predicate CommandsKept(nodeId: uint8, cmd: CmdPath) {
    && |cmd.queue| <= CMD_QUEUE_DEPTH
    && cmd.queued == cmd.delivered + cmd.queue
    && Subsequence(cmd.queued, CommandsOf(cmd.offers))
    && (forall i :: 0 <= i < |cmd.offers| ==> OfferOk(nodeId, cmd.offers[i]))
    && AllExecutable(cmd.queue)
  }

  lemma CommandsAppend(offers: seq<Offer>, o: Offer)
    ensures CommandsOf(offers + [o]) == CommandsOf(offers) + [o.c]
  {
    assert (offers + [o])[..|offers|] == offers;
  }

  lemma OfferedKeepsCommands(nodeId: uint8, cmd: CmdPath, o: Offer)
    requires CommandsKept(nodeId, cmd) && OfferOk(nodeId, o)
    ensures CommandsKept(nodeId, Offered(cmd, o))
  {
    assert Executable(o.c);
    hide Subsequence, Executable, OfferOk, CommandsOf;
    CommandsAppend(cmd.offers, o);
    SubsequenceSkip(cmd.queued, CommandsOf(cmd.offers), o.c);
    SubsequenceKeep(cmd.queued, CommandsOf(cmd.offers), o.c);
    assert cmd.delivered + cmd.queue + [o.c] == cmd.delivered + (cmd.queue + [o.c]);
  }

  // ---- what was heard --------------------------------------------------------------------

  function HeardOf(offers: seq<Offer>): seq<Command> {
    if offers == [] then []
    else
      var o := offers[|offers| - 1];
      HeardOf(offers[..|offers| - 1]) + (if o.Heard? then [o.c] else [])
  }

  /** The commands of this node's own sweep. */
  function OwnOf(offers: seq<Offer>): seq<Command> {
    if offers == [] then []
    else
      var o := offers[|offers| - 1];
      OwnOf(offers[..|offers| - 1]) + (if o.Own? then [o.c] else [])
  }

  /** A command for one node, by the bits of its identifier: of type 1, for the node itself or for all. */
  predicate CommandFor(nodeId: uint8, f: Frame) {
    f.id / 128 % 16 == 1 && (f.id % 128 == nodeId as int || f.id % 128 == 0)
  }

  lemma AddressedIsCommandFor(nodeId: uint8, f: Frame)
    ensures Addressed(nodeId, f) <==> CommandFor(nodeId, f)
    ensures IdType(f.id) == f.id / 128 % 16 && IdNode(f.id) == f.id % 128
  {
    hide IdType, IdNode;
    IdParts(f.id);
  }

  /** The commands that a sequence of handled frames holds for a node. */
  function CommandsIn(nodeId: uint8, frames: seq<Frame>): seq<Command>
    requires AllWhole(frames)
  {
    if frames == [] then []
    else
      var f := frames[|frames| - 1];
      CommandsIn(nodeId, frames[..|frames| - 1])
      + (if CommandFor(nodeId, f) && DecodedCommand(f).Ok? then [DecodedCommand(f).value] else [])
  }

  /** The frames that count as decode errors: heartbeats, and commands for this node, that do not decode. */
  predicate BadFrame(nodeId: uint8, f: Frame)
    requires Whole(f)
  {
    (f.id / 128 % 16 == 7 && DecodedHeartbeat(f).Rejected?) || (CommandFor(nodeId, f) && DecodedCommand(f).Rejected?)
  }

  function ErrorsIn(nodeId: uint8, frames: seq<Frame>): nat
    requires AllWhole(frames)
  {
    if frames == [] then 0
    else ErrorsIn(nodeId, frames[..|frames| - 1]) + (if BadFrame(nodeId, frames[|frames| - 1]) then 1 else 0)
  }

  /** Exactly the commands in the handled frames were heard, and exactly the bad frames were counted. */
  ghost predicate HistoryKept(nodeId: uint8, handled: seq<Frame>, offers: seq<Offer>, decodeErrors: uint32) {
    && AllWhole(handled)
    && HeardOf(offers) == CommandsIn(nodeId, handled)
    && decodeErrors == ErrorsIn(nodeId, handled) % TWO_32
  }

  lemma HistoryAppend(nodeId: uint8, handled: seq<Frame>, f: Frame)
    requires AllWhole(handled) && Whole(f)
    ensures AllWhole(handled + [f])
    ensures CommandsIn(nodeId, handled + [f]) == CommandsIn(nodeId, handled)
              + (if CommandFor(nodeId, f) && DecodedCommand(f).Ok? then [DecodedCommand(f).value] else [])
    ensures ErrorsIn(nodeId, handled + [f]) == ErrorsIn(nodeId, handled) + if BadFrame(nodeId, f) then 1 else 0
  {
    assert (handled + [f])[..|handled|] == handled;
  }

  lemma HeardAppend(offers: seq<Offer>, o: Offer)
    ensures HeardOf(offers + [o]) == HeardOf(offers) + if o.Heard? then [o.c] else []
    ensures OwnOf(offers + [o]) == OwnOf(offers) + if o.Own? then [o.c] else []
  {
    assert (offers + [o])[..|offers|] == offers;
  }

  lemma OffersGrow(cmd: CmdPath, o: Offer)
    ensures Offered(cmd, o).offers == cmd.offers + [o] && Offered(cmd, o).delivered == cmd.delivered
  {
  }

  /** Handling one frame. */
  lemma HandledKeeps(s: App, time: nat)
    requires FramesKept(s.rx) && s.rx.queue != [] && CommandsKept(s.nodeId, s.cmd)
    requires HistoryKept(s.nodeId, s.rx.handled, s.cmd.offers, s.decodeErrors) && PeersKept(s.peers)
    ensures Whole(s.rx.queue[0])
    ensures var t := HeadHandled(s, time);
      && FramesKept(t.rx) && CommandsKept(s.nodeId, t.cmd)
      && HistoryKept(s.nodeId, t.rx.handled, t.cmd.offers, t.decodeErrors) && PeersKept(t.peers)
      && t.cmd.delivered == s.cmd.delivered && OwnOf(t.cmd.offers) == OwnOf(s.cmd.offers)
      && t == s.(rx := t.rx, cmd := t.cmd, decodeErrors := t.decodeErrors, peers := t.peers)
  {
    hide FramesKept, CommandsKept, Offered, Whole, DecodedCommand, DecodedHeartbeat, IdType, IdNode, PeersKept;
    hide HeardOf, OwnOf, CommandsIn, ErrorsIn, BeatHeard, ToUint32;
    CountOneMore(ErrorsIn(s.nodeId, s.rx.handled));
    TakenKeepsFrames(s.rx, time);
    var f := s.rx.queue[0];
    HistoryAppend(s.nodeId, s.rx.handled, f);
    AddressedIsCommandFor(s.nodeId, f);
    IdRebuilt(f.id);
    if IdType(f.id) == MSG_HEARTBEAT {
      if DecodedHeartbeat(f).Ok? {
        BeatKeepsPeers(s.peers, IdNode(f.id), DecodedHeartbeat(f).value, time);
      }
    } else if Addressed(s.nodeId, f) && DecodedCommand(f).Ok? {
      var o := Heard(DecodedCommand(f).value);
      OfferedKeepsCommands(s.nodeId, s.cmd, o);
      OffersGrow(s.cmd, o);
      HeardAppend(s.cmd.offers, o);
    }
  }

  // ---- joint -----------------------------------------------------------------------------

  /** The commands among the inputs a joint has had. */
  function OrdersIn(inputs: seq<J.Input>): seq<Command> {
    if inputs == [] then []
    else
      var i := inputs[|inputs| - 1];
      OrdersIn(inputs[..|inputs| - 1]) + (if i.Order? then [i.c] else [])
  }

  predicate TicksOf(inputs: seq<J.Input>, dt: uint32) {
    forall i :: 0 <= i < |inputs| && inputs[i].Tick? ==> inputs[i].dt == dt
  }

  /** The joint is where its inputs put it, which are the delivered commands and steps of 1 ms. */
  ghost predicate JointKept(c: JointSide, delivered: seq<Command>) {
    && c.joint == J.Run(J.Initial(JOINT_CONFIG), c.inputs)
    && OrdersIn(c.inputs) == delivered
    && J.Decoded(c.inputs)
    && TicksOf(c.inputs, CONTROL_PERIOD_MS)
  }

  lemma {:induction false} OrdersInAppend(inputs: seq<J.Input>, cmds: seq<Command>)
    ensures OrdersIn(inputs + Orders(cmds)) == OrdersIn(inputs) + cmds
  {
    if cmds == [] {
      assert inputs + Orders(cmds) == inputs;
    } else {
      var n := |cmds| - 1;
      assert (inputs + Orders(cmds))[..|inputs| + n] == inputs + Orders(cmds[..n]);
      OrdersInAppend(inputs, cmds[..n]);
      assert cmds == cmds[..n] + [cmds[n]];
    }
  }

  lemma RoundOrders(inputs: seq<J.Input>, cmds: seq<Command>)
    ensures OrdersIn(inputs + RoundInputs(cmds)) == OrdersIn(inputs) + cmds
  {
    var all := inputs + Orders(cmds);
    OrdersInAppend(inputs, cmds);
    assert inputs + RoundInputs(cmds) == all + [J.Tick(CONTROL_PERIOD_MS)];
    assert (all + [J.Tick(CONTROL_PERIOD_MS)])[..|all|] == all;
  }

  lemma FedKeepsJoint(c: JointSide, delivered: seq<Command>, cmds: seq<Command>)
    requires JointKept(c, delivered) && AllExecutable(cmds)
    ensures JointKept(Fed(c, RoundInputs(cmds)), delivered + cmds)
  {
    hide J.Run, OrdersIn, Executable;
    J.RunSplit(J.Initial(JOINT_CONFIG), c.inputs, RoundInputs(cmds));
    RoundOrders(c.inputs, cmds);
  }

  /** A joint with such a past is sound. */
  lemma JointIsSound(c: JointSide, delivered: seq<Command>)
    requires JointKept(c, delivered)
    ensures J.Valid(c.joint) && c.joint.cfg == JOINT_CONFIG
    ensures Abs(c.joint.velocity) <= JL.LargestLimit(c.inputs)
  {
    JL.MotionLimits(JOINT_CONFIG, c.inputs);
  }

  // ---- monitor ---------------------------------------------------------------------------

  /** The peer table is where the heartbeats and polls it was given put it. */
  ghost predicate PeersKept(p: PeerSide) {
    p.monitor == MR.Run(M.Wrapping, M.Initial(PEER_TIMEOUT_MS), p.inputs)
  }

  lemma MonitorStep(m: M.Monitor, inputs: seq<MR.Input>, i: MR.Input)
    requires m == MR.Run(M.Wrapping, M.Initial(PEER_TIMEOUT_MS), inputs)
    ensures MR.Next(M.Wrapping, m, i) == MR.Run(M.Wrapping, M.Initial(PEER_TIMEOUT_MS), inputs + [i])
  {
    MR.RunSplit(M.Wrapping, M.Initial(PEER_TIMEOUT_MS), inputs, [i]);
    assert [i][1..] == [];
    assert MR.Run(M.Wrapping, m, [i]) == MR.Run(M.Wrapping, MR.Next(M.Wrapping, m, i), []);
  }

  lemma BeatKeepsPeers(p: PeerSide, node: uint8, hb: Heartbeat, time: nat)
    requires PeersKept(p)
    ensures PeersKept(BeatHeard(p, node, hb, time))
  {
    hide MR.Run, M.Heartbeated;
    MonitorStep(p.monitor, p.inputs, MR.Beat(node, hb, time));
  }

  lemma PollKeepsPeers(p: PeerSide, time: nat)
    requires PeersKept(p)
    ensures PeersKept(PeersPolled(p, time))
  {
    hide MR.Run, M.Polled;
    MonitorStep(p.monitor, p.inputs, MR.Poll(time));
  }

  /** The heartbeats that a sequence of handled frames holds, with the times they were handled at. */
  function BeatsIn(frames: seq<Frame>, times: seq<nat>): seq<MR.Input>
    requires AllWhole(frames) && |times| == |frames|
  {
    if frames == [] then []
    else
      var n := |frames| - 1;
      BeatsIn(frames[..n], times[..n]) + BeatOf(frames[n], times[n])
  }

  function BeatOf(f: Frame, time: nat): seq<MR.Input>
    requires Whole(f)
  {
    IdRebuilt(f.id);
    if DecodedHeartbeat(f).Ok? then [MR.Beat(IdNode(f.id), DecodedHeartbeat(f).value, time)] else []
  }

  function OnlyBeats(inputs: seq<MR.Input>): seq<MR.Input> {
    if inputs == [] then []
    else
      var i := inputs[|inputs| - 1];
      OnlyBeats(inputs[..|inputs| - 1]) + (if i.Beat? then [i] else [])
  }

  /** The monitor was given exactly the heartbeats in the handled frames. */
  ghost predicate BeatsKept(rx: RxPath, p: PeerSide) {
    |rx.times| == |rx.handled| && AllWhole(rx.handled) && OnlyBeats(p.inputs) == BeatsIn(rx.handled, rx.times)
  }

  /** What is published of the peers is the table as it is. */
  ghost predicate PublishedKept(p: PeerSide) {
    p.alive == M.AliveCount(p.monitor.peers) && p.shown == Shown(p.monitor.peers)
  }

  lemma BeatsAppend(frames: seq<Frame>, times: seq<nat>, f: Frame, time: nat)
    requires AllWhole(frames) && |times| == |frames| && Whole(f)
    ensures AllWhole(frames + [f])
    ensures BeatsIn(frames + [f], times + [time]) == BeatsIn(frames, times) + BeatOf(f, time)
  {
    hide BeatOf;
    assert (frames + [f])[..|frames|] == frames && (times + [time])[..|times|] == times;
  }

  lemma OnlyBeatsAppend(inputs: seq<MR.Input>, i: MR.Input)
    ensures OnlyBeats(inputs + [i]) == OnlyBeats(inputs) + if i.Beat? then [i] else []
  {
    assert (inputs + [i])[..|inputs|] == inputs;
  }

  lemma HeartbeatsHaveTheirType(f: Frame)
    requires Whole(f)
    ensures DecodedHeartbeat(f).Ok? ==> IdType(f.id) == MSG_HEARTBEAT as nat
  {
  }

  lemma HandledKeepsBeats(s: App, time: nat)
    requires FramesKept(s.rx) && s.rx.queue != [] && BeatsKept(s.rx, s.peers)
    ensures Whole(s.rx.queue[0])
    ensures var t := HeadHandled(s, time); BeatsKept(t.rx, t.peers)
  {
    hide Subsequence, Offered, Whole, DecodedCommand, DecodedHeartbeat, IdType, IdNode, M.Heartbeated, BeatsIn,
         OnlyBeats;
    var f := s.rx.queue[0];
    TakenKeepsFrames(s.rx, time);
    HeartbeatsHaveTheirType(f);
    IdRebuilt(f.id);
    BeatsAppend(s.rx.handled, s.rx.times, f, time);
    if DecodedHeartbeat(f).Ok? {
      OnlyBeatsAppend(s.peers.inputs, MR.Beat(IdNode(f.id), DecodedHeartbeat(f).value, time));
    }
  }

  lemma PollKeepsBeats(rx: RxPath, p: PeerSide, time: nat)
    requires BeatsKept(rx, p)
    ensures BeatsKept(rx, PeersPolled(p, time)) && PublishedKept(PeersPolled(p, time))
  {
    hide M.Polled, Shown, BeatsIn, OnlyBeats;
    OnlyBeatsAppend(p.inputs, MR.Poll(time));
  }

  // ---- sent frames -----------------------------------------------------------------------

  /** A frame that the protocol's own decoders accept, from this node or to every node. */
  predicate SentOk(nodeId: uint8, f: Frame) {
    && Whole(f)
    && ((DecodedHeartbeat(f).Ok? && IdNode(f.id) == nodeId as nat)
        || (DecodedJointState(f).Ok? && IdNode(f.id) == nodeId as nat)
        || (DecodedCommand(f).Ok? && IdNode(f.id) == NODE_BROADCAST as nat && SweepOrder(DecodedCommand(f).value)))
  }

  /** So is every frame this node hands to the driver. */
  predicate SentKept(nodeId: uint8, sent: seq<Frame>) {
    forall i :: 0 <= i < |sent| ==> SentOk(nodeId, sent[i])
  }

  lemma BeatenKeepsSent(s: App, r: Round)
    requires SentKept(s.nodeId, s.sent)
    ensures SentKept(s.nodeId, Beaten(s, r))
  {
    hide EncodedHeartbeat, DecodedHeartbeat, HeartbeatOf, DecodedCommand, DecodedJointState, IdNode;
    if HeartbeatEncodable(s.nodeId, HeartbeatOf(s, r)) {
      PL.HeartbeatRoundTrip(s.nodeId, HeartbeatOf(s, r));
    }
  }

  lemma CommandIsSentOk(nodeId: uint8, c: Command)
    requires SweepOrder(c)
    ensures SentOk(nodeId, EncodedCommand(NODE_BROADCAST, c))
  {
    hide EncodedCommand, DecodedHeartbeat, DecodedCommand, DecodedJointState, IdNode;
    PL.CommandRoundTrip(NODE_BROADCAST, c);
  }

  lemma StateKeepsSent(s: App, st: JointState)
    requires SentKept(s.nodeId, s.sent)
    ensures SentKept(s.nodeId, StateSent(s, st))
  {
    hide EncodedJointState, DecodedHeartbeat, DecodedCommand, DecodedJointState, IdNode;
    if NodeValid(s.nodeId) {
      PL.JointStateRoundTrip(s.nodeId, st);
    }
  }

  /** The commands this node has broadcast are those it has offered to its own joint. */
  ghost predicate BroadcastKept(sent: seq<Frame>, offers: seq<Offer>) {
    AllWhole(sent) && CommandsIn(NODE_BROADCAST, sent) == OwnOf(offers)
  }

  lemma KindsAreExclusive(f: Frame)
    requires Whole(f)
    ensures DecodedHeartbeat(f).Ok? || DecodedJointState(f).Ok? ==> !DecodedCommand(f).Ok?
    ensures DecodedCommand(f).Ok? ==> IdType(f.id) == MSG_COMMAND as nat
  {
    hide IdType, IdNode;
  }

  lemma BroadcastAppend(sent: seq<Frame>, f: Frame)
    requires AllWhole(sent) && Whole(f)
    ensures AllWhole(sent + [f])
    ensures !DecodedCommand(f).Ok? ==> CommandsIn(NODE_BROADCAST, sent + [f]) == CommandsIn(NODE_BROADCAST, sent)
    ensures DecodedCommand(f).Ok? && IdNode(f.id) == NODE_BROADCAST as nat ==>
              CommandsIn(NODE_BROADCAST, sent + [f]) == CommandsIn(NODE_BROADCAST, sent) + [DecodedCommand(f).value]
  {
    hide CommandsIn, DecodedCommand, IdNode, IdType, Whole;
    HistoryAppend(NODE_BROADCAST, sent, f);
    AddressedIsCommandFor(NODE_BROADCAST, f);
    KindsAreExclusive(f);
  }

  lemma BeatenKeepsBroadcast(s: App, r: Round, offers: seq<Offer>)
    requires BroadcastKept(s.sent, offers)
    ensures BroadcastKept(Beaten(s, r), offers)
  {
    hide EncodedHeartbeat, DecodedHeartbeat, HeartbeatOf, DecodedCommand, DecodedJointState, IdNode, CommandsIn, OwnOf;
    if HeartbeatEncodable(s.nodeId, HeartbeatOf(s, r)) {
      var f := EncodedHeartbeat(s.nodeId, HeartbeatOf(s, r));
      PL.HeartbeatRoundTrip(s.nodeId, HeartbeatOf(s, r));
      KindsAreExclusive(f);
      BroadcastAppend(s.sent, f);
    }
  }

  lemma StateKeepsBroadcast(s: App, st: JointState, offers: seq<Offer>)
    requires BroadcastKept(s.sent, offers)
    ensures BroadcastKept(StateSent(s, st), offers)
  {
    hide EncodedJointState, DecodedHeartbeat, DecodedCommand, DecodedJointState, IdNode, CommandsIn, OwnOf, ToUint32;
    if NodeValid(s.nodeId) {
      var f := EncodedJointState(s.nodeId, st);
      PL.JointStateRoundTrip(s.nodeId, st);
      KindsAreExclusive(f);
      BroadcastAppend(s.sent, f);
    }
  }

  lemma CommandKeepsBroadcast(sent: seq<Frame>, offers: seq<Offer>, c: Command)
    requires BroadcastKept(sent, offers) && Executable(c)
    ensures BroadcastKept(sent + [EncodedCommand(NODE_BROADCAST, c)], offers + [Own(c)])
  {
    hide EncodedCommand, DecodedCommand, IdNode, CommandsIn, OwnOf, Executable;
    PL.CommandRoundTrip(NODE_BROADCAST, c);
    BroadcastAppend(sent, EncodedCommand(NODE_BROADCAST, c));
    HeardAppend(offers, Own(c));
  }

  // ---- published state -------------------------------------------------------------------

  /** What is published of the joint is its state and its flags as they are; before its first step, nothing. */
  ghost predicate SnapshotKept(j: J.Joint, snapshot: JointState, flags: nat) {
    && J.Valid(j) && flags == j.errorFlags
    && (D.Tells(snapshot, j) || (snapshot == NO_STATE && j == J.Initial(JOINT_CONFIG)))
  }

  // ---- the sweep -------------------------------------------------------------------------

  /**
    This node's own orders are numbered one by one, in 16 bits, and the sweep knows the last number;
    its target is that of the last order.
   */
  ghost predicate NumberedKept(w: Sweep, offers: seq<Offer>) {
    var own := OwnOf(offers);
    && Abs(w.target) == SWEEP_AMPLITUDE_MDEG
    && w.sequence == |own| % TWO_16
    && (forall i :: 0 <= i < |own| ==> own[i].sequence == (i + 1) % TWO_16)
    && (own != [] ==> own[|own| - 1].target == w.target)
  }

  lemma OwnOrderIsNumbered(w: Sweep, offers: seq<Offer>, c: Command, after: Sweep)
    requires NumberedKept(w, offers) && Abs(after.target) == SWEEP_AMPLITUDE_MDEG && c.target == after.target
    requires c.sequence == after.sequence == ToUint16(w.sequence + 1)
    ensures NumberedKept(after, offers + [Own(c)])
  {
    hide OwnOf, ToUint16;
    HeardAppend(offers, Own(c));
    NumberOneMore(|OwnOf(offers)|);
    var own := OwnOf(offers);
    assert OwnOf(offers + [Own(c)]) == own + [c];
  }

  // ---- the invariant ---------------------------------------------------------------------

  ghost predicate Inv(s: App) {
    && FramesKept(s.rx)
    && CommandsKept(s.nodeId, s.cmd)
    && HistoryKept(s.nodeId, s.rx.handled, s.cmd.offers, s.decodeErrors)
    && JointKept(s.control, s.cmd.delivered)
    && SnapshotKept(s.control.joint, s.snapshot, s.jointFlags)
    && PeersKept(s.peers)
    && BeatsKept(s.rx, s.peers)
    && PublishedKept(s.peers)
    && SentKept(s.nodeId, s.sent)
    && BroadcastKept(s.sent, s.cmd.offers)
    && NumberedKept(s.sweep, s.cmd.offers)
  }

  lemma InvPossible(s: App)
    requires Inv(s)
    ensures Possible(s)
  {
    JointIsSound(s.control, s.cmd.delivered);
  }

  lemma InitialInv(nodeId: uint8)
    ensures Inv(Initial(nodeId))
  {
    JL.InitialIsValid(JOINT_CONFIG);
  }

  lemma CanRxKeepsInv(s: App, beatTime: nat, pollTime: nat)
    requires Inv(s)
    ensures s.rx.queue != [] ==> Whole(s.rx.queue[0])
    ensures Inv(CanRxRound(s, beatTime, pollTime))
  {
    hide FramesKept, CommandsKept, HistoryKept, JointKept, SnapshotKept, PeersKept, BeatsKept, PublishedKept, SentKept,
         Handled, Whole, PeersPolled, OwnOf, CommandsIn, ToUint16;
    if s.rx.queue != [] {
      HandledKeeps(s, beatTime);
      HandledKeepsBeats(s, beatTime);
    }
    var t := HeadHandled(s, beatTime);
    PollKeepsPeers(t.peers, pollTime);
    PollKeepsBeats(t.rx, t.peers, pollTime);
  }

  lemma CommsKeepsInv(s: App, r: Round)
    requires Inv(s)
    ensures Inv(CommsRound(s, r))
  {
    hide FramesKept, CommandsKept, HistoryKept, JointKept, SnapshotKept, PeersKept, BeatsKept, PublishedKept, SentOk,
         BroadcastKept, EncodedCommand, Beaten, Offered, ButtonSeen, Advanced, SweepOrder, OwnOf, ToUint16;
    var w := Advanced(ButtonSeen(s.sweep, r), r);
    var beaten := Beaten(s, r);
    BeatenKeepsSent(s, r);
    BeatenKeepsBroadcast(s, r, s.cmd.offers);
    ButtonKeepsTarget(s.sweep, r);
    SweepKeepsTarget(ButtonSeen(s.sweep, r), r);
    if s.nodeId == CONTROLLER_NODE_ID {
      var c := SweepCommand(w);
      CommandIsSentOk(s.nodeId, c);
      OwnOrderKeepsCommands(s, c);
      SweepIsExecutable(c);
      CommandKeepsBroadcast(beaten, s.cmd.offers, c);
      OwnOrderIsNumbered(s.sweep, s.cmd.offers, c, w);
      OffersGrow(s.cmd, Own(c));
    }
  }

  lemma SweepIsExecutable(c: Command)
    requires SweepOrder(c)
    ensures Executable(c)
  {
  }

  lemma OwnOrderKeepsCommands(s: App, c: Command)
    requires s.nodeId == CONTROLLER_NODE_ID && SweepOrder(c) && CommandsKept(s.nodeId, s.cmd)
    requires HistoryKept(s.nodeId, s.rx.handled, s.cmd.offers, s.decodeErrors)
    ensures CommandsKept(s.nodeId, Offered(s.cmd, Own(c)))
    ensures HistoryKept(s.nodeId, s.rx.handled, Offered(s.cmd, Own(c)).offers, s.decodeErrors)
  {
    hide CommandsKept, Offered, CommandsIn, ErrorsIn, HeardOf;
    OfferedKeepsCommands(s.nodeId, s.cmd, Own(c));
    OffersGrow(s.cmd, Own(c));
    HeardAppend(s.cmd.offers, Own(c));
  }

  lemma ButtonKeepsTarget(w: Sweep, r: Round)
    ensures ButtonSeen(w, r).target == w.target && ButtonSeen(w, r).sequence == w.sequence
  {
  }

  lemma SweepKeepsTarget(w: Sweep, r: Round)
    requires Abs(w.target) == SWEEP_AMPLITUDE_MDEG
    ensures SweepOrder(SweepCommand(Advanced(w, r))) && Abs(Advanced(w, r).target) == SWEEP_AMPLITUDE_MDEG
    ensures Advanced(w, r).sequence == ToUint16(w.sequence + 1)
  {
    assert w.target == 90000 || w.target == -90000;
    NegatedSweep(w.target);
  }

  lemma ControlKeepsInv(s: App)
    requires Inv(s)
    ensures s.control.joint.cfg.accel >= 1
    ensures Inv(ControlRound(s)) && J.Valid(ControlRound(s).control.joint)
  {
    hide FramesKept, JointKept, PeersKept, BeatsKept, PublishedKept, SentKept, HistoryKept, BroadcastKept, StateSent,
         Fed, J.Valid, D.Reported, D.Tells, CommandsOf, Subsequence, OfferOk, Executable, OwnOf;
    JointIsSound(s.control, s.cmd.delivered);
    var t := Fed(s.control, RoundInputs(s.cmd.queue));
    FedKeepsJoint(s.control, s.cmd.delivered, s.cmd.queue);
    JointIsSound(t, s.cmd.delivered + s.cmd.queue);
    D.ReportTells(t.joint);
    StateKeepsSent(s, D.Reported(t.joint));
    StateKeepsBroadcast(s, D.Reported(t.joint), s.cmd.offers);
    assert s.cmd.delivered + s.cmd.queue + [] == s.cmd.delivered + s.cmd.queue;
  }

  lemma NextKeepsInv(s: App, a: Action)
    requires Inv(s) && (a.Isr? ==> Whole(a.f))
    ensures Possible(s) && Inv(Next(s, a))
  {
    hide FramesKept, CommandsKept, JointKept, SnapshotKept, PeersKept, PublishedKept, SentKept, BroadcastKept,
         HistoryKept, NumberedKept, Possible, Whole, CanRxRound, CommsRound, ControlRound, BeatsIn, OnlyBeats, AllWhole;
    InvPossible(s);
    match a
    case Start(millis) => ClockKeepsNumbers(s.sweep, s.cmd.offers, millis);
    case Isr(f) =>
      ReceivedKeepsFrames(s.rx, s.ready, f);
      ReceivedKeepsHandled(s.rx, s.ready, f);
    case CanRx(beatTime, pollTime) => CanRxKeepsInv(s, beatTime, pollTime);
    case Comms(r) => CommsKeepsInv(s, r);
    case Control => ControlKeepsInv(s);
  }

  lemma ClockKeepsNumbers(w: Sweep, offers: seq<Offer>, millis: uint32)
    requires NumberedKept(w, offers)
    ensures NumberedKept(w.(lastFlip := millis), offers)
  {
  }

  lemma ReceivedKeepsHandled(rx: RxPath, ready: bool, f: Frame)
    ensures Received(rx, ready, f).handled == rx.handled && Received(rx, ready, f).times == rx.times
  {
  }

  lemma {:induction false} RunKeepsInv(s: App, actions: seq<Action>)
    requires Inv(s) && WholeFrames(actions)
    ensures Possible(s) && Inv(Run(s, actions))
    decreases |actions|
  {
    hide Inv, Possible, Next;
    InvPossible(s);
    if actions != [] {
      NextKeepsInv(s, actions[0]);
      RunKeepsInv(Next(s, actions[0]), actions[1..]);
    }
  }
}
