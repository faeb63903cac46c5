/** What a node tells the bus is true, and what its controller broadcasts is what the other nodes do. */
module AppBus {
  import opened AppConfig
  import opened AppModel
  import opened AppSafety
  import opened AppTheorems
  import opened CIntegers
  import opened Messages
  import opened ProtocolModel
  import PL = ProtocolLaws
  import J = JointModel
  import D = JointDevice
  import Bits

  // ---- heartbeats ------------------------------------------------------------------------

  /**
    In any reachable state the heartbeat that a node sends decodes to the truth: the flags are PEER_LOST
    and LIMIT_REACHED exactly as the joint has them and the three of the bus exactly as the driver has
    them, and the state is FAULT when the bus is off, else OPERATIONAL exactly when the joint is in
    POSITION mode. A node without a valid identity sends none.
   */
  lemma HeartbeatTellsTheTruth(s: App, r: Round)
    requires Inv(s)
    ensures !NodeValid(s.nodeId) ==> CommsRound(s, r).sent == s.sent
    ensures NodeValid(s.nodeId) ==>
      var j, sent, n := s.control.joint, CommsRound(s, r).sent, |s.sent|;
      && n < |sent| && s.sent <= sent
      && Whole(sent[n]) && IdNode(sent[n].id) == s.nodeId as nat && DecodedHeartbeat(sent[n]).Ok?
      && var hb := DecodedHeartbeat(sent[n]).value;
      && hb.uptime == r.uptime && hb.fwMajor == 0 && hb.fwMinor == 1 && hb.fwPatch == 0
      && (forall i: nat :: Bits.HasBit(hb.errorFlags, i) <==>
            || (i == BIT_PEER_LOST && J.PeerLost(j)) || (i == BIT_LIMIT_REACHED && J.LimitReached(j))
            || (i == 0 && r.passive) || (i == 1 && r.busOff) || (i == 2 && r.txDropped))
      && hb.state == (if r.busOff then NODE_STATE_FAULT
                      else if j.mode == MODE_POSITION then NODE_STATE_OPERATIONAL else NODE_STATE_PREOP)
  {
    hide Inv, HeartbeatOf, CommsRound, DecodedHeartbeat, IdNode, Whole, J.PeerLost, J.LimitReached, Bits.HasBit;
    HeartbeatContents(s, r);
    HeartbeatIsSent(s, r);
  }

  lemma HeartbeatContents(s: App, r: Round)
    requires Inv(s)
    ensures var j, hb := s.control.joint, HeartbeatOf(s, r);
      && hb.uptime == r.uptime && hb.fwMajor == 0 && hb.fwMinor == 1 && hb.fwPatch == 0
      && (forall i: nat :: Bits.HasBit(hb.errorFlags, i) <==>
            || (i == BIT_PEER_LOST && J.PeerLost(j)) || (i == BIT_LIMIT_REACHED && J.LimitReached(j))
            || (i == 0 && r.passive) || (i == 1 && r.busOff) || (i == 2 && r.txDropped))
      && hb.state == (if r.busOff then NODE_STATE_FAULT
                      else if j.mode == MODE_POSITION then NODE_STATE_OPERATIONAL else NODE_STATE_PREOP)
  {
    FlagsAreTheJoints(s);
    hide Bits.HasBit, Inv, J.PeerLost, J.LimitReached, HeartbeatFlags, Bits.And;
    var flags := HeartbeatFlags(s.jointFlags, r);
    FlagsBelow(s.jointFlags, r);
    assert ToUint16(flags) == flags;
    forall i: nat {
      FlagsAt(s.jointFlags, r, i);
    }
    BusOffBit(flags);
  }

  /** What is published of the joint is up to date between any two steps of the system. */
  lemma FlagsAreTheJoints(s: App)
    requires Inv(s)
    ensures s.jointFlags < TWO_16 && s.snapshot.mode == s.control.joint.mode
    ensures forall i: nat :: Bits.HasBit(s.jointFlags, i) <==>
      (i == BIT_PEER_LOST && J.PeerLost(s.control.joint)) || (i == BIT_LIMIT_REACHED && J.LimitReached(s.control.joint))
  {
    hide Bits.HasBit, FramesKept, CommandsKept, HistoryKept, JointKept, PeersKept, BeatsKept, PublishedKept, SentKept,
         BroadcastKept;
  }

  lemma HeartbeatIsSent(s: App, r: Round)
    ensures !NodeValid(s.nodeId) ==> CommsRound(s, r).sent == s.sent
    ensures NodeValid(s.nodeId) ==>
      var sent, n := CommsRound(s, r).sent, |s.sent|;
      && n < |sent| && s.sent <= sent
      && Whole(sent[n]) && IdNode(sent[n].id) == s.nodeId as nat && DecodedHeartbeat(sent[n]) == Ok(HeartbeatOf(s, r))
  {
    HeartbeatIsEncodable(s, r);
    hide HeartbeatOf, EncodedHeartbeat, DecodedHeartbeat, IdNode, Whole, EncodedCommand, Advanced, ButtonSeen, Offered;
    if NodeValid(s.nodeId) {
      PL.HeartbeatRoundTrip(s.nodeId, HeartbeatOf(s, r));
    }
  }

  lemma HeartbeatIsEncodable(s: App, r: Round)
    ensures HeartbeatEncodable(s.nodeId, HeartbeatOf(s, r)) <==> NodeValid(s.nodeId)
  {
    hide HeartbeatFlags, HeartbeatState;
  }

  lemma FlagsBelow(flags: nat, r: Round)
    requires flags < TWO_16
    ensures HeartbeatFlags(flags, r) < TWO_16
  {
    hide Bits.Or;
    Bits.Pow2Values();
    Bits.OrBelow(flags, 1, 16);
    var f1 := if r.passive then Bits.Or(flags, 1) else flags;
    Bits.OrBelow(f1, 2, 16);
    var f2 := if r.busOff then Bits.Or(f1, 2) else f1;
    Bits.OrBelow(f2, 4, 16);
  }

  lemma FlagsAt(flags: nat, r: Round, i: nat)
    ensures Bits.HasBit(HeartbeatFlags(flags, r), i) <==>
      || Bits.HasBit(flags, i)
      || (r.passive && i == 0) || (r.busOff && i == 1) || (r.txDropped && i == 2)
  {
    hide Bits.HasBit, Bits.Or;
    assert Bits.Pow2(0) == 1 && Bits.Pow2(1) == 2 && Bits.Pow2(2) == 4;
    Bits.HasBitPow2(0, i);
    Bits.HasBitPow2(1, i);
    Bits.HasBitPow2(2, i);
    Bits.HasBitOr(flags, 1, i);
    var f1 := if r.passive then Bits.Or(flags, 1) else flags;
    Bits.HasBitOr(f1, 2, i);
    var f2 := if r.busOff then Bits.Or(f1, 2) else f1;
    Bits.HasBitOr(f2, 4, i);
  }

  lemma BusOffBit(flags: nat)
    ensures Bits.And(flags, 2) != 0 <==> Bits.HasBit(flags, 1)
  {
    Bits.HasBitAnd(flags, 2, 1);
    assert Bits.HasBit(2, 1);
    Bits.ZeroHasNoBit(1);
    if flags > 1 {
      assert Bits.And(flags, 2) == 2 * Bits.And(flags / 2, 1);
      assert Bits.And(flags / 2, 1) == (flags / 2) % 2;
    }
  }

  // ---- joint state -----------------------------------------------------------------------

  /**
    After every control round the queued commands have reached the joint, oldest first, and then one step
    of 1 ms; what is published is the state this has brought the joint to, field by field, and its
    flags; and in every tenth round a node with a valid identity sends one frame, which decodes to it.
   */
  lemma StateTellsTheTruth(s: App)
    requires Inv(s)
    ensures s.control.joint.cfg.accel >= 1
    ensures var t := ControlRound(s);
      var st, n := t.snapshot, |s.sent|;
      && J.Valid(t.control.joint) && t.ticks == (s.ticks + 1) % TWO_32
      && t.cmd.queue == [] && t.cmd.delivered == s.cmd.delivered + s.cmd.queue
      && t.control.joint == J.Stepped(J.Run(s.control.joint, Orders(s.cmd.queue)), 1)
      && D.Tells(st, t.control.joint) && t.jointFlags == t.control.joint.errorFlags
      && s.sent <= t.sent
      && (if t.ticks % 10 == 0 && 1 <= s.nodeId <= 127 then
            |t.sent| == n + 1 && Whole(t.sent[n]) && IdNode(t.sent[n].id) == s.nodeId as nat
            && DecodedJointState(t.sent[n]) == Ok(st)
          else t.sent == s.sent)
  {
    ControlKeepsInv(s);
    ControlPublishes(s);
    ControlSteps(s);
    D.ReportTells(ControlRound(s).control.joint);
    hide Inv, J.Valid, J.Run, J.Stepped, D.Reported, D.Tells, ControlRound, StateSent, DecodedJointState, IdNode, Whole;
    StateIsSent(s, ControlRound(s).snapshot);
  }

  lemma ControlSteps(s: App)
    requires s.control.joint.cfg.accel >= 1
    ensures var t := ControlRound(s);
      && t.cmd.queue == [] && t.cmd.delivered == s.cmd.delivered + s.cmd.queue
      && t.control.joint == J.Stepped(J.Run(s.control.joint, Orders(s.cmd.queue)), 1)
  {
    hide J.Run, J.Valid, D.Reported, StateSent, J.Stepped;
    var tick := J.Tick(CONTROL_PERIOD_MS);
    J.RunSplit(s.control.joint, Orders(s.cmd.queue), [tick]);
    J.RunOne(J.Run(s.control.joint, Orders(s.cmd.queue)), tick);
  }

  lemma ControlPublishes(s: App)
    requires s.control.joint.cfg.accel >= 1 && J.Valid(ControlRound(s).control.joint)
    ensures var t := ControlRound(s);
      && t.snapshot == D.Reported(t.control.joint) && t.ticks == ToUint32(s.ticks + 1)
      && t.jointFlags == t.control.joint.errorFlags
      && t.sent == StateSent(s, t.snapshot)
  {
    hide J.Valid, D.Reported, Fed, StateSent, RoundInputs, ToUint32;
  }

  lemma StateIsSent(s: App, st: JointState)
    ensures var sent, n := StateSent(s, st), |s.sent|;
      && s.sent <= sent
      && (if ToUint32(s.ticks + 1) % JOINT_STATE_PERIOD_MS == 0 && NodeValid(s.nodeId) then
            |sent| == n + 1 && Whole(sent[n]) && IdNode(sent[n].id) == s.nodeId as nat
            && DecodedJointState(sent[n]) == Ok(st)
          else sent == s.sent)
  {
    hide EncodedJointState, DecodedJointState, IdNode, Whole, ToUint32;
    if NodeValid(s.nodeId) {
      PL.JointStateRoundTrip(s.nodeId, st);
    }
  }

  // ---- the sweep -------------------------------------------------------------------------

  /**
    The controller's round after its heartbeat. The sweep is switched over exactly on a rising edge of
    the button. While it is on, the target is turned round, and the time of that noted, exactly when
    three seconds have passed since it was last, in 32 bits; the sequence goes up by one, in 16 bits;
    and one frame is sent to all that decodes to the very command that is offered to the node's own
    joint. While it is off, neither happens.
   */
  lemma SweepRound(s: App, r: Round)
    requires Inv(s) && s.nodeId == 1
    ensures var t, w, n := CommsRound(s, r), s.sweep, |s.sent|;
      && t.sweep.buttonWasDown == r.button
      && t.sweep.enabled == (if r.button && !w.buttonWasDown then !w.enabled else w.enabled)
      && s.sent < t.sent
      && (if t.sweep.enabled then
            var turn := (r.now - w.lastFlip) % TWO_32 >= 3000;
            && t.sweep.target == (if turn then -w.target else w.target)
            && t.sweep.lastFlip == (if turn then r.later else w.lastFlip)
            && t.sweep.sequence == (w.sequence + 1) % TWO_16
            && |t.sent| == n + 2 && Whole(t.sent[n + 1]) && t.sent[n + 1].id == 0x080
            && var c := Command(MODE_POSITION, t.sweep.target, 90000, t.sweep.sequence);
            && DecodedCommand(t.sent[n + 1]) == Ok(c)
            && t.cmd.offers == s.cmd.offers + [Own(c)]
          else
            && t.sweep.target == w.target && t.sweep.lastFlip == w.lastFlip && t.sweep.sequence == w.sequence
            && |t.sent| == n + 1 && t.cmd == s.cmd)
  {
    hide Inv, CommsRound, EncodedCommand, DecodedCommand, Whole, Beaten, Advanced, Executable, Offered, SweepOrder;
    var seen := ButtonSeen(s.sweep, r);
    var w := Advanced(seen, r);
    SweepRoundParts(s, r);
    SweepIsSent(s, r);
    SweepTurns(s, seen, r);
    SweepIsExecutable(SweepCommand(w));
    SweepFrame(SweepCommand(w));
    OffersGrow(s.cmd, Own(SweepCommand(w)));
  }

  lemma SweepRoundParts(s: App, r: Round)
    requires s.nodeId == 1
    ensures var seen, t := ButtonSeen(s.sweep, r), CommsRound(s, r);
      var w := Advanced(seen, r);
      if seen.enabled then
        && t.sweep == w && t.sent == Beaten(s, r) + [EncodedCommand(NODE_BROADCAST, SweepCommand(w))]
        && t.cmd == Offered(s.cmd, Own(SweepCommand(w)))
      else t.sweep == seen && t.sent == Beaten(s, r) && t.cmd == s.cmd
  {
    hide Beaten, Advanced, ButtonSeen, EncodedCommand, Offered, SweepCommand;
  }

  lemma SweepTurns(s: App, seen: Sweep, r: Round)
    requires Inv(s) && seen.target == s.sweep.target
    ensures SweepOrder(SweepCommand(Advanced(seen, r)))
    ensures var w, turn := Advanced(seen, r), (r.now - seen.lastFlip) % TWO_32 >= 3000;
      && w.target == (if turn then -seen.target else seen.target)
      && w.lastFlip == (if turn then r.later else seen.lastFlip)
      && w.sequence == (seen.sequence + 1) % TWO_16
      && w.enabled == seen.enabled && w.buttonWasDown == seen.buttonWasDown
  {
    hide FramesKept, CommandsKept, HistoryKept, JointKept, SnapshotKept, PeersKept, BeatsKept, PublishedKept, SentKept,
         BroadcastKept, OwnOf, Negated;
    SweepKeepsTarget(seen, r);
    NegatedSweep(seen.target);
  }

  lemma SweepIsSent(s: App, r: Round)
    requires s.nodeId == 1
    ensures |Beaten(s, r)| == |s.sent| + 1 && s.sent < Beaten(s, r)
  {
    HeartbeatIsEncodable(s, r);
    hide HeartbeatOf, EncodedHeartbeat;
  }

  lemma SweepFrame(c: Command)
    requires Executable(c)
    ensures var f := EncodedCommand(NODE_BROADCAST, c); f.id == 0x080 && DecodedCommand(f) == Ok(c)
  {
    hide EncodedCommand, DecodedCommand, Executable, MakeId, IdNode;
    PL.CommandRoundTrip(NODE_BROADCAST, c);
    CommandId(NODE_BROADCAST, c);
    MakeIdValue(MSG_COMMAND, NODE_BROADCAST);
  }

  lemma CommandId(node: uint8, c: Command)
    ensures EncodedCommand(node, c).id == MakeId(MSG_COMMAND, node)
  {
    hide PutU16, PutU32, MakeId, Zeros;
  }

  /** A node that is not the controller sends its heartbeat and does nothing else in a comms round. */
  lemma FollowersOnlyBeat(s: App, r: Round)
    requires s.nodeId != 1
    ensures CommsRound(s, r) == s.(sent := CommsRound(s, r).sent) && |CommsRound(s, r).sent| <= |s.sent| + 1
  {
    hide HeartbeatOf, EncodedHeartbeat;
  }

  /** The sweep's clock starts with the tasks: the first target holds for three seconds from there. */
  lemma SweepFromStart(s: App, millis: uint32, r: Round)
    requires Inv(s) && s.nodeId == 1 && !s.ready
    requires Possible(s)
    ensures var t := CommsRound(Next(s, Start(millis)), r);
      t.sweep.enabled ==>
        t.sweep.target == if (r.now - millis) % TWO_32 >= 3000 then -s.sweep.target else s.sweep.target
  {
    hide Inv, Possible, Next, CommsRound, EncodedCommand, DecodedCommand, Whole;
    NextKeepsInv(s, Start(millis));
    StartIs(s, millis);
    SweepRound(Next(s, Start(millis)), r);
  }

  lemma StartIs(s: App, millis: uint32)
    requires Possible(s) && !s.ready
    ensures Next(s, Start(millis)) == s.(ready := true, sweep := s.sweep.(lastFlip := millis))
  {
    hide Possible;
  }

  /**
    Over every run the controller's own orders are numbered one by one, in 16 bits, each turns to one
    of the two ends at the speed of the sweep, and their list is what it has broadcast.
   */
  lemma OrdersAreNumbered(actions: seq<Action>)
    requires WholeFrames(actions)
    ensures Possible(Initial(CONTROLLER_NODE_ID))
    ensures var s := Run(Initial(CONTROLLER_NODE_ID), actions);
      var own := OwnOf(s.cmd.offers);
      && AllWhole(s.sent) && CommandsIn(NODE_BROADCAST, s.sent) == own
      && forall i :: 0 <= i < |own| ==>
           SweepOrder(own[i]) && own[i].sequence == (i + 1) % TWO_16
  {
    hide Run, FramesKept, HistoryKept, JointKept, SnapshotKept, PeersKept, BeatsKept, PublishedKept, SentKept, OfferOk,
         Subsequence, CommandsOf, OwnOf, CommandsIn, SweepOrder;
    InitialInv(CONTROLLER_NODE_ID);
    RunKeepsInv(Initial(CONTROLLER_NODE_ID), actions);
    RunOffered(Initial(CONTROLLER_NODE_ID), actions);
    var offers := Run(Initial(CONTROLLER_NODE_ID), actions).cmd.offers;
    forall i | 0 <= i < |OwnOf(offers)|
      ensures SweepOrder(OwnOf(offers)[i])
    {
      OwnAreSweeps(CONTROLLER_NODE_ID, offers, i);
    }
  }

  // ---- a controller and a follower -------------------------------------------------------

  /** The frames of one kind among others. */
  function OfKind(kind: uint8, frames: seq<Frame>): seq<Frame> {
    if frames == [] then []
    else
      var f := frames[|frames| - 1];
      OfKind(kind, frames[..|frames| - 1]) + (if f.id / 128 % 16 == kind as int then [f] else [])
  }

  lemma {:induction false} GivenAreWhole(actions: seq<Action>)
    requires WholeFrames(actions)
    ensures AllWhole(IsrFrames(actions))
    decreases |actions|
  {
    hide Whole;
    if actions != [] {
      GivenAreWhole(actions[1..]);
    }
  }

  /** Only command frames hold commands. */
  lemma {:induction false} CommandsOfKind(nodeId: uint8, frames: seq<Frame>)
    requires AllWhole(frames)
    ensures AllWhole(OfKind(MSG_COMMAND, frames))
    ensures CommandsIn(nodeId, OfKind(MSG_COMMAND, frames)) == CommandsIn(nodeId, frames)
  {
    hide Whole, DecodedCommand, IdType, IdNode;
    if frames != [] {
      var n := |frames| - 1;
      var before := OfKind(MSG_COMMAND, frames[..n]);
      CommandsOfKind(nodeId, frames[..n]);
      HistoryAppend(nodeId, before, frames[n]);
      assert before + [] == before;
    }
  }

  /** Losing frames loses commands, and neither reorders nor makes up any. */
  lemma {:induction false} CommandsInLossy(nodeId: uint8, a: seq<Frame>, b: seq<Frame>)
    requires AllWhole(a) && AllWhole(b) && Subsequence(a, b)
    ensures Subsequence(CommandsIn(nodeId, a), CommandsIn(nodeId, b))
    decreases |b|
  {
    hide Whole, DecodedCommand, CommandFor;
    if a == [] {
      assert CommandsIn(nodeId, a) == [];
    } else {
      var m, n := |a| - 1, |b| - 1;
      if Subsequence(a, b[..n]) {
        CommandsInLossy(nodeId, a, b[..n]);
        MaybeAppended(CommandsIn(nodeId, a), CommandsIn(nodeId, b[..n]), CommandsIn(nodeId, b));
      } else {
        CommandsInLossy(nodeId, a[..m], b[..n]);
        var p, q := CommandsIn(nodeId, a[..m]), CommandsIn(nodeId, b[..n]);
        if CommandFor(nodeId, b[n]) && DecodedCommand(b[n]).Ok? {
          SubsequenceKeep(p, q, DecodedCommand(b[n]).value);
        } else {
          assert p + [] == p && q + [] == q;
        }
      }
    }
  }

  lemma MaybeAppended(a: seq<Command>, b: seq<Command>, c: seq<Command>)
    requires Subsequence(a, b) && b <= c && |c| <= |b| + 1
    ensures Subsequence(a, c)
  {
    hide Subsequence;
    if |c| == |b| {
      assert c == b;
    } else {
      SubsequenceSkip(a, b, c[|b|]);
      assert c == b + [c[|b|]];
    }
  }

  /** The commands a node sends are for every node alike. */
  lemma {:induction false} SentToAll(sender: uint8, nodeId: uint8, sent: seq<Frame>)
    requires SentKept(sender, sent)
    ensures AllWhole(sent) && CommandsIn(nodeId, sent) == CommandsIn(NODE_BROADCAST, sent)
  {
    hide Whole, DecodedCommand, DecodedHeartbeat, DecodedJointState, IdType, IdNode, SweepOrder;
    if sent != [] {
      var n := |sent| - 1;
      SentToAll(sender, nodeId, sent[..n]);
      assert SentOk(sender, sent[n]);
      KindsAreExclusive(sent[n]);
      AddressedIsCommandFor(nodeId, sent[n]);
    }
  }

  lemma {:induction false} OwnAreSweeps(nodeId: uint8, offers: seq<Offer>, i: nat)
    requires forall k :: 0 <= k < |offers| ==> OfferOk(nodeId, offers[k])
    requires i < |OwnOf(offers)|
    ensures SweepOrder(OwnOf(offers)[i])
  {
    var n := |offers| - 1;
    if i < |OwnOf(offers[..n])| {
      OwnAreSweeps(nodeId, offers[..n], i);
    }
  }

  /**
    A controller and another node, each under any interleaving of its own: as long as the command frames
    the other node is given are frames the controller has sent, in order, some of them perhaps lost,
    the commands that reach its joint, then those still queued, are a subsequence in order of those the
    controller has offered to its own; all are sweep orders, and its speed never exceeds 90 degrees per
    second. Frames of other kinds, from anywhere, change nothing about that.
   */
  lemma FollowersObeyTheController(nodeId: uint8, actions: seq<Action>, controllerActions: seq<Action>)
    requires WholeFrames(actions) && WholeFrames(controllerActions) && nodeId != CONTROLLER_NODE_ID
    requires Possible(Initial(CONTROLLER_NODE_ID)) && Possible(Initial(nodeId))
    requires Subsequence(OfKind(MSG_COMMAND, IsrFrames(actions)),
                         Run(Initial(CONTROLLER_NODE_ID), controllerActions).sent)
    ensures var c, s := Run(Initial(CONTROLLER_NODE_ID), controllerActions), Run(Initial(nodeId), actions);
      && Subsequence(s.cmd.delivered + s.cmd.queue, OwnOf(c.cmd.offers))
      && (forall i :: 0 <= i < |s.cmd.delivered| ==> SweepOrder(s.cmd.delivered[i]))
      && Abs(s.control.joint.velocity) <= 90000
  {
    hide Run, Inv, Subsequence, Whole, SweepOrder, IsrFrames, OfKind, CommandsOf, CommandsIn, J.Valid, OwnOf, ErrorsIn,
         SentKept, Executable;
    var c, s := Run(Initial(CONTROLLER_NODE_ID), controllerActions), Run(Initial(nodeId), actions);
    var given := IsrFrames(actions);
    SystemIsSafe(CONTROLLER_NODE_ID, controllerActions, 0);
    SystemIsSafe(nodeId, actions, 90000);
    FollowersObeyTheBus(nodeId, actions);
    GivenAreWhole(actions);
    SubsequencePrefix(s.rx.handled, s.rx.queue, given);
    CommandsInLossy(nodeId, s.rx.handled, given);
    CommandsOfKind(nodeId, given);
    SentToAll(CONTROLLER_NODE_ID, nodeId, c.sent);
    CommandsInLossy(nodeId, OfKind(MSG_COMMAND, given), c.sent);
    BroadcastIsOwn(controllerActions);
    SubsequenceTrans(CommandsIn(nodeId, s.rx.handled), CommandsIn(nodeId, given), OwnOf(c.cmd.offers));
    SubsequenceTrans(s.cmd.delivered + s.cmd.queue, CommandsIn(nodeId, s.rx.handled), OwnOf(c.cmd.offers));
    SubsequencePrefix(s.cmd.delivered, s.cmd.queue, OwnOf(c.cmd.offers));
    forall i | 0 <= i < |s.cmd.delivered|
      ensures SweepOrder(s.cmd.delivered[i]) && s.cmd.delivered[i].maxVelocity <= 90000
    {
      DeliveredIsSweep(s.cmd.delivered, controllerActions, i);
    }
  }

  lemma BroadcastIsOwn(actions: seq<Action>)
    requires WholeFrames(actions)
    ensures Possible(Initial(CONTROLLER_NODE_ID))
    ensures var c := Run(Initial(CONTROLLER_NODE_ID), actions);
      && BroadcastKept(c.sent, c.cmd.offers)
      && forall k :: 0 <= k < |c.cmd.offers| ==> OfferOk(CONTROLLER_NODE_ID, c.cmd.offers[k])
  {
    hide Run, FramesKept, HistoryKept, JointKept, SnapshotKept, PeersKept, BeatsKept, PublishedKept, SentKept,
         BroadcastKept, OfferOk, Subsequence, CommandsOf;
    InitialInv(CONTROLLER_NODE_ID);
    RunKeepsInv(Initial(CONTROLLER_NODE_ID), actions);
    RunOffered(Initial(CONTROLLER_NODE_ID), actions);
  }

  lemma DeliveredIsSweep(delivered: seq<Command>, controllerActions: seq<Action>, i: nat)
    requires WholeFrames(controllerActions) && Possible(Initial(CONTROLLER_NODE_ID)) && i < |delivered|
    requires Subsequence(delivered, OwnOf(Run(Initial(CONTROLLER_NODE_ID), controllerActions).cmd.offers))
    ensures SweepOrder(delivered[i]) && delivered[i].maxVelocity <= 90000
  {
    hide Run, Subsequence, OwnOf, Possible;
    var offers := Run(Initial(CONTROLLER_NODE_ID), controllerActions).cmd.offers;
    SubsequenceMember(delivered, OwnOf(offers), i);
    var k :| 0 <= k < |OwnOf(offers)| && OwnOf(offers)[k] == delivered[i];
    BroadcastIsOwn(controllerActions);
    OwnAreSweeps(CONTROLLER_NODE_ID, offers, k);
  }
}
