/** Whole-system safety of a node, under every interleaving of its interrupt and its tasks. */
module AppTheorems {
  import opened AppConfig
  import opened AppModel
  import opened AppSafety
  import opened CIntegers
  import opened Messages
  import opened ProtocolModel
  import Bits
  import J = JointModel
  import JL = JointLimits
  import M = MonitorModel
  import MR = MonitorRuns

  /** The frames the interrupt was given, in order. */
  function IsrFrames(actions: seq<Action>): seq<Frame> {
    if actions == [] then []
    else (if actions[0].Isr? then [actions[0].f] else []) + IsrFrames(actions[1..])
  }

  lemma NextOffered(s: App, a: Action)
    requires Possible(s) && (a.Isr? ==> Whole(a.f))
    ensures Next(s, a).rx.offered == s.rx.offered + if a.Isr? then [a.f] else []
    ensures Next(s, a).nodeId == s.nodeId
    ensures s.cmd.offers <= Next(s, a).cmd.offers
    ensures s.ready ==> Next(s, a).ready
  {
    hide Whole, DecodedCommand, DecodedHeartbeat, IdType, IdNode, Fed, J.Valid, J.Stepped, Beaten, Advanced, ButtonSeen,
         PeersPolled, BeatHeard, EncodedCommand, D.Reported, StateSent, ToUint32;
  }

  lemma {:induction false} RunOffered(s: App, actions: seq<Action>)
    requires Possible(s) && WholeFrames(actions)
    ensures Run(s, actions).rx.offered == s.rx.offered + IsrFrames(actions)
    ensures Run(s, actions).nodeId == s.nodeId
    ensures s.cmd.offers <= Run(s, actions).cmd.offers
    decreases |actions|
  {
    hide Next, Possible;
    if actions != [] {
      NextOffered(s, actions[0]);
      RunOffered(Next(s, actions[0]), actions[1..]);
    }
  }

  /** A bound on the speed limits of the commands bounds the largest limit of the run. */
  lemma {:induction false} LimitOfOrders(inputs: seq<J.Input>, bound: int)
    requires bound >= 0
    requires forall i :: 0 <= i < |inputs| && inputs[i].Order? ==> inputs[i].c.maxVelocity <= bound
    ensures JL.LargestLimit(inputs) <= bound
  {
    if inputs != [] {
      LimitOfOrders(inputs[1..], bound);
    }
  }

  lemma {:induction false} OrderIsDelivered(inputs: seq<J.Input>, i: nat)
    requires i < |inputs| && inputs[i].Order?
    ensures inputs[i].c in OrdersIn(inputs)
  {
    var n := |inputs| - 1;
    if i < n {
      OrderIsDelivered(inputs[..n], i);
    }
  }

  lemma SpeedIsBounded(c: JointSide, delivered: seq<Command>, bound: int)
    requires JointKept(c, delivered) && bound >= 0
    requires forall i :: 0 <= i < |delivered| ==> delivered[i].maxVelocity <= bound
    ensures Abs(c.joint.velocity) <= bound
  {
    hide J.Run, J.Decoded, TicksOf, JL.LargestLimit;
    JointIsSound(c, delivered);
    forall i | 0 <= i < |c.inputs| && c.inputs[i].Order?
      ensures c.inputs[i].c.maxVelocity <= bound
    {
      OrderIsDelivered(c.inputs, i);
    }
    LimitOfOrders(c.inputs, bound);
  }

  /**
    Start a node with any identity and let frames, task rounds and interrupts come in any order.
    Frames: those handled, then those still queued (at most 32), are a subsequence in order of those
    the interrupt was given, and every missing one is counted: given = dropped + handled + queued, in
    32-bit counters. Commands: those that reached the joint, then those still queued (at most 4), are
    a subsequence in order of those offered, and every one is executable. The joint stays inside its
    soft limits and below every bound on the limits commanded; the peer table is sound; and every
    frame sent out is one the decoders of the protocol accept.
   */
  lemma SystemIsSafe(nodeId: uint8, actions: seq<Action>, bound: int)
    requires WholeFrames(actions) && bound >= 0
    ensures Possible(Initial(nodeId))
    ensures var s := Run(Initial(nodeId), actions);
      && s.nodeId == nodeId
      && |s.rx.queue| <= 32 && |s.cmd.queue| <= 4
      && Subsequence(s.rx.handled + s.rx.queue, IsrFrames(actions))
      && (s.rx.dropped + s.rx.frames + |s.rx.queue|) % TWO_32 == |IsrFrames(actions)| % TWO_32
      && Subsequence(s.cmd.delivered + s.cmd.queue, CommandsOf(s.cmd.offers))
      && (forall c :: c in s.cmd.delivered ==> Executable(c))
      && J.Valid(s.control.joint)
      && -170000 <= s.control.joint.position <= 170000
      && ((forall i :: 0 <= i < |s.cmd.delivered| ==> s.cmd.delivered[i].maxVelocity <= bound)
            ==> Abs(s.control.joint.velocity) <= bound)
      && M.Valid(s.peers.monitor)
      && SentKept(nodeId, s.sent)
  {
    hide Run, Inv, SentKept, J.Valid, M.Valid, Subsequence, CommandsOf, IsrFrames, Executable;
    InitialInv(nodeId);
    RunKeepsInv(Initial(nodeId), actions);
    RunOffered(Initial(nodeId), actions);
    var s := Run(Initial(nodeId), actions);
    assert [] + IsrFrames(actions) == IsrFrames(actions);
    QueuesAreSafe(s);
    JointIsInside(s);
    if forall i :: 0 <= i < |s.cmd.delivered| ==> s.cmd.delivered[i].maxVelocity <= bound {
      JointIsSlow(s, bound);
    }
    DeliveredIsExecutable(s);
    PeersAreSound(s);
  }

  lemma QueuesAreSafe(s: App)
    requires Inv(s)
    ensures |s.rx.queue| <= 32 && |s.cmd.queue| <= 4
    ensures Subsequence(s.rx.handled + s.rx.queue, s.rx.offered)
    ensures (s.rx.dropped + s.rx.frames + |s.rx.queue|) % TWO_32 == |s.rx.offered| % TWO_32
    ensures Subsequence(s.cmd.delivered + s.cmd.queue, CommandsOf(s.cmd.offers))
    ensures SentKept(s.nodeId, s.sent)
  {
    hide Subsequence, CommandsOf, HistoryKept, JointKept, PeersKept, SentKept;
    CountersAdd(s.rx);
  }

  lemma JointIsSlow(s: App, bound: int)
    requires Inv(s) && bound >= 0
    requires forall i :: 0 <= i < |s.cmd.delivered| ==> s.cmd.delivered[i].maxVelocity <= bound
    ensures Abs(s.control.joint.velocity) <= bound
  {
    SpeedIsBounded(s.control, s.cmd.delivered, bound);
  }

  lemma PeersAreSound(s: App)
    requires Inv(s)
    ensures M.Valid(s.peers.monitor)
  {
    MR.RunKeepsValid(M.Wrapping, M.Initial(PEER_TIMEOUT_MS), s.peers.inputs);
  }

  lemma JointIsInside(s: App)
    requires Inv(s)
    ensures J.Valid(s.control.joint) && -170000 <= s.control.joint.position <= 170000
  {
    JointIsSound(s.control, s.cmd.delivered);
  }

  lemma DeliveredIsExecutable(s: App)
    requires Inv(s)
    ensures forall c :: c in s.cmd.delivered ==> Executable(c)
  {
    hide Subsequence;
    forall c | c in s.cmd.delivered
      ensures Executable(c)
    {
      var i :| 0 <= i < |s.cmd.delivered| && s.cmd.delivered[i] == c;
      assert s.cmd.queued[i] == c;
      SubsequenceMember(s.cmd.queued, CommandsOf(s.cmd.offers), i);
      OffersAreExecutable(s.nodeId, s.cmd.offers, c);
    }
  }

  lemma {:induction false} OffersAreExecutable(nodeId: uint8, offers: seq<Offer>, c: Command)
    requires forall i :: 0 <= i < |offers| ==> OfferOk(nodeId, offers[i])
    requires c in CommandsOf(offers)
    ensures Executable(c)
  {
    var n := |offers| - 1;
    if c != offers[n].c {
      OffersAreExecutable(nodeId, offers[..n], c);
    }
  }

  lemma CountersAdd(rx: RxPath)
    requires FramesKept(rx)
    ensures (rx.dropped + rx.frames + |rx.queue|) % TWO_32 == |rx.offered| % TWO_32
  {
    hide Subsequence, AllWhole;
    ModSum(|rx.offered| - |rx.accepted|, |rx.handled|, |rx.queue|);
  }

  lemma ModSum(a: nat, b: nat, c: nat)
    ensures (a % TWO_32 + b % TWO_32 + c) % TWO_32 == (a + b + c) % TWO_32
  {
    var k := a / TWO_32 + b / TWO_32;
    var x := a % TWO_32 + b % TWO_32 + c;
    assert a + b + c == x + k * TWO_32;
    Bits.ModUnique(a + b + c, TWO_32, x / TWO_32 + k, x % TWO_32);
  }

  // ---- whose frames a node takes ---------------------------------------------------------

  /**
    What one frame does, by the bits of its identifier. Type 7: the heartbeat reaches the monitor, under
    the node it came from. Type 1, for this node or for all: the command is offered to the joint, and
    queued if there is room. One of these that does not decode only counts. Any other frame, above all a
    command for another node, changes nothing.
   */
  lemma HandledByIdentifier(s: App, f: Frame, time: nat)
    requires Whole(f)
    ensures var kind, node, t := f.id / 128 % 16, f.id % 128, Handled(s, f, time);
      && 0 <= node < 128
      && (kind == 7 ==>
            match DecodedHeartbeat(f)
            case Ok(hb) =>
              && t == s.(peers := t.peers)
              && t.peers == s.peers.(monitor := M.Heartbeated(s.peers.monitor, node, hb, time % TWO_32),
                                     inputs := s.peers.inputs + [MR.Beat(node, hb, time)])
            case Rejected(_) => t == s.(decodeErrors := (s.decodeErrors + 1) % TWO_32))
      && (kind == 1 && (node == s.nodeId || node == 0) ==>
            match DecodedCommand(f)
            case Ok(c) => t == s.(cmd := t.cmd) && OfferTaken(s.cmd, Heard(c), t.cmd)
            case Rejected(_) => t == s.(decodeErrors := (s.decodeErrors + 1) % TWO_32))
      && (kind == 1 && node != s.nodeId && node != 0 ==> t == s)
      && (kind != 7 && kind != 1 ==> t == s)
  {
    hide IdType, IdNode, DecodedHeartbeat, DecodedCommand, M.Heartbeated, Offered;
    IdParts(f.id);
    if DecodedCommand(f).Ok? {
      OfferIsTaken(s.cmd, Heard(DecodedCommand(f).value));
    }
  }

  /** An offered command is queued behind the others if fewer than four are waiting, and lost otherwise. */
  predicate OfferTaken(was: CmdPath, o: Offer, now: CmdPath) {
    && now.offers == was.offers + [o] && now.delivered == was.delivered
    && (if |was.queue| < 4 then now.queue == was.queue + [o.c] && now.queued == was.queued + [o.c]
        else now.queue == was.queue && now.queued == was.queued)
  }

  lemma OfferIsTaken(cmd: CmdPath, o: Offer)
    ensures OfferTaken(cmd, o, Offered(cmd, o))
  {
  }

  /**
    A node that is not the controller obeys the bus alone: what is offered to its joint is exactly
    what the handled frames command it, and decode errors count exactly the bad frames for it.
   */
  lemma {:induction false} FollowersObeyTheBus(nodeId: uint8, actions: seq<Action>)
    requires WholeFrames(actions) && nodeId != CONTROLLER_NODE_ID
    ensures Possible(Initial(nodeId))
    ensures var s := Run(Initial(nodeId), actions);
      && AllWhole(s.rx.handled)
      && CommandsOf(s.cmd.offers) == CommandsIn(nodeId, s.rx.handled)
      && s.decodeErrors == ErrorsIn(nodeId, s.rx.handled) % TWO_32
  {
    hide Run, JointKept, SentKept, PeersKept;
    InitialInv(nodeId);
    RunKeepsInv(Initial(nodeId), actions);
    RunOffered(Initial(nodeId), actions);
    var s := Run(Initial(nodeId), actions);
    OnlyHeard(nodeId, s.cmd.offers);
  }

  lemma {:induction false} OnlyHeard(nodeId: uint8, offers: seq<Offer>)
    requires nodeId != CONTROLLER_NODE_ID && forall i :: 0 <= i < |offers| ==> OfferOk(nodeId, offers[i])
    ensures CommandsOf(offers) == HeardOf(offers)
  {
    if offers != [] {
      OnlyHeard(nodeId, offers[..|offers| - 1]);
    }
  }
}
