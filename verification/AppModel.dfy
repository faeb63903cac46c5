/**
  Tasks and queues of app/joint_node/app.c as a transition system: the receive interrupt and one
  round of can_rx, comms and control are atomic steps that may follow each other in any order.
 */
module AppModel {
  import opened AppConfig
  import opened CIntegers
  import opened Messages
  import opened ProtocolModel
  import J = JointModel
  import D = JointDevice
  import M = MonitorModel
  import MR = MonitorRuns

  /** Where a command comes from: the bus, or this node's own sweep. */
  datatype Offer = Heard(c: Command) | Own(c: Command)

  /**
    The receive queue and its counters. offered, accepted and handled are history: everything the
    interrupt was given, what it queued, what can_rx took out; times is when it handled each.
   */
  datatype RxPath = RxPath(queue: seq<Frame>, frames: uint32, dropped: uint32,
                           offered: seq<Frame>, accepted: seq<Frame>, handled: seq<Frame>, times: seq<nat>)

  /** The command queue, and its history: everything offered to it, what it took, what reached the joint. */
  datatype CmdPath = CmdPath(queue: seq<Command>, offers: seq<Offer>, queued: seq<Command>, delivered: seq<Command>)

  /** The joint and the inputs it has had. */
  datatype JointSide = JointSide(joint: J.Joint, inputs: seq<J.Input>)

  /** What the display is given of a peer. */
  datatype PeerView = PeerView(node: uint8, status: M.Status, state: uint8, errorFlags: uint16)

  /** The node monitor, the inputs it has had, and what is published: the number of live peers, and a few of them. */
  datatype PeerSide = PeerSide(monitor: M.Monitor, inputs: seq<MR.Input>, alive: nat, shown: seq<PeerView>)

  /** The locals of the comms task on the controller node. */
  datatype Sweep = Sweep(enabled: bool, sequence: uint16, target: int32, lastFlip: uint32, buttonWasDown: bool)

  /** One node; sent is every frame it has handed to the CAN driver. */
  datatype App = App(nodeId: uint8, ready: bool, rx: RxPath, decodeErrors: uint32, cmd: CmdPath, control: JointSide,
                     peers: PeerSide, snapshot: JointState, jointFlags: nat, ticks: uint32, sweep: Sweep,
                     sent: seq<Frame>)

  const NO_STATE: JointState := JointState(0, 0, 0, 0, 0, 0)

  function Initial(nodeId: uint8): App {
    App(nodeId, false, RxPath([], 0, 0, [], [], [], []), 0, CmdPath([], [], [], []),
        JointSide(J.Initial(JOINT_CONFIG), []), PeerSide(M.Initial(PEER_TIMEOUT_MS), [], 0, []), NO_STATE, 0, 0,
        Sweep(true, 0, SWEEP_AMPLITUDE_MDEG, 0, false), [])
  }

  /** What the environment feeds into one round of the comms task. */
  datatype Round = Round(uptime: uint32, now: uint32, later: uint32, button: bool, passive: bool, busOff: bool,
                         txDropped: bool)

  datatype Action =
    | Start(millis: uint32)
    | Isr(f: Frame)
    | CanRx(beatTime: nat, pollTime: nat)
    | Comms(r: Round)
    | Control

  /** Queues are created, tasks started. */
  function TasksStarted(s: App, millis: uint32): App {
    s.(ready := true, sweep := s.sweep.(lastFlip := millis))
  }

  // ---- interrupt -------------------------------------------------------------------------

  function Received(rx: RxPath, ready: bool, f: Frame): RxPath {
    if !ready || |rx.queue| >= RX_QUEUE_DEPTH then
      rx.(offered := rx.offered + [f], dropped := ToUint32(rx.dropped + 1))
    else
      rx.(offered := rx.offered + [f], accepted := rx.accepted + [f], queue := rx.queue + [f])
  }

  // ---- can_rx ----------------------------------------------------------------------------

  function Taken(rx: RxPath, time: nat): RxPath
    requires rx.queue != []
  {
    rx.(queue := rx.queue[1..], frames := ToUint32(rx.frames + 1), handled := rx.handled + [rx.queue[0]],
        times := rx.times + [time])
  }

  /** A send to the command queue that does not wait: a full queue drops the command. */
  function Offered(cmd: CmdPath, o: Offer): CmdPath {
    if |cmd.queue| >= CMD_QUEUE_DEPTH then cmd.(offers := cmd.offers + [o])
    else cmd.(offers := cmd.offers + [o], queue := cmd.queue + [o.c], queued := cmd.queued + [o.c])
  }

  /** The frame is a command for this node. */
  predicate Addressed(nodeId: uint8, f: Frame) {
    IdType(f.id) == MSG_COMMAND as nat && (IdNode(f.id) == nodeId || IdNode(f.id) == NODE_BROADCAST)
  }

  function FailedDecode(s: App): App {
    s.(decodeErrors := ToUint32(s.decodeErrors + 1))
  }

  function BeatHeard(p: PeerSide, node: uint8, hb: Heartbeat, time: nat): PeerSide {
    p.(monitor := M.Heartbeated(p.monitor, node, hb, time % TWO_32), inputs := p.inputs + [MR.Beat(node, hb, time)])
  }

  function Handled(s: App, f: Frame, time: nat): App
    requires Whole(f)
  {
    IdRebuilt(f.id);
    if IdType(f.id) == MSG_HEARTBEAT then
      match DecodedHeartbeat(f)
      case Ok(hb) => s.(peers := BeatHeard(s.peers, IdNode(f.id), hb, time))
      case Rejected(_) => FailedDecode(s)
    else if Addressed(s.nodeId, f) then
      match DecodedCommand(f)
      case Ok(c) => s.(cmd := Offered(s.cmd, Heard(c)))
      case Rejected(_) => FailedDecode(s)
    else s
  }

  function ViewOf(p: M.Peer): PeerView {
    PeerView(p.node, p.status, p.last.state, p.last.errorFlags)
  }

  /** The first few entries of the table. */
  function Shown(peers: seq<M.Peer>): seq<PeerView> {
    seq(Min(|peers|, VIEW_PEERS), i requires 0 <= i < |peers| => ViewOf(peers[i]))
  }

  function PeersPolled(p: PeerSide, time: nat): PeerSide {
    var m := M.Polled(M.Wrapping, p.monitor, time % TWO_32);
    PeerSide(m, p.inputs + [MR.Poll(time)], M.AliveCount(m.peers), Shown(m.peers))
  }

  /** The frame at the head of the queue, if any, is taken out and handled. */
  function HeadHandled(s: App, beatTime: nat): App
    requires s.rx.queue != [] ==> Whole(s.rx.queue[0])
  {
    if s.rx.queue == [] then s else Handled(s.(rx := Taken(s.rx, beatTime)), s.rx.queue[0], beatTime)
  }

  function CanRxRound(s: App, beatTime: nat, pollTime: nat): App
    requires s.rx.queue != [] ==> Whole(s.rx.queue[0])
  {
    var s1 := HeadHandled(s, beatTime);
    s1.(peers := PeersPolled(s1.peers, pollTime))
  }

  // ---- comms -----------------------------------------------------------------------------

  function HeartbeatFlags(jointFlags: nat, r: Round): nat {
    var flags := if r.passive then Bits.Or(jointFlags, 0x0001) else jointFlags;
    var flags1 := if r.busOff then Bits.Or(flags, 0x0002) else flags;
    if r.txDropped then Bits.Or(flags1, 0x0004) else flags1
  }

  function HeartbeatState(mode: uint8, flags: nat): (state: uint8)
    ensures state <= NODE_STATE_FAULT
  {
    if Bits.And(flags, 0x0002) != 0 then NODE_STATE_FAULT
    else if mode == MODE_POSITION then NODE_STATE_OPERATIONAL
    else NODE_STATE_PREOP
  }

  function HeartbeatOf(s: App, r: Round): Heartbeat {
    var flags := HeartbeatFlags(s.jointFlags, r);
    Heartbeat(HeartbeatState(s.snapshot.mode, flags), ToUint16(flags), r.uptime, 0, 1, 0)
  }

  function Beaten(s: App, r: Round): seq<Frame> {
    if HeartbeatEncodable(s.nodeId, HeartbeatOf(s, r)) then s.sent + [EncodedHeartbeat(s.nodeId, HeartbeatOf(s, r))]
    else s.sent
  }

  function ButtonSeen(w: Sweep, r: Round): Sweep {
    w.(enabled := if r.button && !w.buttonWasDown then !w.enabled else w.enabled, buttonWasDown := r.button)
  }

  /** The target of a running sweep turns round every three seconds, and each command gets a new number. */
  function Advanced(w: Sweep, r: Round): Sweep {
    var w1 := if ToUint32(r.now - w.lastFlip) >= SWEEP_HALF_PERIOD_MS
              then w.(lastFlip := r.later, target := Negated(w.target)) else w;
    w1.(sequence := ToUint16(w1.sequence + 1))
  }

  function Negated(v: int32): int32 {
    ToInt32(-(v as int))
  }

  lemma NegatedSweep(target: int32)
    requires target == 90000 || target == -90000
    ensures Negated(target) == -target
  {
    if target == 90000 {
      assert -90000 % TWO_32 == TWO_32 - 90000;
    } else {
      assert 90000 % TWO_32 == 90000;
    }
  }

  function SweepCommand(w: Sweep): Command {
    Command(MODE_POSITION, w.target, SWEEP_VELOCITY_MDEG_S, w.sequence)
  }

  function CommsRound(s: App, r: Round): App {
    var s1 := s.(sent := Beaten(s, r));
    if s.nodeId != CONTROLLER_NODE_ID then s1
    else if !ButtonSeen(s.sweep, r).enabled then s1.(sweep := ButtonSeen(s.sweep, r))
    else
      var w := Advanced(ButtonSeen(s.sweep, r), r);
      s1.(sweep := w, sent := s1.sent + [EncodedCommand(NODE_BROADCAST, SweepCommand(w))],
          cmd := Offered(s.cmd, Own(SweepCommand(w))))
  }

  // ---- control ---------------------------------------------------------------------------

  function Orders(cmds: seq<Command>): seq<J.Input> {
    seq(|cmds|, i requires 0 <= i < |cmds| => J.Order(cmds[i]))
  }

  /** The inputs of one control round: the commands in the queue, oldest first, then a step. */
  function RoundInputs(cmds: seq<Command>): seq<J.Input> {
    Orders(cmds) + [J.Tick(CONTROL_PERIOD_MS)]
  }

  function Fed(c: JointSide, inputs: seq<J.Input>): (d: JointSide)
    requires c.joint.cfg.accel >= 1
    ensures d.joint.cfg == c.joint.cfg
  {
    JointSide(J.Run(c.joint, inputs), c.inputs + inputs)
  }

  ghost function StateSent(s: App, st: JointState): seq<Frame> {
    if ToUint32(s.ticks + 1) % JOINT_STATE_PERIOD_MS == 0 && NodeValid(s.nodeId)
    then s.sent + [EncodedJointState(s.nodeId, st)] else s.sent
  }

  ghost function ControlRound(s: App): App
    requires s.control.joint.cfg.accel >= 1
  {
    var c := Fed(s.control, RoundInputs(s.cmd.queue));
    var st := if J.Valid(c.joint) then D.Reported(c.joint) else NO_STATE;
    s.(control := c, cmd := s.cmd.(queue := [], delivered := s.cmd.delivered + s.cmd.queue),
       snapshot := st, jointFlags := c.joint.errorFlags, ticks := ToUint32(s.ticks + 1), sent := StateSent(s, st))
  }

  // ---- runs ------------------------------------------------------------------------------

  ghost predicate Possible(s: App) {
    s.control.joint.cfg.accel >= 1 && forall i :: 0 <= i < |s.rx.queue| ==> Whole(s.rx.queue[i])
  }

  /** Frames are whole buffers. */
  predicate WholeFrames(actions: seq<Action>) {
    forall i :: 0 <= i < |actions| && actions[i].Isr? ==> Whole(actions[i].f)
  }

  /** Before the queues exist only the interrupt runs; afterwards any of the four may be next. */
  ghost function Next(s: App, a: Action): (t: App)
    requires Possible(s) && (a.Isr? ==> Whole(a.f))
    ensures Possible(t)
  {
    match a
    case Start(millis) => if s.ready then s else TasksStarted(s, millis)
    case Isr(f) => s.(rx := Received(s.rx, s.ready, f))
    case CanRx(beatTime, pollTime) => if s.ready then CanRxRound(s, beatTime, pollTime) else s
    case Comms(r) => if s.ready then CommsRound(s, r) else s
    case Control => if s.ready then ControlRound(s) else s
  }

  ghost function Run(s: App, actions: seq<Action>): (t: App)
    requires Possible(s) && WholeFrames(actions)
    ensures Possible(t)
    decreases |actions|
  {
    if actions == [] then s else Run(Next(s, actions[0]), actions[1..])
  }
}
