/** The shared state of app/joint_node/app.c and the rounds of its tasks, in place. */
module AppDevice {
  import opened AppConfig
  import opened AppModel
  import opened CIntegers
  import opened Messages
  import opened ProtocolModel
  import J = JointModel
  import D = JointDevice
  import M = MonitorModel
  import MD = MonitorDevice
  import MR = MonitorRuns
  import PD = ProtocolDevice
  import Bits

  /** What is queued is whole frames and executable commands. */
  ghost predicate QueuesOk(frames: seq<Frame>, cmds: seq<Command>) {
    && (forall i :: 0 <= i < |frames| ==> Whole(frames[i]))
    && (forall i :: 0 <= i < |cmds| ==> Executable(cmds[i]))
  }

  class Node {
    const nodeId: uint8
    const joint: D.Device
    const monitor: MD.Table
    const peerView: array<PeerView>

    var ready: bool
    var rxQueue: seq<Frame>
    var cmdQueue: seq<Command>
    var rxFrames: uint32
    var rxDropped: uint32
    var decodeErrors: uint32
    var alivePeers: uint8
    var peerViewCount: uint8
    var snapshot: JointState
    var jointFlags: uint16
    var ticks: uint32
    var sweep: Sweep

    ghost var offered: seq<Frame>
    ghost var accepted: seq<Frame>
    ghost var handled: seq<Frame>
    ghost var times: seq<nat>
    ghost var offers: seq<Offer>
    ghost var queued: seq<Command>
    ghost var delivered: seq<Command>
    ghost var jointInputs: seq<J.Input>
    ghost var monitorInputs: seq<MR.Input>
    ghost var sent: seq<Frame>

    ghost predicate Ok()
      reads this, joint, monitor, monitor.peers
    {
      && peerView.Length == VIEW_PEERS && peerViewCount as nat <= VIEW_PEERS
      && monitor.Ok() && J.Valid(joint.View())
      && QueuesOk(rxQueue, cmdQueue)
      && Abs(sweep.target) == SWEEP_AMPLITUDE_MDEG
    }

    ghost function Rx(): RxPath
      reads this`rxQueue, this`rxFrames, this`rxDropped, this`offered, this`accepted, this`handled, this`times
    {
      RxPath(rxQueue, rxFrames, rxDropped, offered, accepted, handled, times)
    }

    ghost function Cmd(): CmdPath
      reads this`cmdQueue, this`offers, this`queued, this`delivered
    {
      CmdPath(cmdQueue, offers, queued, delivered)
    }

    ghost function Control(): JointSide
      reads this`jointInputs, joint
    {
      JointSide(joint.View(), jointInputs)
    }

    ghost function Peers(): PeerSide
      requires monitor.Ok() && peerViewCount as nat <= peerView.Length
      reads this`monitorInputs, this`alivePeers, this`peerViewCount, monitor, monitor.peers, peerView
    {
      PeerSide(monitor.View(), monitorInputs, alivePeers, peerView[..peerViewCount])
    }

    ghost function View(): App
      requires Ok()
      reads this, joint, monitor, monitor.peers, peerView
    {
      App(nodeId, ready, Rx(), decodeErrors, Cmd(), Control(), Peers(), snapshot, jointFlags, ticks, sweep, sent)
    }

    constructor (id: uint8)
      ensures Ok() && fresh(joint) && fresh(monitor) && fresh(monitor.peers) && fresh(peerView)
      ensures View() == AppModel.Initial(id)
      ensures nodeId == id && !ready && rxQueue == [] && cmdQueue == [] && alivePeers == 0 && peerViewCount == 0
      ensures rxFrames == 0 && rxDropped == 0 && decodeErrors == 0 && ticks == 0 && jointFlags == 0
      ensures sweep.enabled && sweep.target == 90000 && sweep.sequence == 0 && !sweep.buttonWasDown
    {
      hide J.Valid, M.Valid, J.Initial;
      nodeId := id;
      joint := new D.Device(JOINT_CONFIG);
      monitor := new MD.Table(PEER_TIMEOUT_MS);
      ready, rxQueue, cmdQueue := false, [], [];
      peerView := new PeerView[VIEW_PEERS](_ => PeerView(0, M.Unknown, 0, 0));
      rxFrames, rxDropped, decodeErrors, alivePeers, peerViewCount, ticks := 0, 0, 0, 0, 0, 0;
      snapshot, jointFlags := NO_STATE, 0;
      sweep := Sweep(true, 0, SWEEP_AMPLITUDE_MDEG, 0, false);
      offered, accepted, handled, times, offers, queued, delivered := [], [], [], [], [], [], [];
      jointInputs, monitorInputs, sent := [], [], [];
    }

    method StartTasks(millis: uint32)
      requires Ok()
      modifies this
      ensures Ok() && View() == TasksStarted(old(View()), millis)
    {
      ready := true;
      sweep := sweep.(lastFlip := millis);
    }

    // ---- interrupt -----------------------------------------------------------------------

    method CanRxIsr(f: Frame)
      requires Ok() && Whole(f)
      modifies this
      ensures Ok() && View() == old(View()).(rx := Received(old(View()).rx, old(ready), f))
    {
      hide J.Valid, M.Valid, Whole, ToUint32, Executable, Abs, MD.Table.Ok, MD.Table.View, D.Device.View, Cmd, Control,
           Peers;
      offered := offered + [f];
      if !ready || |rxQueue| >= RX_QUEUE_DEPTH {
        rxDropped := ToUint32(rxDropped + 1);
      } else {
        rxQueue := rxQueue + [f];
        accepted := accepted + [f];
      }
    }

    // ---- can_rx --------------------------------------------------------------------------

    method SendCommand(ghost o: Offer, c: Command)
      requires Ok() && o.c == c && Executable(c)
      modifies this
      ensures Ok() && View() == old(View()).(cmd := Offered(old(View()).cmd, o))
    {
      hide J.Valid, M.Valid, Whole, Executable, Abs, MD.Table.Ok, MD.Table.View, D.Device.View, Rx, Control, Peers;
      offers := offers + [o];
      if |cmdQueue| < CMD_QUEUE_DEPTH {
        cmdQueue := cmdQueue + [c];
        queued := queued + [c];
      }
    }

    /** now is the millisecond counter, time the true time it shows modulo 2^32. */
    method HandleFrame(f: PD.CanFrame, now: uint32, ghost time: nat)
      requires Ok() && f.Ok() && now == time % TWO_32
      modifies this, monitor`count, monitor`events, monitor.peers
      ensures Ok() && View() == Handled(old(View()), old(f.View()), time)
    {
      hide J.Valid, M.Valid, BeatHeard, DecodedHeartbeat, DecodedCommand, Offered, IdType, IdNode;
      IdRebuilt(f.id);
      var node := IdNode(f.id);
      var kind := IdType(f.id);
      if kind == MSG_HEARTBEAT as nat {
        HandleHeartbeat(f, node, now, time);
      } else if kind == MSG_COMMAND as nat {
        if node != nodeId && node != NODE_BROADCAST {
          return;
        }
        HandleCommand(f);
      }
    }

    method HandleHeartbeat(f: PD.CanFrame, node: uint8, now: uint32, ghost time: nat)
      requires Ok() && f.Ok() && now == time % TWO_32
      modifies this, monitor`count, monitor`events, monitor.peers
      ensures Ok() && View() == match DecodedHeartbeat(old(f.View()))
                                case Ok(hb) => old(View()).(peers := BeatHeard(old(View()).peers, node, hb, time))
                                case Rejected(_) => FailedDecode(old(View()))
    {
      hide J.Valid, M.Valid, M.Heartbeated, M.Refused, DecodedHeartbeat, ToUint32, Executable, Whole;
      var r := ReadHeartbeat(f);
      if r.Ok? {
        var _ := monitor.OnHeartbeat(node, r.value, now);
        monitorInputs := monitorInputs + [MR.Beat(node, r.value, time)];
      } else {
        decodeErrors := ToUint32(decodeErrors + 1);
      }
    }

    method HandleCommand(f: PD.CanFrame)
      requires Ok() && f.Ok()
      modifies this
      ensures Ok() && View() == match DecodedCommand(old(f.View()))
                                case Ok(c) => old(View()).(cmd := Offered(old(View()).cmd, Heard(c)))
                                case Rejected(_) => FailedDecode(old(View()))
    {
      hide J.Valid, M.Valid, DecodedCommand, Offered, ToUint32, Executable, Whole;
      var r := ReadCommand(f);
      if r.Ok? {
        SendCommand(Heard(r.value), r.value);
      } else {
        decodeErrors := ToUint32(decodeErrors + 1);
      }
    }

    method CanRxTask(beatNow: uint32, pollNow: uint32, ghost beatTime: nat, ghost pollTime: nat)
      requires Ok() && beatNow == beatTime % TWO_32 && pollNow == pollTime % TWO_32
      modifies this, monitor`count, monitor`events, monitor.peers, peerView
      ensures Ok() && View() == CanRxRound(old(View()), beatTime, pollTime)
    {
      hide Handled, J.Valid, M.Valid;
      ghost var was := View();
      if rxQueue != [] {
        var f := new PD.CanFrame();
        f.Load(rxQueue[0]);
        Take(beatTime);
        HandleFrame(f, beatNow, beatTime);
      }
      assert View() == HeadHandled(was, beatTime);
      PollPeers(pollNow, pollTime);
    }

    method Take(ghost time: nat)
      requires Ok() && rxQueue != []
      modifies this`rxQueue, this`rxFrames, this`handled, this`times
      ensures Ok() && View() == old(View()).(rx := Taken(old(View()).rx, time))
    {
      hide J.Valid, M.Valid, ToUint32, Executable, Whole, Abs, MD.Table.Ok, MD.Table.View, D.Device.View, Cmd,
           Control, Peers;
      handled := handled + [rxQueue[0]];
      times := times + [time];
      rxQueue := rxQueue[1..];
      rxFrames := ToUint32(rxFrames + 1);
      assert Control() == old(Control()) && Cmd() == old(Cmd());
      assert Ok() && Peers() == old(Peers());
    }

    method PollPeers(now: uint32, ghost time: nat)
      requires Ok() && now == time % TWO_32
      modifies this, monitor`events, monitor.peers, peerView
      ensures Ok() && View() == old(View()).(peers := PeersPolled(old(View()).peers, time))
    {
      hide J.Valid, M.Valid, M.Polled, Executable, Shown;
      monitor.Poll(now);
      var n := monitor.Alives();
      alivePeers := n;
      monitorInputs := monitorInputs + [MR.Poll(time)];
      PublishPeers();
    }

    /** A snapshot of the first few entries of the table: built in a local buffer, then copied. */
    method PublishPeers()
      requires Ok()
      modifies this`peerViewCount, peerView
      ensures Ok() && View() == old(View()).(peers := old(View()).peers.(shown := Shown(monitor.View().peers)))
    {
      hide J.Valid, M.Valid, Executable, Whole, Abs;
      var view := new PeerView[VIEW_PEERS](_ => PeerView(0, M.Unknown, 0, 0));
      var n: uint8 := 0;
      while n < monitor.count && n as nat < VIEW_PEERS
        modifies view
        invariant n <= monitor.count && n as nat <= VIEW_PEERS
        invariant forall k :: 0 <= k < n ==> view[k] == ViewOf(monitor.peers[k])
      {
        var p := monitor.peers[n];
        view[n] := PeerView(p.node, p.status, p.last.state, p.last.errorFlags);
        n := n + 1;
      }
      var i: uint8 := 0;
      while i < n
        modifies peerView
        invariant i <= n
        invariant forall k :: 0 <= k < i ==> peerView[k] == ViewOf(monitor.peers[k])
      {
        peerView[i] := view[i];
        i := i + 1;
      }
      peerViewCount := n;
      assert peerView[..n] == Shown(monitor.View().peers);
    }

    // ---- comms ---------------------------------------------------------------------------

    method CommsTask(r: Round)
      requires Ok()
      modifies this
      ensures Ok() && View() == CommsRound(old(View()), r)
    {
      hide J.Valid, M.Valid, Beaten, Advanced, EncodedCommand, Offered;
      ghost var was := View();
      Beat(r);
      if nodeId != CONTROLLER_NODE_ID {
        return;
      }
      if r.button && !sweep.buttonWasDown {
        sweep := sweep.(enabled := !sweep.enabled);
      }
      sweep := sweep.(buttonWasDown := r.button);
      assert sweep == ButtonSeen(was.sweep, r);
      assert View() == was.(sent := Beaten(was, r), sweep := sweep);
      if sweep.enabled {
        SweepOn(r);
      }
    }

    /** The rest of the comms round, with the sweep enabled. */
    method SweepOn(r: Round)
      requires Ok()
      modifies this
      ensures var was := old(View());
        var w := Advanced(was.sweep, r);
        Ok() && View() == was.(sweep := w, sent := was.sent + [EncodedCommand(NODE_BROADCAST, SweepCommand(w))],
                               cmd := Offered(was.cmd, Own(SweepCommand(w))))
    {
      hide J.Valid, M.Valid, EncodedCommand, Offered, Advanced, MD.Table.Ok, MD.Table.View, D.Device.View;
      AdvanceSweep(r);
      SendSweep();
    }

    /** The target turns round when it is time, and the next sequence number is taken. */
    method AdvanceSweep(r: Round)
      requires Ok()
      modifies this`sweep
      ensures Ok() && View() == old(View()).(sweep := Advanced(old(sweep), r))
    {
      hide J.Valid, M.Valid, Executable, Whole, ToUint32, ToUint16, Negated, MD.Table.Ok, MD.Table.View, D.Device.View;
      NegatedSweep(sweep.target);
      if ToUint32(r.now - sweep.lastFlip) >= SWEEP_HALF_PERIOD_MS {
        sweep := sweep.(lastFlip := r.later, target := Negated(sweep.target));
      }
      sweep := sweep.(sequence := ToUint16(sweep.sequence + 1));
    }

    /** The command goes to the bus, and to this node's own joint. */
    method SendSweep()
      requires Ok()
      modifies this
      ensures var was := old(View());
        Ok() && View() == was.(sent := was.sent + [EncodedCommand(NODE_BROADCAST, SweepCommand(was.sweep))],
                               cmd := Offered(was.cmd, Own(SweepCommand(was.sweep))))
    {
      hide J.Valid, M.Valid, EncodedCommand, Offered, MD.Table.Ok, MD.Table.View, D.Device.View, Whole, Abs;
      var c := Command(MODE_POSITION, sweep.target, SWEEP_VELOCITY_MDEG_S, sweep.sequence);
      var ok, frame := WriteCommand(NODE_BROADCAST, c);
      if ok {
        sent := sent + [frame];
        SendCommand(Own(c), c);
      }
    }

    method Beat(r: Round)
      requires Ok()
      modifies this`sent
      ensures Ok() && View() == old(View()).(sent := Beaten(old(View()), r))
    {
      hide EncodedHeartbeat, J.Valid, M.Valid;
      var flags: nat := jointFlags;
      if r.passive {
        flags := Bits.Or(flags, 0x0001);
      }
      if r.busOff {
        flags := Bits.Or(flags, 0x0002);
      }
      if r.txDropped {
        flags := Bits.Or(flags, 0x0004);
      }
      var hb := Heartbeat(HeartbeatState(snapshot.mode, flags), ToUint16(flags), r.uptime, 0, 1, 0);
      assert hb == HeartbeatOf(View(), r);
      var ok, frame := WriteHeartbeat(nodeId, hb);
      if ok {
        sent := sent + [frame];
      }
    }

    // ---- control -------------------------------------------------------------------------

    method ControlTask()
      requires Ok()
      modifies this, joint
      ensures Ok() && View() == ControlRound(old(View()))
    {
      hide J.Valid, M.Valid, D.Reported, EncodedJointState, J.Run, J.Stepped, Executable, RoundInputs, Orders, Whole,
           Abs, MD.Table.Ok, MD.Table.View, Rx, Peers;
      ghost var was := View();
      var done := DrainIntoJoint();
      joint.Step(CONTROL_PERIOD_MS);
      jointInputs := was.control.inputs + RoundInputs(done);
      RunThenStep(was.control.joint, done);
      assert JointSide(joint.View(), jointInputs) == Fed(was.control, RoundInputs(was.cmd.queue));
      Publish();
    }

    method Publish()
      requires Ok()
      modifies this`snapshot, this`jointFlags, this`ticks, this`sent
      ensures Ok()
      ensures var s := old(View());
        View() == s.(snapshot := D.Reported(s.control.joint), jointFlags := s.control.joint.errorFlags,
                     ticks := ToUint32(s.ticks + 1), sent := StateSent(s, D.Reported(s.control.joint)))
    {
      hide J.Valid, M.Valid, D.Reported, EncodedJointState, Executable, ToUint32, Whole, Abs, MD.Table.Ok;
      var st := joint.GetState();
      snapshot := st;
      jointFlags := joint.errorFlags;
      ticks := ToUint32(ticks + 1);
      SendState(st);
    }

    method SendState(st: JointState)
      requires Ok()
      modifies this`sent
      ensures Ok()
      ensures View() == old(View()).(sent := if ticks % JOINT_STATE_PERIOD_MS == 0 && NodeValid(nodeId)
                                             then old(sent) + [EncodedJointState(nodeId, st)] else old(sent))
    {
      hide J.Valid, M.Valid, EncodedJointState, Executable, Whole, Abs, MD.Table.Ok;
      if ticks % JOINT_STATE_PERIOD_MS == 0 {
        var ok, frame := WriteJointState(nodeId, st);
        if ok {
          sent := sent + [frame];
        }
      }
    }

    /** The inner loop of the control task: the queue is emptied into the joint, oldest command first. */
    method DrainIntoJoint() returns (ghost done: seq<Command>)
      requires Ok()
      modifies this`cmdQueue, this`delivered, joint
      ensures Ok() && cmdQueue == [] && done == old(cmdQueue) && delivered == old(delivered) + done
      ensures old(joint.View()).cfg.accel >= 1 && joint.View() == J.Run(old(joint.View()), Orders(done))
    {
      hide J.Run;
      ghost var j0, q0 := joint.View(), cmdQueue;
      ghost var i := 0;
      done := q0;
      RunNone(j0);
      assert Orders(q0[..0]) == [];
      while cmdQueue != []
        invariant 0 <= i <= |q0| && cmdQueue == q0[i..] && delivered == old(delivered) + q0[..i]
        invariant forall k :: 0 <= k < |q0| ==> Executable(q0[k])
        invariant J.Valid(joint.View()) && joint.View() == J.Run(j0, Orders(q0[..i]))
        decreases |cmdQueue|
      {
        var cmd := cmdQueue[0];
        RunOneMore(j0, q0, i);
        joint.Command(cmd);
        cmdQueue := cmdQueue[1..];
        delivered := delivered + [cmd];
        i := i + 1;
      }
      assert q0[..i] == q0;
    }
  }

  // ---- frames read and written with the in-place coders ----------------------------------

  const NO_COMMAND: Command := Command(MODE_DISABLED, 0, 0, 0)

  method ReadHeartbeat(f: PD.CanFrame) returns (r: Result<Heartbeat>)
    requires f.Ok()
    ensures r == DecodedHeartbeat(f.View())
  {
    hide GetU16, GetU32, IdType;
    var out := new PD.Out<Heartbeat>(M.NO_HEARTBEAT);
    var code := PD.DecodeHeartbeat(f, out);
    r := if code == Fine then Ok(out.value) else Rejected(code);
  }

  method ReadCommand(f: PD.CanFrame) returns (r: Result<Command>)
    requires f.Ok()
    ensures r == DecodedCommand(f.View())
    ensures r.Ok? ==> Executable(r.value)
  {
    hide GetU16, GetU32, IdType;
    var out := new PD.Out<Command>(NO_COMMAND);
    var code := PD.DecodeCommand(f, out);
    r := if code == Fine then Ok(out.value) else Rejected(code);
  }

  method WriteHeartbeat(node: uint8, hb: Heartbeat) returns (ok: bool, ghost frame: Frame)
    ensures ok == HeartbeatEncodable(node, hb)
    ensures ok ==> frame == EncodedHeartbeat(node, hb)
  {
    hide EncodedHeartbeat;
    var f := new PD.CanFrame();
    var code := PD.EncodeHeartbeat(node, hb, f);
    ok, frame := code == Fine, f.View();
  }

  method WriteCommand(node: uint8, c: Command) returns (ok: bool, ghost frame: Frame)
    ensures ok == CommandEncodable(node, c)
    ensures ok ==> frame == EncodedCommand(node, c)
  {
    hide EncodedCommand;
    var f := new PD.CanFrame();
    var code := PD.EncodeCommand(node, c, f);
    ok, frame := code == Fine, f.View();
  }

  method WriteJointState(node: uint8, s: JointState) returns (ok: bool, ghost frame: Frame)
    ensures ok == NodeValid(node)
    ensures ok ==> frame == EncodedJointState(node, s)
  {
    hide EncodedJointState;
    var f := new PD.CanFrame();
    var code := PD.EncodeJointState(node, s, f);
    ok, frame := code == Fine, f.View();
  }

  lemma RunNone(j: J.Joint)
    requires j.cfg.accel >= 1
    ensures J.Run(j, []) == j
  {
  }

  lemma RunOneMore(j: J.Joint, cmds: seq<Command>, i: nat)
    requires j.cfg.accel >= 1 && i < |cmds|
    ensures J.Run(j, Orders(cmds[..i + 1])) == J.Commanded(J.Run(j, Orders(cmds[..i])), cmds[i])
  {
    hide J.Run, J.Commanded;
    assert Orders(cmds[..i + 1]) == Orders(cmds[..i]) + [J.Order(cmds[i])];
    J.RunSplit(j, Orders(cmds[..i]), [J.Order(cmds[i])]);
    J.RunOne(J.Run(j, Orders(cmds[..i])), J.Order(cmds[i]));
  }

  lemma RunThenStep(j: J.Joint, cmds: seq<Command>)
    requires j.cfg.accel >= 1
    ensures J.Run(j, RoundInputs(cmds)) == J.Stepped(J.Run(j, Orders(cmds)), CONTROL_PERIOD_MS)
  {
    hide J.Run, J.Stepped;
    var tick := J.Tick(CONTROL_PERIOD_MS);
    J.RunSplit(j, Orders(cmds), [tick]);
    J.RunOne(J.Run(j, Orders(cmds)), tick);
  }
}
