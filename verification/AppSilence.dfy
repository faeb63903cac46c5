/** A node that is no longer commanded stops its joint, whatever its tasks and its interrupt do meanwhile. */
module AppSilence {
  import opened AppConfig
  import opened AppModel
  import opened AppSafety
  import opened AppTheorems
  import opened CIntegers
  import opened Messages
  import opened ProtocolModel
  import J = JointModel
  import JL = JointLimits
  import JB = JointBraking

  function Controls(actions: seq<Action>): nat {
    if actions == [] then 0 else (if actions[0].Control? then 1 else 0) + Controls(actions[1..])
  }

  /** The joint once the commands still queued have reached it. */
  function Pending(s: App): (j: J.Joint)
    requires s.control.joint.cfg.accel >= 1
    ensures j.cfg == s.control.joint.cfg
  {
    J.Run(s.control.joint, Orders(s.cmd.queue))
  }

  /** Queued commands set the mode, the target and the limit, but move nothing. */
  lemma {:induction false} OrdersMoveNothing(j: J.Joint, cmds: seq<Command>)
    requires j.cfg.accel >= 1
    ensures var k := J.Run(j, Orders(cmds));
      && k.position == j.position && k.velocity == j.velocity
      && k.mode == (if cmds == [] then j.mode else cmds[|cmds| - 1].mode)
      && (k.maxVelocity == j.maxVelocity || exists i :: 0 <= i < |cmds| && k.maxVelocity == cmds[i].maxVelocity)
    decreases |cmds|
  {
    if cmds != [] {
      assert Orders(cmds)[1..] == Orders(cmds[1..]);
      OrdersMoveNothing(J.Commanded(j, cmds[0]), cmds[1..]);
      var k := J.Run(j, Orders(cmds));
      if k.maxVelocity != j.maxVelocity && k.maxVelocity != cmds[0].maxVelocity {
        var i :| 0 <= i < |cmds[1..]| && k.maxVelocity == cmds[1..][i].maxVelocity;
        assert cmds[i + 1] == cmds[1..][i];
      }
    }
  }

  lemma PendingIsSound(s: App)
    requires Inv(s)
    ensures s.control.joint.cfg.accel >= 1
    ensures J.Valid(Pending(s)) && Pending(s).cfg == JOINT_CONFIG
  {
    hide FramesKept, HistoryKept, SnapshotKept, PeersKept, BeatsKept, PublishedKept, SentKept, BroadcastKept, J.Valid,
         Subsequence, CommandsOf, J.Run;
    JointIsSound(s.control, s.cmd.delivered);
    var inputs := Orders(s.cmd.queue);
    var bound := Max(Abs(s.control.joint.velocity), JL.LargestLimit(inputs));
    JL.RunKeepsLimits(s.control.joint, inputs, Max(bound, Max(0, s.control.joint.maxVelocity)));
  }

  /** While nothing is offered to the command queue, only the control rounds move the joint or drain the queue. */
  lemma QuietNext(s: App, a: Action)
    requires Inv(s) && s.ready && (a.Isr? ==> Whole(a.f))
    ensures Possible(s)
    ensures var t := Next(s, a);
      t.cmd.offers == s.cmd.offers ==>
        && t.ready
        && (if a.Control? then t.cmd.queue == [] && t.control.joint == J.Stepped(Pending(s), 1)
            else t.cmd.queue == s.cmd.queue && t.control.joint == s.control.joint)
  {
    hide Inv, Whole, CanRxRound, CommsRound, ControlRound, Pending;
    InvPossible(s);
    match a
    case Start(_) =>
    case Isr(_) =>
    case CanRx(beatTime, pollTime) => QuietCanRx(s, beatTime, pollTime);
    case Comms(r) => QuietComms(s, r);
    case Control => QuietControl(s);
  }

  lemma QuietCanRx(s: App, beatTime: nat, pollTime: nat)
    requires s.rx.queue != [] ==> Whole(s.rx.queue[0])
    ensures var t := CanRxRound(s, beatTime, pollTime);
      t.ready == s.ready && t.control == s.control && (t.cmd.offers == s.cmd.offers ==> t.cmd == s.cmd)
  {
    hide Whole, DecodedCommand, DecodedHeartbeat, IdType, IdNode, PeersPolled, BeatHeard;
  }

  lemma QuietComms(s: App, r: Round)
    ensures var t := CommsRound(s, r);
      t.ready == s.ready && t.control == s.control && (t.cmd.offers == s.cmd.offers ==> t.cmd == s.cmd)
  {
    hide Beaten, Advanced, ButtonSeen, EncodedCommand;
  }

  lemma QuietControl(s: App)
    requires s.control.joint.cfg.accel >= 1
    ensures var t := ControlRound(s);
      t.ready == s.ready && t.cmd.queue == [] && t.control.joint == J.Stepped(Pending(s), 1)
  {
    hide J.Run, J.Valid, D.Reported, StateSent, J.Stepped;
    var tick := J.Tick(CONTROL_PERIOD_MS);
    J.RunSplit(s.control.joint, Orders(s.cmd.queue), [tick]);
    J.RunOne(Pending(s), tick);
  }

  lemma {:induction false} QuietRun(s: App, actions: seq<Action>)
    requires Inv(s) && s.ready && WholeFrames(actions)
    ensures Possible(s) && s.control.joint.cfg.accel >= 1
    ensures var t, n := Run(s, actions), Controls(actions);
      t.cmd.offers == s.cmd.offers ==>
        && t.ready
        && (if n == 0 then t.cmd.queue == s.cmd.queue && t.control.joint == s.control.joint
            else t.cmd.queue == [] && t.control.joint == JB.Steps(Pending(s), 1, n))
    decreases |actions|
  {
    hide Inv, Next, J.Stepped, Pending;
    InvPossible(s);
    if actions != [] {
      var a, k := actions[0], Next(s, actions[0]);
      NextKeepsInv(s, a);
      QuietNext(s, a);
      NextOffered(s, a);
      RunOffered(k, actions[1..]);
      if Run(s, actions).cmd.offers == s.cmd.offers {
        OffersBetween(s.cmd.offers, k.cmd.offers, Run(s, actions).cmd.offers);
        QuietRun(k, actions[1..]);
        InvPossible(k);
        if a.Control? {
          StepsFromFront(Pending(s), Controls(actions[1..]));
          NothingPending(k);
        } else {
          PendingAgrees(s, k);
        }
      }
    }
  }

  lemma OffersBetween(a: seq<Offer>, b: seq<Offer>, c: seq<Offer>)
    requires a <= b <= c && c == a
    ensures b == a
  {
  }

  lemma NothingPending(s: App)
    requires s.control.joint.cfg.accel >= 1 && s.cmd.queue == []
    ensures Pending(s) == s.control.joint
  {
  }

  lemma PendingAgrees(s: App, t: App)
    requires s.control.joint.cfg.accel >= 1 && s.cmd.queue == t.cmd.queue && s.control.joint == t.control.joint
    ensures Pending(s) == Pending(t)
  {
  }

  lemma StepsFromFront(j: J.Joint, n: nat)
    requires j.cfg.accel >= 1
    ensures JB.Steps(j, 1, 1) == J.Stepped(j, 1)
    ensures J.Stepped(j, 1).cfg == j.cfg
    ensures JB.Steps(J.Stepped(j, 1), 1, n) == JB.Steps(j, 1, 1 + n)
  {
    hide J.Stepped;
    assert JB.Steps(j, 1, 0) == j;
    assert JB.Steps(j, 1, 1) == J.Stepped(JB.Steps(j, 1, 0), 1);
    JB.StepsAdd(j, 1, 1, n);
  }

  /** Control rounds after which a silent joint is sure to be at rest: the timeout, then the braking time. */
  function RoundsToRest(j: J.Joint): nat {
    501 + (Max(Abs(j.velocity), Max(0, j.maxVelocity)) + 359) / 360
  }

  lemma RoundsAreSteps(j: J.Joint)
    requires j.cfg == JOINT_CONFIG
    ensures J.BrakeDelta(j.cfg, 1) == 360 && JB.StepsToRest(j, 1) == RoundsToRest(j)
  {
    assert TruncDiv(360000 * 1, 1000) == 360;
    assert JB.ExpiryStep(500, 1) == 501;
  }

  /**
    Every joint disables itself half a second after its last command and brakes to standstill. From
    any reachable state, however frames, interrupts and task rounds interleave: as long as no command
    is offered any more, the joint, once it has taken the commands still queued, is disabled and at
    rest after 501 control rounds plus one per 0.36 degrees per second of its speed or limit, flagged
    if it was in POSITION mode, and stays where it is from then on.
   */
  lemma SilenceStopsTheJoint(s: App, actions: seq<Action>, more: seq<Action>)
    requires Inv(s) && s.ready && WholeFrames(actions) && WholeFrames(more)
    requires Possible(s) && Possible(Run(s, actions))
    requires Run(Run(s, actions), more).cmd.offers == s.cmd.offers
    requires Controls(actions) >= RoundsToRest(Pending(s))
    ensures var j, k := Pending(s), Run(s, actions).control.joint;
      && k.mode == MODE_DISABLED && k.velocity == 0
      && (j.mode == MODE_POSITION ==> J.PeerLost(k) && k.timeouts == ToUint32(j.timeouts + 1))
      && Run(Run(s, actions), more).control.joint == k
  {
    hide Run, JB.Steps, JB.StepsToRest, JB.ExpiryStep, Inv, Pending, ToUint32;
    var j := Pending(s);
    var t, n, m := Run(s, actions), Controls(actions), Controls(actions) + Controls(more);
    RunKeepsInv(s, actions);
    RunOffered(s, actions);
    RunOffered(t, more);
    OffersBetween(s.cmd.offers, t.cmd.offers, Run(t, more).cmd.offers);
    QuietRun(s, actions);
    QuietRun(t, more);
    NothingPending(t);
    JB.StepsAdd(j, 1, Controls(actions), Controls(more));
    PendingIsSound(s);
    RoundsAreSteps(j);
    JB.LosingTheControllerStopsTheJoint(j, 1, n, m);
  }
}
