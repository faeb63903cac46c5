/** Which frames reach can_rx and which commands reach the joint, and exactly when any is lost on the way. */
module AppDelivery {
  import opened AppConfig
  import opened AppModel
  import opened AppSafety
  import opened AppTheorems
  import opened CIntegers
  import opened Messages
  import opened ProtocolModel

  // ---- frames, by counting alone -----------------------------------------------------------

  /**
    The frames a started node with n unhandled frames takes in, from what happens alone: each one given
    while fewer than 32 are unhandled; a round of can_rx handles one. A node not started takes in none.
   */
  function Kept(actions: seq<Action>, ready: bool, n: nat): seq<Frame>
    decreases |actions|
  {
    if actions == [] then []
    else match actions[0]
      case Start(_) => Kept(actions[1..], true, n)
      case Isr(f) =>
        if ready && n < 32 then [f] + Kept(actions[1..], ready, n + 1) else Kept(actions[1..], ready, n)
      case CanRx(_, _) => Kept(actions[1..], ready, if ready && n > 0 then n - 1 else n)
      case _ => Kept(actions[1..], ready, n)
  }

  /** How many are unhandled in the end. */
  function Backlog(actions: seq<Action>, ready: bool, n: nat): nat
    decreases |actions|
  {
    if actions == [] then n
    else match actions[0]
      case Start(_) => Backlog(actions[1..], true, n)
      case Isr(f) => Backlog(actions[1..], ready, if ready && n < 32 then n + 1 else n)
      case CanRx(_, _) => Backlog(actions[1..], ready, if ready && n > 0 then n - 1 else n)
      case _ => Backlog(actions[1..], ready, n)
  }

  lemma NextReceives(s: App, a: Action)
    requires Possible(s) && (a.Isr? ==> Whole(a.f))
    ensures var t := Next(s, a);
      && t.ready == (s.ready || a.Start?)
      && (a.Isr? && s.ready && |s.rx.queue| < 32 ==>
            t.rx.accepted == s.rx.accepted + [a.f] && t.rx.queue == s.rx.queue + [a.f] && t.rx.handled == s.rx.handled)
      && (a.CanRx? && s.ready && s.rx.queue != [] ==>
            && t.rx.accepted == s.rx.accepted && t.rx.queue == s.rx.queue[1..]
            && t.rx.handled == s.rx.handled + [s.rx.queue[0]])
      && (!(a.Isr? && s.ready && |s.rx.queue| < 32) && !(a.CanRx? && s.ready && s.rx.queue != []) ==>
            t.rx.accepted == s.rx.accepted && t.rx.queue == s.rx.queue && t.rx.handled == s.rx.handled)
  {
    hide Whole, DecodedCommand, DecodedHeartbeat, IdType, IdNode, Fed, Beaten, Advanced, ButtonSeen, PeersPolled,
         BeatHeard, EncodedCommand, StateSent, ToUint32, Offered;
  }

  /** Before the tasks are started only the interrupt does anything, and all it does is count the frame. */
  lemma OnlyCountsBeforeStart(s: App, a: Action)
    requires Possible(s) && (a.Isr? ==> Whole(a.f)) && !s.ready && !a.Start?
    ensures Next(s, a) == if a.Isr? then s.(rx := s.rx.(offered := s.rx.offered + [a.f],
                                                        dropped := (s.rx.dropped + 1) % TWO_32)) else s
  {
    hide Whole, Possible;
  }

  lemma {:induction false} RunReceives(s: App, actions: seq<Action>)
    requires Possible(s) && WholeFrames(actions) && s.rx.accepted == s.rx.handled + s.rx.queue && |s.rx.queue| <= 32
    ensures var t := Run(s, actions);
      && t.rx.accepted == s.rx.accepted + Kept(actions, s.ready, |s.rx.queue|)
      && t.rx.accepted == t.rx.handled + t.rx.queue
      && |t.rx.queue| == Backlog(actions, s.ready, |s.rx.queue|) <= 32
    decreases |actions|
  {
    hide Possible, Next, Whole;
    if actions != [] {
      var a, k := actions[0], Next(s, actions[0]);
      NextReceives(s, a);
      if a.Isr? && s.ready && |s.rx.queue| < 32 {
        assert k.rx.accepted == k.rx.handled + k.rx.queue;
      } else if a.CanRx? && s.ready && s.rx.queue != [] {
        assert s.rx.queue == [s.rx.queue[0]] + s.rx.queue[1..];
      }
      RunReceives(k, actions[1..]);
    }
  }

  /**
    Over every run the frames handled, then those still queued, are exactly those that counting says: a
    frame is missing if and only if the node was not started when it was given, or exactly 32 frames
    taken in were unhandled. The counters tell them apart, in 32 bits.
   */
  lemma FramesAreLostExactlyWhen(nodeId: uint8, actions: seq<Action>)
    requires WholeFrames(actions)
    ensures Possible(Initial(nodeId))
    ensures var s, kept := Run(Initial(nodeId), actions), Kept(actions, false, 0);
      && s.rx.handled + s.rx.queue == kept
      && |s.rx.queue| == Backlog(actions, false, 0) <= 32
      && |kept| <= |IsrFrames(actions)|
      && s.rx.dropped == (|IsrFrames(actions)| - |kept|) % TWO_32
      && s.rx.frames == |s.rx.handled| % TWO_32
  {
    hide Run, CommandsKept, HistoryKept, JointKept, SnapshotKept, PeersKept, BeatsKept, PublishedKept, SentKept,
         BroadcastKept, NumberedKept, Subsequence, AllWhole;
    InitialInv(nodeId);
    RunKeepsInv(Initial(nodeId), actions);
    RunOffered(Initial(nodeId), actions);
    RunReceives(Initial(nodeId), actions);
    assert [] + IsrFrames(actions) == IsrFrames(actions) && [] + Kept(actions, false, 0) == Kept(actions, false, 0);
  }

  // ---- when no frame is lost ---------------------------------------------------------------

  /** By how many the frames given exceed the rounds of can_rx. */
  function Surplus(actions: seq<Action>): int {
    if actions == [] then 0
    else (if actions[0].Isr? then 1 else if actions[0].CanRx? then -1 else 0) + Surplus(actions[1..])
  }

  /** From n unhandled frames on there is always room. */
  predicate Lossless(actions: seq<Action>, n: nat)
    decreases |actions|
  {
    actions == [] ||
    (match actions[0]
     case Isr(_) => n < 32 && Lossless(actions[1..], n + 1)
     case CanRx(_, _) => Lossless(actions[1..], if n > 0 then n - 1 else n)
     case _ => Lossless(actions[1..], n))
  }

  lemma {:induction false} LosslessKeeps(actions: seq<Action>, n: nat)
    requires n <= 32
    ensures |Kept(actions, true, n)| <= |IsrFrames(actions)|
    ensures if Lossless(actions, n) then Kept(actions, true, n) == IsrFrames(actions)
            else |Kept(actions, true, n)| < |IsrFrames(actions)|
    decreases |actions|
  {
    if actions != [] {
      match actions[0] {
        case Isr(_) => LosslessKeeps(actions[1..], if n < 32 then n + 1 else n);
        case CanRx(_, _) => LosslessKeeps(actions[1..], if n > 0 then n - 1 else n);
        case _ => LosslessKeeps(actions[1..], n);
      }
    }
  }

  /** No beginning of the run, after n unhandled frames, leaves more than 32. */
  ghost predicate BeginsWithin(actions: seq<Action>, n: int) {
    forall j :: 0 <= j <= |actions| ==> n + Surplus(actions[..j]) <= 32
  }

  /** No stretch of the run gives the interrupt over 32 frames more than can_rx has rounds. */
  ghost predicate StaysWithin(actions: seq<Action>) {
    forall i, j :: 0 <= i <= j <= |actions| ==> Surplus(actions[i..j]) <= 32
  }

  lemma BeginsFromFront(actions: seq<Action>, n: int)
    requires actions != []
    ensures BeginsWithin(actions, n) <==> n <= 32 && BeginsWithin(actions[1..], n + Surplus([actions[0]]))
  {
    var r := actions[1..];
    forall j | 0 <= j <= |r|
      ensures Surplus(actions[..j + 1]) == Surplus([actions[0]]) + Surplus(r[..j])
    {
      assert actions[..j + 1][1..] == r[..j];
      assert [actions[0]][1..] == [];
    }
    if BeginsWithin(actions, n) {
      assert actions[..0] == [];
      forall j | 0 <= j <= |r|
        ensures n + Surplus([actions[0]]) + Surplus(r[..j]) <= 32
      {
        assert n + Surplus(actions[..j + 1]) <= 32;
      }
    }
    if n <= 32 && BeginsWithin(r, n + Surplus([actions[0]])) {
      forall j | 0 <= j <= |actions|
        ensures n + Surplus(actions[..j]) <= 32
      {
        if j == 0 {
          assert actions[..0] == [];
        } else {
          assert n + Surplus([actions[0]]) + Surplus(r[..j - 1]) <= 32;
        }
      }
    }
  }

  lemma StaysFromFront(actions: seq<Action>)
    requires actions != []
    ensures StaysWithin(actions) <==> BeginsWithin(actions, 0) && StaysWithin(actions[1..])
  {
    var r := actions[1..];
    if StaysWithin(actions) {
      forall j | 0 <= j <= |actions|
        ensures Surplus(actions[..j]) <= 32
      {
        assert actions[0..j] == actions[..j];
      }
      forall i, j | 0 <= i <= j <= |r|
        ensures Surplus(r[i..j]) <= 32
      {
        assert r[i..j] == actions[i + 1..j + 1];
      }
    }
    if BeginsWithin(actions, 0) && StaysWithin(r) {
      forall i, j | 0 <= i <= j <= |actions|
        ensures Surplus(actions[i..j]) <= 32
      {
        if i == 0 {
          assert actions[0..j] == actions[..j];
          assert 0 + Surplus(actions[..j]) <= 32;
        } else {
          assert actions[i..j] == r[i - 1..j - 1];
        }
      }
    }
  }

  lemma StaysBegins(actions: seq<Action>)
    requires StaysWithin(actions)
    ensures BeginsWithin(actions, 0)
  {
    forall j | 0 <= j <= |actions|
      ensures Surplus(actions[..j]) <= 32
    {
      assert actions[0..j] == actions[..j];
    }
  }

  lemma BeginsWithLess(actions: seq<Action>, m: int, n: int)
    requires m <= n && BeginsWithin(actions, n)
    ensures BeginsWithin(actions, m)
  {
    forall j | 0 <= j <= |actions|
      ensures m + Surplus(actions[..j]) <= 32
    {
      assert n + Surplus(actions[..j]) <= 32;
    }
  }

  lemma {:induction false} RoomExactly(actions: seq<Action>, n: nat)
    requires n <= 32
    ensures Lossless(actions, n) <==> BeginsWithin(actions, n) && StaysWithin(actions)
    decreases |actions|
  {
    if actions == [] {
      assert forall j :: 0 <= j <= 0 ==> actions[..j] == [];
      assert forall i, j :: 0 <= i <= j <= 0 ==> actions[i..j] == [];
    } else {
      hide BeginsWithin, StaysWithin;
      var a, r := actions[0], actions[1..];
      BeginsFromFront(actions, n);
      StaysFromFront(actions);
      if BeginsWithin(actions, n) {
        BeginsWithLess(actions, 0, n);
      }
      assert [a][1..] == [] && Surplus([a]) == if a.Isr? then 1 else if a.CanRx? then -1 else 0;
      if a.Isr? {
        if n < 32 {
          RoomExactly(r, n + 1);
        } else {
          TooMany(r, n + 1);
        }
      } else if a.CanRx? {
        RoomExactly(r, if n > 0 then n - 1 else n);
        if n == 0 && StaysWithin(r) {
          StaysBegins(r);
          BeginsWithLess(r, -1, 0);
        }
      } else {
        RoomExactly(r, n);
      }
    }
  }

  lemma TooMany(actions: seq<Action>, n: int)
    requires n > 32
    ensures !BeginsWithin(actions, n)
  {
    assert actions[..0] == [];
    assert n + Surplus(actions[..0]) > 32;
  }

  /** What is given before the tasks are started is lost. */
  lemma {:induction false} NotStarted(before: seq<Action>, rest: seq<Action>)
    requires forall i :: 0 <= i < |before| ==> !before[i].Start?
    ensures Kept(before + rest, false, 0) == Kept(rest, false, 0)
    ensures IsrFrames(before + rest) == IsrFrames(before) + IsrFrames(rest)
    decreases |before|
  {
    if before == [] {
      assert before + rest == rest;
    } else {
      assert (before + rest)[1..] == before[1..] + rest;
      NotStarted(before[1..], rest);
    }
  }

  lemma StartedHere(millis: uint32, after: seq<Action>)
    ensures Kept([Start(millis)] + after, false, 0) == Kept(after, true, 0)
    ensures IsrFrames([Start(millis)] + after) == IsrFrames(after)
  {
    assert ([Start(millis)] + after)[1..] == after;
  }

  /**
    From the start of the tasks on no frame is lost if and only if no stretch of the run gives the
    interrupt over 32 frames more than can_rx has rounds. Then the frames handled and queued are exactly
    those given since, in order, and the frames counted as dropped are exactly those given before.
   */
  lemma NothingIsLostExactlyWhen(nodeId: uint8, before: seq<Action>, millis: uint32, after: seq<Action>)
    requires forall i :: 0 <= i < |before| ==> !before[i].Start?
    requires WholeFrames(before + [Start(millis)] + after)
    ensures Possible(Initial(nodeId))
    ensures var s := Run(Initial(nodeId), before + [Start(millis)] + after);
      && (s.rx.handled + s.rx.queue == IsrFrames(after) <==> StaysWithin(after))
      && (StaysWithin(after) ==> s.rx.dropped == |IsrFrames(before)| % TWO_32)
  {
    hide Run, StaysWithin, Possible;
    FramesAreLostExactlyWhen(nodeId, before + [Start(millis)] + after);
    NotStarted(before, [Start(millis)] + after);
    assert before + ([Start(millis)] + after) == before + [Start(millis)] + after;
    StartedHere(millis, after);
    LosslessKeeps(after, 0);
    RoomExactly(after, 0);
    if StaysWithin(after) {
      StaysBegins(after);
    }
  }

  /** n frames in a row. */
  function Burst(f: Frame, n: nat): seq<Action> {
    seq(n, _ => Isr(f))
  }

  lemma {:induction false} BurstSurplus(f: Frame, n: nat)
    ensures Surplus(Burst(f, n)) == n
  {
    if n > 0 {
      assert Burst(f, n)[1..] == Burst(f, n - 1);
      BurstSurplus(f, n - 1);
    }
  }

  /**
    It is every stretch that counts, not only those from the start: a round that finds the queue empty
    is of no use to the frames that come after it.
   */
  lemma BeginningsDoNotTell(f: Frame)
    ensures var after := [CanRx(0, 0)] + Burst(f, 33); BeginsWithin(after, 0) && !StaysWithin(after)
  {
    var after := [CanRx(0, 0)] + Burst(f, 33);
    forall j | 0 <= j <= |after|
      ensures 0 + Surplus(after[..j]) <= 32
    {
      if j == 0 {
        assert after[..0] == [];
      } else {
        assert after[..j][1..] == Burst(f, j - 1);
        BurstSurplus(f, j - 1);
      }
    }
    assert after[1..34] == Burst(f, 33);
    BurstSurplus(f, 33);
    assert Surplus(after[1..34]) > 32;
  }

  // ---- commands ----------------------------------------------------------------------------

  /** Never more than four rounds of can_rx and comms between two of control. */
  predicate Prompt(actions: seq<Action>, n: nat)
    decreases |actions|
  {
    actions == [] ||
    (match actions[0]
     case CanRx(_, _) => n < 4 && Prompt(actions[1..], n + 1)
     case Comms(_) => n < 4 && Prompt(actions[1..], n + 1)
     case Control => Prompt(actions[1..], 0)
     case _ => Prompt(actions[1..], n))
  }

  /** No offered command has been lost, and at most n are waiting. */
  ghost predicate AllTaken(s: App, n: nat) {
    s.cmd.queued == CommandsOf(s.cmd.offers) && |s.cmd.queue| <= n && (!s.ready ==> s.cmd.queue == [])
  }

  lemma OfferKeepsAll(cmd: CmdPath, o: Offer)
    requires cmd.queued == CommandsOf(cmd.offers) && |cmd.queue| < 4
    ensures var k := Offered(cmd, o); k.queued == CommandsOf(k.offers) && |k.queue| == |cmd.queue| + 1
  {
    hide CommandsOf;
    CommandsAppend(cmd.offers, o);
  }

  lemma CanRxTakesAll(s: App, beatTime: nat, pollTime: nat, n: nat)
    requires s.rx.queue != [] ==> Whole(s.rx.queue[0])
    requires AllTaken(s, n) && n < 4 && s.ready
    ensures AllTaken(CanRxRound(s, beatTime, pollTime), n + 1)
  {
    hide Whole, DecodedCommand, DecodedHeartbeat, IdType, IdNode, PeersPolled, BeatHeard, ToUint32, CommandsOf, Offered;
    if s.rx.queue != [] && DecodedCommand(s.rx.queue[0]).Ok? {
      OfferKeepsAll(s.cmd, Heard(DecodedCommand(s.rx.queue[0]).value));
    }
  }

  lemma CommsTakesAll(s: App, r: Round, n: nat)
    requires AllTaken(s, n) && n < 4 && s.ready
    ensures AllTaken(CommsRound(s, r), n + 1)
  {
    hide Beaten, Advanced, ButtonSeen, EncodedCommand, CommandsOf, Offered;
    OfferKeepsAll(s.cmd, Own(SweepCommand(Advanced(ButtonSeen(s.sweep, r), r))));
  }

  lemma ControlTakesAll(s: App, n: nat)
    requires s.control.joint.cfg.accel >= 1 && AllTaken(s, n) && s.ready
    ensures AllTaken(ControlRound(s), 0)
  {
    hide Fed, StateSent, CommandsOf;
  }

  lemma {:induction false} RunTakesAll(s: App, actions: seq<Action>, n: nat)
    requires Possible(s) && WholeFrames(actions) && AllTaken(s, n) && Prompt(actions, n)
    ensures var t := Run(s, actions); t.cmd.queued == CommandsOf(t.cmd.offers)
    decreases |actions|
  {
    if actions != [] {
      hide AllTaken, Whole, CanRxRound, CommsRound, ControlRound, CommandsOf;
      var k := Next(s, actions[0]);
      NextTakesAll(s, actions[0], n);
      match actions[0] {
        case CanRx(_, _) => RunTakesAll(k, actions[1..], n + 1);
        case Comms(_) => RunTakesAll(k, actions[1..], n + 1);
        case Control => RunTakesAll(k, actions[1..], 0);
        case _ => RunTakesAll(k, actions[1..], n);
      }
    }
  }

  lemma NextTakesAll(s: App, a: Action, n: nat)
    requires Possible(s) && (a.Isr? ==> Whole(a.f)) && AllTaken(s, n)
    requires a.CanRx? || a.Comms? ==> n < 4
    ensures AllTaken(Next(s, a), if a.CanRx? || a.Comms? then n + 1 else if a.Control? then 0 else n)
  {
    hide Whole, CanRxRound, CommsRound, ControlRound, CommandsOf;
    if s.ready {
      match a
      case CanRx(beatTime, pollTime) => CanRxTakesAll(s, beatTime, pollTime, n);
      case Comms(r) => CommsTakesAll(s, r, n);
      case Control => ControlTakesAll(s, n);
      case _ =>
    }
  }

  /**
    Between two rounds of control there is room for what four rounds of can_rx and comms can offer: then
    no command is lost, and those that have reached the joint, then those still queued, are all that were
    offered, in order; on a node that is not the controller, all that the handled frames hold for it.
   */
  lemma NoCommandIsLost(nodeId: uint8, actions: seq<Action>)
    requires WholeFrames(actions) && Prompt(actions, 0)
    ensures Possible(Initial(nodeId))
    ensures var s := Run(Initial(nodeId), actions);
      && AllWhole(s.rx.handled)
      && s.cmd.delivered + s.cmd.queue == CommandsOf(s.cmd.offers)
      && (nodeId != CONTROLLER_NODE_ID ==> s.cmd.delivered + s.cmd.queue == CommandsIn(nodeId, s.rx.handled))
  {
    hide Run, Prompt, JointKept, SnapshotKept, PeersKept, BeatsKept, PublishedKept, SentKept, BroadcastKept,
         NumberedKept, Subsequence, CommandsIn, HeardOf, ErrorsIn;
    InitialInv(nodeId);
    RunKeepsInv(Initial(nodeId), actions);
    RunTakesAll(Initial(nodeId), actions, 0);
    RunOffered(Initial(nodeId), actions);
    if nodeId != CONTROLLER_NODE_ID {
      FollowersObeyTheBus(nodeId, actions);
    }
  }
}
