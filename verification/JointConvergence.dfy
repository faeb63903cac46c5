/** A joint that keeps being sent to one target gets there in bounded time and stays. */
module JointConvergence {
  import opened CIntegers
  import opened Isqrt
  import opened JointLimits
  import opened JointModel
  import opened Messages

  /** Moving, but not toward the target. */
  predicate Astray(j: Joint) {
    (j.velocity > 0 && Distance(j) <= 0) || (j.velocity < 0 && Distance(j) >= 0)
  }

  predicate Arrived(j: Joint) {
    j.position == j.target && j.velocity == 0
  }

  /** An upper bound on the steps still needed: first the speed in the wrong direction, then the way left. */
  function Rank(j: Joint): int {
    if Astray(j) then Abs(j.velocity) + (j.cfg.max - j.cfg.min) else Abs(Distance(j))
  }

  /** Still on course, on the same side of the target or on it, and no farther away. */
  predicate NoFarther(j: Joint, k: Joint) {
    && !Astray(k)
    && (Distance(j) >= 0 ==> 0 <= Distance(k) <= Distance(j))
    && (Distance(j) <= 0 ==> Distance(j) <= Distance(k) <= 0)
  }

  /** One step toward a target on the right. */
  lemma ApproachFromLeft(j: Joint, dt: uint32)
    requires Valid(j) && j.mode == MODE_POSITION && dt > 0 && Distance(j) > 0
    ensures Rank(Approached(j, dt)) < Rank(j)
    ensures !Astray(j) ==> !Astray(Approached(j, dt)) && 0 <= Distance(Approached(j, dt)) < Distance(j)
    ensures !Astray(j) ==> 0 <= Approached(j, dt).velocity
  {
    SlewBounds(j, dt);
    TravelSign(SlewedVelocity(j, dt), dt);
  }

  lemma ApproachFromRight(j: Joint, dt: uint32)
    requires Valid(j) && j.mode == MODE_POSITION && dt > 0 && Distance(j) < 0
    ensures Rank(Approached(j, dt)) < Rank(j)
    ensures !Astray(j) ==> !Astray(Approached(j, dt)) && Distance(j) < Distance(Approached(j, dt)) <= 0
    ensures !Astray(j) ==> Approached(j, dt).velocity <= 0
  {
    SlewBounds(j, dt);
    TravelSign(SlewedVelocity(j, dt), dt);
  }

  lemma ApproachOnTarget(j: Joint, dt: uint32)
    requires Valid(j) && j.mode == MODE_POSITION && dt > 0 && Distance(j) == 0
    ensures Arrived(j) ==> Arrived(Approached(j, dt))
    ensures !Arrived(j) ==> Rank(Approached(j, dt)) < Rank(j)
  {
    WantedSpeedBounds(j);
    DeltaBounds(j.cfg, dt);
    TravelSign(SlewedVelocity(j, dt), dt);
  }

  /** In POSITION mode every step that the watchdog lets pass brings the joint closer, until it has arrived. */
  lemma StepApproaches(j: Joint, dt: uint32)
    requires Valid(j) && j.mode == MODE_POSITION && dt > 0 && !Expires(j, dt)
    ensures var k := Stepped(j, dt);
      && k.mode == MODE_POSITION && k.target == j.target
      && (Arrived(j) ==> Arrived(k)) && (!Arrived(j) ==> Rank(k) < Rank(j))
      && (!Astray(j) ==> NoFarther(j, k))
  {
    var w := Watched(j, dt);
    assert Valid(w) && Distance(w) == Distance(j) && Rank(w) == Rank(j);
    if Distance(j) > 0 {
      ApproachFromLeft(w, dt);
    } else if Distance(j) < 0 {
      ApproachFromRight(w, dt);
    } else {
      ApproachOnTarget(w, dt);
    }
  }

  /** The slewed velocity takes the joint to its target, or past it; or it is a unit away at most and hardly moves. */
  predicate Lands(e: int, way: int) {
    (e > 0 && way >= 1000 * e) || (e < 0 && way <= 1000 * e) || (Abs(e) <= 1 && Abs(way) < 1000)
  }

  lemma ApproachCovers(j: Joint, dt: uint32)
    requires Valid(j) && j.mode == MODE_POSITION && dt > 0
    ensures var k, u, e := Approached(j, dt), SlewedVelocity(j, dt), Distance(j);
      var moved := k.position - j.position;
      && (Lands(e, u * dt) ==> Arrived(k))
      && (!Lands(e, u * dt) ==>
            && k.velocity == u
            && (Abs(u * dt) < 1000 ==> moved == if e > 0 then 1 else -1)
            && (u * dt >= 1000 ==>
                  0 <= 1000 * moved <= u * dt && (k.position < j.cfg.max ==> 1000 * moved > u * dt - 1000))
            && (u * dt <= -1000 ==>
                  u * dt <= 1000 * moved <= 0 && (k.position > j.cfg.min ==> 1000 * moved < u * dt + 1000)))
  {
    hide Root, SlewedVelocity, OwnFlagsOnly, PeerLost, Travel;
    var u := SlewedVelocity(j, dt);
    TravelIs(u, dt);
  }

  /**
    Where one step goes, from any state. With u the slewed velocity: it lands, exactly on the target and
    at rest, if and only if u dt thousandths take it there. Otherwise it keeps u; and where u dt is less
    than a unit it crawls one unit toward the target, else it goes u dt thousandths cut to a whole
    number, or up to the soft limit in that direction.
   */
  lemma StepCovers(j: Joint, dt: uint32)
    requires Valid(j) && j.mode == MODE_POSITION && dt > 0 && !Expires(j, dt)
    ensures var k, u, e := Stepped(j, dt), SlewedVelocity(j, dt), Distance(j);
      var moved := k.position - j.position;
      && (Lands(e, u * dt) ==> Arrived(k))
      && (!Lands(e, u * dt) ==>
            && k.velocity == u
            && (Abs(u * dt) < 1000 ==> moved == if e > 0 then 1 else -1)
            && (u * dt >= 1000 ==>
                  0 <= 1000 * moved <= u * dt && (k.position < j.cfg.max ==> 1000 * moved > u * dt - 1000))
            && (u * dt <= -1000 ==>
                  u * dt <= 1000 * moved <= 0 && (k.position > j.cfg.min ==> 1000 * moved < u * dt + 1000)))
  {
    hide Approached, SlewedVelocity, OwnFlagsOnly, PeerLost;
    WatchKeepsValid(j, dt);
    ApproachCovers(Watched(j, dt), dt);
    SlewIgnoresAge(j, CommandAge(j, dt), dt);
  }

  lemma SlewIgnoresAge(k: Joint, age: uint32, dt: uint32)
    requires k.cfg.accel >= 1
    ensures SlewedVelocity(k.(sinceCommand := age), dt) == SlewedVelocity(k, dt)
  {
  }

  lemma TravelIs(u: int, dt: uint32)
    ensures var t, way := Travel(u, dt), u * dt;
      && (way >= 0 ==> 0 <= 1000 * t <= way < 1000 * t + 1000)
      && (way <= 0 ==> 1000 * t - 1000 < way <= 1000 * t <= 0)
  {
    TruncDivBounds(u * dt, 1000);
  }

  /**
    The slewed velocity is the one nearest to the wanted velocity within the slew limit: that is the
    acceleration times the step size, in thousandths cut to a whole number, or 1 where that is none. The
    wanted velocity is the wanted speed toward the target.
   */
  lemma SlewedIsClosest(j: Joint, dt: uint32, u: int)
    requires Valid(j) && j.mode == MODE_POSITION
    ensures var v, e, dv := SlewedVelocity(j, dt), Distance(j), SlewLimit(j.cfg, dt);
      var want := if e > 0 then WantedSpeed(j) else -WantedSpeed(j);
      && (if j.cfg.accel * dt < 1000 then dv == 1 else 1000 * dv <= j.cfg.accel * dt < 1000 * dv + 1000)
      && Abs(v - j.velocity) <= dv
      && (Abs(u - j.velocity) <= dv ==> Abs(want - v) <= Abs(want - u))
  {
    hide Root, WantedSpeed, OwnFlagsOnly, PeerLost;
    MulMonotone(0, j.cfg.accel, dt);
    DivParts(j.cfg.accel * dt, 1000);
    SlewIsClosest(j.velocity, WantedVelocity(j), SlewLimit(j.cfg, dt), u);
  }

  /** Commands that repeat the goal, at whatever positive speed limit, and steps the watchdog lets pass. */
  predicate Sustained(j: Joint, inputs: seq<Input>)
    requires j.cfg.accel >= 1
    decreases |inputs|
  {
    inputs == [] ||
    (&& (match inputs[0]
         case Order(c) => Executable(c) && c.mode == MODE_POSITION && Clamp(c.target, j.cfg.min, j.cfg.max) == j.target
         case Tick(dt) => dt > 0 && !Expires(j, dt))
     && Sustained(Next(j, inputs[0]), inputs[1..]))
  }

  function Ticks(inputs: seq<Input>): nat {
    if inputs == [] then 0 else (if inputs[0].Tick? then 1 else 0) + Ticks(inputs[1..])
  }

  lemma {:induction false} RankFalls(j: Joint, inputs: seq<Input>)
    requires Valid(j) && j.mode == MODE_POSITION && Sustained(j, inputs)
    ensures var k := Run(j, inputs);
      && Valid(k) && k.mode == MODE_POSITION && k.target == j.target
      && 0 <= Rank(k) <= Max(0, Rank(j) - Ticks(inputs))
      && (!Astray(j) ==> NoFarther(j, k))
    decreases |inputs|
  {
    if inputs != [] {
      hide Valid, Next, Rank, Astray;
      var k := Next(j, inputs[0]);
      NextApproaches(j, inputs[0]);
      RankFalls(k, inputs[1..]);
      NoFartherTrans(j, k, Run(k, inputs[1..]));
    }
  }

  lemma NoFartherTrans(j: Joint, k: Joint, l: Joint)
    ensures NoFarther(j, k) && NoFarther(k, l) ==> NoFarther(j, l)
  {
    hide Astray;
  }

  /** One input of a sustained run. */
  lemma NextApproaches(j: Joint, i: Input)
    requires Valid(j) && j.mode == MODE_POSITION && (i.Tick? ==> i.dt > 0 && !Expires(j, i.dt))
    requires i.Order? ==> Executable(i.c) && i.c.mode == MODE_POSITION
                          && Clamp(i.c.target, j.cfg.min, j.cfg.max) == j.target
    ensures var k := Next(j, i);
      && Valid(k) && k.mode == MODE_POSITION && k.target == j.target
      && 0 <= Rank(k) <= Max(0, Rank(j) - if i.Tick? then 1 else 0)
      && (!Astray(j) ==> NoFarther(j, k))
  {
    match i
    case Order(c) =>
      CommandKeepsValid(j, c);
    case Tick(dt) =>
      hide Stepped;
      StepKeepsValid(j, dt);
      StepApproaches(j, dt);
  }

  /**
    From any state in POSITION mode, whatever the mix of step sizes and repeated commands, the joint
    is at its target and at rest after |v| + (max - min) steps at the latest, and from then on.
   */
  lemma Converges(j: Joint, inputs: seq<Input>)
    requires Valid(j) && j.mode == MODE_POSITION && Sustained(j, inputs)
    requires Ticks(inputs) >= Abs(j.velocity) + (j.cfg.max - j.cfg.min)
    ensures Arrived(Run(j, inputs)) && Run(j, inputs).target == j.target
  {
    RankFalls(j, inputs);
  }

  /** A joint at rest or already heading for its target never overshoots it, at any point of the run. */
  lemma NeverOvershoots(j: Joint, inputs: seq<Input>)
    requires Valid(j) && j.mode == MODE_POSITION && !Astray(j) && Sustained(j, inputs)
    ensures var k := Run(j, inputs);
      if j.position <= j.target then j.position <= k.position <= j.target && k.velocity >= 0
      else j.target <= k.position <= j.position && k.velocity <= 0
  {
    RankFalls(j, inputs);
  }

  // ---- runs that qualify, told from their inputs -------------------------------------------

  /** Commands to the same target, at whatever positive speed limit, and steps that take time. */
  predicate Repeats(cfg: Config, target: int, inputs: seq<Input>) {
    forall i :: 0 <= i < |inputs| ==>
      match inputs[i]
      case Order(c) => Executable(c) && c.mode == MODE_POSITION && Clamp(c.target, cfg.min, cfg.max) == target
      case Tick(dt) => dt > 0
  }

  /** No more than the timeout between a command and the next one, starting at a given age of the last. */
  predicate InTime(inputs: seq<Input>, age: nat, timeout: nat)
    decreases |inputs|
  {
    inputs == [] ||
    match inputs[0]
    case Order(_) => InTime(inputs[1..], 0, timeout)
    case Tick(dt) => age + dt <= timeout && InTime(inputs[1..], age + dt, timeout)
  }

  /** No step takes so long that the 32-bit age of a command could wrap past the timeout. */
  predicate ShortSteps(inputs: seq<Input>, timeout: nat) {
    forall i :: 0 <= i < |inputs| && inputs[i].Tick? ==> timeout + inputs[i].dt < TWO_32
  }

  /** Without a timeout no step ever expires, so every run of repeated commands and steps is sustained. */
  lemma {:induction false} SustainedWithoutTimeout(j: Joint, inputs: seq<Input>)
    requires Valid(j) && j.cfg.timeout == 0 && j.mode == MODE_POSITION && Repeats(j.cfg, j.target, inputs)
    ensures Sustained(j, inputs)
    decreases |inputs|
  {
    if inputs != [] {
      hide Valid, Next;
      RepeatedInput(j, inputs);
      NextApproaches(j, inputs[0]);
      SustainedWithoutTimeout(Next(j, inputs[0]), inputs[1..]);
    }
  }

  /**
    With a timeout every run whose commands follow each other within it is sustained; and, where no
    step is so long that the age wraps, only such a run is.
   */
  lemma {:induction false} SustainedInTime(j: Joint, inputs: seq<Input>)
    requires Valid(j) && j.cfg.timeout != 0 && j.mode == MODE_POSITION && Repeats(j.cfg, j.target, inputs)
    ensures InTime(inputs, j.sinceCommand, j.cfg.timeout) ==> Sustained(j, inputs)
    ensures ShortSteps(inputs, j.cfg.timeout) ==>
              (Sustained(j, inputs) <==> InTime(inputs, j.sinceCommand, j.cfg.timeout))
    decreases |inputs|
  {
    if inputs != [] {
      hide Valid, Next, Expires;
      var i, k := inputs[0], Next(j, inputs[0]);
      RepeatedInput(j, inputs);
      AgeAfter(j, i);
      if i.Order? || !Expires(j, i.dt) {
        NextApproaches(j, i);
        SustainedInTime(k, inputs[1..]);
      }
      if ShortSteps(inputs, j.cfg.timeout) && i.Tick? {
        assert j.cfg.timeout + i.dt < TWO_32;
      }
    }
  }

  lemma RepeatedInput(j: Joint, inputs: seq<Input>)
    requires Valid(j) && inputs != [] && Repeats(j.cfg, j.target, inputs)
    ensures Repeats(j.cfg, j.target, inputs[1..])
    ensures match inputs[0]
      case Order(c) => Executable(c) && c.mode == MODE_POSITION && Clamp(c.target, j.cfg.min, j.cfg.max) == j.target
      case Tick(dt) => dt > 0 && (Expires(j, dt) ==> j.cfg.timeout != 0)
  {
    hide Valid;
    assert forall i :: 0 <= i < |inputs| - 1 ==> inputs[1..][i] == inputs[i + 1];
  }

  /** The age of the command after an input that the watchdog lets pass. */
  lemma AgeAfter(j: Joint, i: Input)
    requires Valid(j) && j.mode == MODE_POSITION && j.cfg.timeout != 0
    ensures i.Order? ==> Next(j, i).sinceCommand == 0
    ensures i.Tick? && i.dt > 0 && !Expires(j, i.dt) ==> Next(j, i).sinceCommand == CommandAge(j, i.dt)
    ensures i.Tick? && j.sinceCommand + i.dt <= j.cfg.timeout ==>
              !Expires(j, i.dt) && CommandAge(j, i.dt) == j.sinceCommand + i.dt
    ensures i.Tick? && j.sinceCommand + i.dt > j.cfg.timeout && j.cfg.timeout + i.dt < TWO_32 ==> Expires(j, i.dt)
  {
    hide SlewedVelocity, Stride, Travel, OwnFlagsOnly, PeerLost;
  }
}
