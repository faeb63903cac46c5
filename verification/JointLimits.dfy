/** What every command and every step of the joint keeps, alone and over whole runs. */
module JointLimits {
  import opened Bits
  import opened CIntegers
  import opened Isqrt
  import opened JointModel
  import opened Messages

  // ---- arithmetic of one step ------------------------------------------------------------

  /** Braking by dv never speeds up, never reverses and changes the velocity by at most dv. */
  lemma BrakedBounds(v: int, dv: int)
    requires dv >= 0
    ensures v >= 0 ==> 0 <= BrakedVelocity(v, dv) <= v
    ensures v <= 0 ==> v <= BrakedVelocity(v, dv) <= 0
    ensures Abs(BrakedVelocity(v, dv) - v) <= dv
  {
  }

  lemma DeltaBounds(cfg: Config, dt: uint32)
    requires cfg.accel >= 1
    ensures BrakeDelta(cfg, dt) >= 0 && SlewLimit(cfg, dt) >= 1
  {
    MulMonotone(0, cfg.accel, dt);
    TruncDivBounds(cfg.accel * dt, 1000);
  }

  lemma BrakeBounds(cfg: Config, dt: uint32, v: int)
    requires cfg.accel >= 1
    ensures var dv, u := BrakeDelta(cfg, dt), BrakedVelocity(v, BrakeDelta(cfg, dt));
      && 0 <= dv <= SlewLimit(cfg, dt) && SlewLimit(cfg, dt) >= 1
      && (v >= 0 ==> 0 <= u <= v) && (v <= 0 ==> v <= u <= 0) && Abs(u - v) <= dv
  {
    DeltaBounds(cfg, dt);
    BrakedBounds(v, BrakeDelta(cfg, dt));
  }

  /** Travel has the sign of the velocity. */
  lemma TravelSign(v: int, dt: uint32)
    ensures v >= 0 ==> 0 <= Travel(v, dt) && 1000 * Travel(v, dt) <= v * dt
    ensures v <= 0 ==> Travel(v, dt) <= 0 && 1000 * Travel(v, dt) >= v * dt
    ensures Travel(-v, dt) == -Travel(v, dt)
  {
    assert v >= 0 ==> v * dt >= 0;
    assert v <= 0 ==> v * dt <= 0;
    assert (-v) * dt == -(v * dt);
    TruncDivBounds(v * dt, 1000);
  }

  /** The speed aimed for is at least 1 away from the target, and 0 on it. */
  lemma WantedSpeedBounds(j: Joint)
    requires j.cfg.accel >= 1 && j.maxVelocity > 0
    ensures 0 <= WantedSpeed(j) <= j.maxVelocity
    ensures Distance(j) != 0 ==> WantedSpeed(j) >= 1
    ensures Distance(j) == 0 ==> WantedSpeed(j) == 0
  {
    var x := 2 * j.cfg.accel * Abs(Distance(j));
    var r := Root(x);
    if Distance(j) == 0 {
      RootUnique(x, r, 0);
    } else {
      MulMonotone(1, Abs(Distance(j)), 2 * j.cfg.accel);
      assert x >= 2 && x < (r + 1) * (r + 1);
    }
  }

  /** One POSITION step: the slewed velocity stays between the old one and the wanted one. */
  lemma SlewBounds(j: Joint, dt: uint32)
    requires j.cfg.accel >= 1 && j.maxVelocity > 0
    ensures Abs(SlewedVelocity(j, dt)) <= Max(Abs(j.velocity), j.maxVelocity)
    ensures Abs(SlewedVelocity(j, dt) - j.velocity) <= SlewLimit(j.cfg, dt)
    ensures Distance(j) > 0 ==> SlewedVelocity(j, dt) >= Min(j.velocity + 1, 1)
    ensures Distance(j) < 0 ==> SlewedVelocity(j, dt) <= Max(j.velocity - 1, -1)
  {
    WantedSpeedBounds(j);
    BrakeBounds(j.cfg, dt, j.velocity);
  }

  // ---- single operations -----------------------------------------------------------------

  lemma CommandKeepsValid(j: Joint, c: Command)
    requires Valid(j) && Executable(c)
    ensures Valid(Commanded(j, c))
    ensures !PeerLost(Commanded(j, c))
  {
    hide HasBit;
    JointFlagBits(j.errorFlags);
    JointFlagBits(Lower(j.errorFlags, ERR_PEER_LOST));
  }

  /**
    What a command does: it is acknowledged and restarts the watchdog; a POSITION command aims at the
    point inside the limits nearest to the one asked for, and LIMIT_REACHED tells whether that is a
    different one; any other command leaves target, limit and LIMIT_REACHED alone. The joint does not
    jump, and a lost controller is forgiven.
   */
  lemma CommandTakesEffect(j: Joint, c: Command, other: int)
    requires Valid(j) && Executable(c) && j.cfg.min <= other <= j.cfg.max
    ensures var k := Commanded(j, c);
      && k.lastSeq == c.sequence && k.mode == c.mode && k.sinceCommand == 0 && !PeerLost(k)
      && k.position == j.position && k.velocity == j.velocity && k.timeouts == j.timeouts && k.cfg == j.cfg
      && (c.mode == MODE_POSITION ==>
            && k.maxVelocity == c.maxVelocity && j.cfg.min <= k.target <= j.cfg.max
            && Abs(k.target - c.target) <= Abs(other - c.target)
            && (LimitReached(k) <==> k.target != c.target))
      && (c.mode != MODE_POSITION ==>
            k.target == j.target && k.maxVelocity == j.maxVelocity && LimitReached(k) == LimitReached(j))
  {
    hide HasBit;
    JointFlagBits(j.errorFlags);
    JointFlagBits(Lower(j.errorFlags, ERR_PEER_LOST));
  }

  lemma WatchKeepsValid(j: Joint, dt: uint32)
    requires Valid(j)
    ensures Valid(Watched(j, dt))
    ensures Expires(j, dt) ==> PeerLost(Watched(j, dt))
  {
    hide HasBit;
    JointFlagBits(j.errorFlags);
  }

  lemma StepKeepsValid(j: Joint, dt: uint32)
    requires Valid(j)
    ensures Valid(Stepped(j, dt))
    ensures Abs(Stepped(j, dt).velocity) <= Max(Abs(j.velocity), if j.mode == MODE_POSITION then j.maxVelocity else 0)
  {
    var w := Watched(j, dt);
    WatchKeepsValid(j, dt);
    BrakeBounds(w.cfg, dt, w.velocity);
    if w.mode == MODE_POSITION {
      SlewBounds(w, dt);
    }
  }

  /** The speed aimed for is the largest within the limit from which the joint can still stop: w w <= 2 a e. */
  lemma WantedSpeedIsLargest(j: Joint, u: int)
    requires j.cfg.accel >= 1 && j.maxVelocity > 0
    ensures var w, x := WantedSpeed(j), 2 * j.cfg.accel * Abs(Distance(j));
      && 0 <= w <= j.maxVelocity && w * w <= x
      && (0 <= u <= j.maxVelocity && u * u <= x ==> u <= w)
  {
    WantedSpeedBounds(j);
    var w, x := WantedSpeed(j), 2 * j.cfg.accel * Abs(Distance(j));
    var r := Root(x);
    MulMonotone(w, r, w);
    MulMonotone(w, r, r);
    assert u > r ==> u * u >= (r + 1) * (r + 1) by {
      if u > r {
        MulMonotone(r + 1, u, r + 1);
        MulMonotone(r + 1, u, u);
      }
    }
  }

  /** The slewed velocity is the one nearest to the wanted velocity that the slew limit allows. */
  lemma SlewIsClosest(v: int, want: int, dv: int, u: int)
    requires dv >= 0
    ensures Abs(Slew(v, want, dv) - v) <= dv
    ensures Abs(u - v) <= dv ==> Abs(want - Slew(v, want, dv)) <= Abs(want - u)
  {
  }

  /**
    One step changes the velocity by at most the slew limit, unless it lands exactly on the target;
    a POSITION step ends on the side of the target it started from, or on the target.
   */
  lemma StepIsGentle(j: Joint, dt: uint32)
    requires Valid(j) && dt > 0
    ensures var k := Stepped(j, dt);
      && (Abs(k.velocity - j.velocity) <= SlewLimit(j.cfg, dt)
          || (j.mode == MODE_POSITION && k.position == k.target && k.velocity == 0))
      && (k.mode == MODE_POSITION && Distance(j) > 0 ==> Distance(k) >= 0)
      && (k.mode == MODE_POSITION && Distance(j) < 0 ==> Distance(k) <= 0)
  {
    var w := Watched(j, dt);
    BrakeBounds(w.cfg, dt, w.velocity);
    if w.mode == MODE_POSITION {
      SlewBounds(w, dt);
    }
  }

  // ---- runs ------------------------------------------------------------------------------

  /** The largest velocity limit among the POSITION commands of a run. */
  function LargestLimit(inputs: seq<Input>): int {
    if inputs == [] then 0
    else
      var rest := LargestLimit(inputs[1..]);
      if inputs[0].Order? && inputs[0].c.mode == MODE_POSITION then Max(inputs[0].c.maxVelocity, rest) else rest
  }

  lemma NextKeepsValid(j: Joint, i: Input)
    requires Valid(j) && Decoded([i])
    ensures Valid(Next(j, i))
  {
    match i
    case Order(c) =>
      assert [i][0].Order?;
      CommandKeepsValid(j, c);
    case Tick(dt) => StepKeepsValid(j, dt);
  }

  /** Speed never exceeds bound, given that neither the present speed nor any limit in force does. */
  predicate SpeedWithin(j: Joint, bound: int) {
    Abs(j.velocity) <= bound && (j.mode == MODE_POSITION ==> j.maxVelocity <= bound)
  }

  lemma {:induction false} RunKeepsLimits(j: Joint, inputs: seq<Input>, bound: int)
    requires Valid(j) && Decoded(inputs) && SpeedWithin(j, bound) && LargestLimit(inputs) <= bound
    ensures Valid(Run(j, inputs))
    ensures SpeedWithin(Run(j, inputs), bound)
    decreases |inputs|
  {
    if inputs != [] {
      var i := inputs[0];
      assert Decoded([i]);
      NextKeepsValid(j, i);
      if i.Tick? {
        StepKeepsValid(j, i.dt);
      }
      RunKeepsLimits(Next(j, i), inputs[1..], bound);
    }
  }

  lemma InitialIsValid(cfg: Config)
    requires Sound(cfg)
    ensures Valid(Initial(cfg))
  {
    forall i: nat
      ensures !HasBit(0, i)
    {
      ZeroHasNoBit(i);
    }
  }

  /**
    From power-up, over every run of decoded commands and steps of any length: position and target
    stay inside the soft limits and the speed never exceeds the largest limit commanded.
   */
  lemma MotionLimits(cfg: Config, inputs: seq<Input>)
    requires Sound(cfg) && Decoded(inputs)
    ensures var k := Run(Initial(cfg), inputs);
      && Valid(k)
      && cfg.min <= k.position <= cfg.max
      && cfg.min <= k.target <= cfg.max
      && Abs(k.velocity) <= LargestLimit(inputs)
      && (PeerLost(k) ==> k.mode == MODE_DISABLED)
  {
    LargestLimitNonNegative(inputs);
    InitialIsValid(cfg);
    RunKeepsLimits(Initial(cfg), inputs, LargestLimit(inputs));
  }

  lemma {:induction false} LargestLimitNonNegative(inputs: seq<Input>)
    ensures LargestLimit(inputs) >= 0
  {
    if inputs != [] {
      LargestLimitNonNegative(inputs[1..]);
    }
  }

  // ---- mirror symmetry -------------------------------------------------------------------

  function MirrorConfig(cfg: Config): Config
    requires cfg.min > -TWO_31 && cfg.max > -TWO_31
  {
    cfg.(min := -cfg.max, max := -cfg.min)
  }

  function Mirror(j: Joint): Joint
    requires j.cfg.min > -TWO_31 && j.cfg.max > -TWO_31
  {
    j.(cfg := MirrorConfig(j.cfg), position := -j.position, velocity := -j.velocity, target := -j.target)
  }

  lemma BrakingIsMirrorSymmetric(j: Joint, dt: uint32)
    requires j.cfg.accel >= 1 && j.cfg.min <= j.cfg.max && j.cfg.min > -TWO_31
    ensures Braked(Mirror(j), dt) == Mirror(Braked(j, dt))
  {
    var dv := BrakeDelta(j.cfg, dt);
    DeltaBounds(j.cfg, dt);
    TravelSign(BrakedVelocity(j.velocity, dv), dt);
  }

  lemma ApproachIsMirrorSymmetric(j: Joint, dt: uint32)
    requires j.cfg.accel >= 1 && j.cfg.min <= j.cfg.max && j.cfg.min > -TWO_31
    requires j.maxVelocity > 0
    ensures Approached(Mirror(j), dt) == Mirror(Approached(j, dt))
  {
    assert Distance(Mirror(j)) == -Distance(j);
    assert WantedSpeed(Mirror(j)) == WantedSpeed(j) by {
      assert Abs(-Distance(j)) == Abs(Distance(j));
    }
    WantedSpeedBounds(j);
    assert SlewedVelocity(Mirror(j), dt) == -SlewedVelocity(j, dt);
    TravelSign(SlewedVelocity(j, dt), dt);
  }

  /** Left and right are alike: mirroring a joint and stepping it commute. */
  lemma StepIsMirrorSymmetric(j: Joint, dt: uint32)
    requires j.cfg.accel >= 1 && j.cfg.min <= j.cfg.max && j.cfg.min > -TWO_31
    requires j.mode == MODE_POSITION ==> j.maxVelocity > 0
    ensures Stepped(Mirror(j), dt) == Mirror(Stepped(j, dt))
  {
    var w := Watched(j, dt);
    assert Watched(Mirror(j), dt) == Mirror(w);
    if w.mode != MODE_POSITION {
      BrakingIsMirrorSymmetric(w, dt);
    } else {
      ApproachIsMirrorSymmetric(w, dt);
    }
  }
}
