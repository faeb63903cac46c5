/** A joint that is disabled, by command or by its watchdog, comes to rest within a known time and distance. */
module JointBraking {
  import opened Bits
  import opened CIntegers
  import opened Isqrt
  import opened JointLimits
  import opened JointModel
  import opened Messages

  /** n steps of dt milliseconds with no command in between. */
  function Steps(j: Joint, dt: uint32, n: nat): (k: Joint)
    requires j.cfg.accel >= 1
    ensures k.cfg == j.cfg
  {
    if n == 0 then j else Stepped(Steps(j, dt, n - 1), dt)
  }

  lemma {:induction false} StepsKeepValid(j: Joint, dt: uint32, n: nat)
    requires Valid(j)
    ensures Valid(Steps(j, dt, n))
  {
    if n > 0 {
      StepsKeepValid(j, dt, n - 1);
      StepKeepsValid(Steps(j, dt, n - 1), dt);
    }
  }

  lemma {:induction false} StepsAdd(j: Joint, dt: uint32, m: nat, n: nat)
    requires j.cfg.accel >= 1
    ensures Steps(Steps(j, dt, m), dt, n) == Steps(j, dt, m + n)
  {
    if n > 0 {
      StepsAdd(j, dt, m, n - 1);
    }
  }

  // ---- braking ---------------------------------------------------------------------------

  /** The speed left after n braking steps. */
  function SpeedLeft(speed: nat, dv: nat, n: nat): nat {
    if n * dv >= speed then 0 else speed - n * dv
  }

  lemma SpeedLeftStep(speed: nat, dv: nat, n: nat)
    requires n > 0
    ensures SpeedLeft(speed, dv, n) == SpeedLeft(SpeedLeft(speed, dv, n - 1), dv, 1)
  {
    assert n * dv == (n - 1) * dv + dv;
  }

  /** While disabled the speed falls by the same amount each step down to zero, and keeps its sign. */
  lemma {:induction false} BrakesLinearly(j: Joint, dt: uint32, n: nat)
    requires Valid(j) && j.mode != MODE_POSITION && dt > 0
    ensures var k := Steps(j, dt, n);
      && Valid(k) && k == j.(position := k.position, velocity := k.velocity)
      && BrakeDelta(j.cfg, dt) >= 0
      && Abs(k.velocity) == SpeedLeft(Abs(j.velocity), BrakeDelta(j.cfg, dt), n)
      && (j.velocity >= 0 ==> k.velocity >= 0) && (j.velocity <= 0 ==> k.velocity <= 0)
  {
    DeltaBounds(j.cfg, dt);
    if n > 0 {
      BrakesLinearly(j, dt, n - 1);
      SpeedLeftStep(Abs(j.velocity), BrakeDelta(j.cfg, dt), n);
      StepKeepsValid(Steps(j, dt, n - 1), dt);
    }
  }

  function CeilDiv(n: nat, d: nat): nat
    requires d > 0
  {
    (n + d - 1) / d
  }

  lemma CeilDivCovers(n: nat, d: nat)
    requires d > 0
    ensures CeilDiv(n, d) * d >= n
  {
    DivParts(n + d - 1, d);
  }

  /** A disabled joint is at rest after ceil(|v| / dv) steps, and then frozen where it stands. */
  lemma ComesToRest(j: Joint, dt: uint32, n: nat, m: nat)
    requires Valid(j) && j.mode != MODE_POSITION && dt > 0 && BrakeDelta(j.cfg, dt) >= 1
    requires m >= n >= CeilDiv(Abs(j.velocity), BrakeDelta(j.cfg, dt))
    ensures Steps(j, dt, n).velocity == 0
    ensures Steps(j, dt, m) == Steps(j, dt, n)
    decreases m
  {
    var dv := BrakeDelta(j.cfg, dt);
    BrakesLinearly(j, dt, n);
    CeilDivCovers(Abs(j.velocity), dv);
    MulMonotone(CeilDiv(Abs(j.velocity), dv), n, dv);
    if m > n {
      ComesToRest(j, dt, n, m - 1);
      assert Travel(0, dt) == 0;
    }
  }

  /** The braking decrement: acceleration times step size, in thousandths cut to a whole number. */
  lemma DeltaIs(cfg: Config, dt: uint32)
    requires cfg.accel >= 1
    ensures 1000 * BrakeDelta(cfg, dt) <= cfg.accel * dt < 1000 * BrakeDelta(cfg, dt) + 1000
  {
    MulMonotone(0, cfg.accel, dt);
    DivParts(cfg.accel * dt, 1000);
  }

  lemma DeltaPositive(cfg: Config, dt: uint32)
    requires cfg.accel >= 1
    ensures BrakeDelta(cfg, dt) >= 1 <==> cfg.accel * dt >= 1000
  {
    MulMonotone(0, cfg.accel, dt);
    DivParts(cfg.accel * dt, 1000);
  }

  /**
    The braking decrement is truncated and has no floor of 1, so a disabled joint that moves comes to
    rest exactly when acceleration and step size make it at least 1; otherwise it coasts for ever.
   */
  lemma StopsExactlyWhen(j: Joint, dt: uint32)
    requires Valid(j) && j.mode != MODE_POSITION && dt > 0 && j.velocity != 0
    ensures (exists n: nat :: Steps(j, dt, n).velocity == 0) <==> j.cfg.accel * dt >= 1000
  {
    DeltaPositive(j.cfg, dt);
    DeltaBounds(j.cfg, dt);
    var dv := BrakeDelta(j.cfg, dt);
    if dv >= 1 {
      var n := CeilDiv(Abs(j.velocity), dv);
      ComesToRest(j, dt, n, n);
      assert Steps(j, dt, n).velocity == 0;
    } else {
      forall n: nat
        ensures Steps(j, dt, n).velocity != 0
      {
        BrakesLinearly(j, dt, n);
        assert n * dv == 0;
      }
    }
  }

  /** Steps of any sizes with no command in between, and the time they take together. */
  function StepsBy(j: Joint, dts: seq<uint32>): (k: Joint)
    requires j.cfg.accel >= 1
    ensures k.cfg == j.cfg
    decreases |dts|
  {
    if dts == [] then j else StepsBy(Stepped(j, dts[0]), dts[1..])
  }

  function Total(dts: seq<uint32>): nat {
    if dts == [] then 0 else dts[0] + Total(dts[1..])
  }

  /** What the steps take off the speed of a disabled joint, together. */
  function TotalDelta(cfg: Config, dts: seq<uint32>): int {
    if dts == [] then 0 else BrakeDelta(cfg, dts[0]) + TotalDelta(cfg, dts[1..])
  }

  /**
    Over steps of any sizes the speed of a disabled joint falls by the sum of their decrements, down to
    zero: so it is at rest exactly when that sum has reached the speed it had, and it never turns back.
   */
  lemma {:induction false} SpeedLeftOverAnySteps(j: Joint, dts: seq<uint32>)
    requires Valid(j) && j.mode != MODE_POSITION
    ensures var k, total := StepsBy(j, dts), TotalDelta(j.cfg, dts);
      && Valid(k) && k == j.(position := k.position, velocity := k.velocity)
      && total >= 0
      && Abs(k.velocity) == Max(0, Abs(j.velocity) - total)
      && (k.velocity == 0 <==> total >= Abs(j.velocity))
      && (j.velocity >= 0 ==> k.velocity >= 0) && (j.velocity <= 0 ==> k.velocity <= 0)
    decreases |dts|
  {
    if dts != [] {
      hide Stepped, BrakeDelta, Valid;
      BrakeOnce(j, dts[0]);
      SpeedLeftOverAnySteps(Stepped(j, dts[0]), dts[1..]);
    }
  }

  lemma BrakeOnce(j: Joint, dt: uint32)
    requires Valid(j) && j.mode != MODE_POSITION
    ensures var k, dv := Stepped(j, dt), BrakeDelta(j.cfg, dt);
      && Valid(k) && k == j.(position := k.position, velocity := k.velocity)
      && dv >= 0 && Abs(k.velocity) == Max(0, Abs(j.velocity) - dv)
      && (j.velocity >= 0 ==> k.velocity >= 0) && (j.velocity <= 0 ==> k.velocity <= 0)
  {
    hide OwnFlagsOnly, PeerLost, Travel;
    StepKeepsValid(j, dt);
    if dt > 0 {
      DeltaBounds(j.cfg, dt);
    }
  }

  /** The way to a disabled, moving joint that this configuration never stops: a command, a step, a command. */
  function SlowStart(): seq<Input> {
    [Order(Command(MODE_POSITION, 1000, 1000, 1)), Tick(1), Order(Command(MODE_DISABLED, 0, 0, 2))]
  }

  lemma CoastingIsReachable(cfg: Config, n: nat)
    requires cfg == Config(-1000, 1000, 1, 0)
    ensures Sound(cfg) && Decoded(SlowStart())
    ensures var j := Run(Initial(cfg), SlowStart());
      && Valid(j) && j.mode == MODE_DISABLED
      && Steps(j, 1, n).velocity != 0
  {
    var inputs := SlowStart();
    MotionLimits(cfg, inputs);
    SlowStartMoves(cfg);
    var j := Run(Initial(cfg), inputs);
    StopsExactlyWhen(j, 1);
    assert Steps(j, 1, n).velocity == 0 ==> exists m: nat :: Steps(j, 1, m).velocity == 0;
  }

  lemma SlowStartMoves(cfg: Config)
    requires cfg == Config(-1000, 1000, 1, 0)
    ensures var j := Run(Initial(cfg), SlowStart());
      j.mode == MODE_DISABLED && j.velocity == 1 && j.cfg == cfg
  {
    hide Run, Stepped, And, Or;
    var a := Commanded(Initial(cfg), Command(MODE_POSITION, 1000, 1000, 1));
    SlowStep(a);
    RunThree(Initial(cfg), SlowStart());
  }

  lemma SlowStep(j: Joint)
    requires j.cfg.accel == 1 && j.cfg.timeout == 0 && j.mode == MODE_POSITION
    requires j.velocity == 0 && Distance(j) >= 2 && j.maxVelocity > 0
    ensures Stepped(j, 1).velocity == 1 && Stepped(j, 1).cfg == j.cfg
  {
    hide Root, WantedSpeed, TruncDiv;
    WantedSpeedBounds(j);
    TruncDivBounds(1, 1000);
    assert BrakeDelta(j.cfg, 1) == TruncDiv(1, 1000) == 0;
    assert SlewedVelocity(j, 1) == 1;
    assert Travel(1, 1) == TruncDiv(1, 1000);
  }

  lemma RunThree(j: Joint, inputs: seq<Input>)
    requires j.cfg.accel >= 1 && |inputs| == 3
    ensures Run(j, inputs) == Next(Next(Next(j, inputs[0]), inputs[1]), inputs[2])
  {
    hide Next;
    var k := Next(Next(j, inputs[0]), inputs[1]);
    assert inputs[1..][0] == inputs[1] && inputs[1..][1..] == [inputs[2]];
    RunOne(k, inputs[2]);
    assert Run(Next(j, inputs[0]), inputs[1..]) == Run(k, [inputs[2]]);
  }

  // ---- the way of a braking joint --------------------------------------------------------

  /**
    A braking step goes on in the direction of the velocity it leaves, as far as that velocity takes it
    in dt thousandths, cut to a whole number; only a soft limit stops it short. So does the step in
    which the watchdog fires.
   */
  lemma BrakingMoves(j: Joint, dt: uint32)
    requires Valid(j) && dt > 0 && Stepped(j, dt).mode != MODE_POSITION
    ensures var k, moved := Stepped(j, dt), Stepped(j, dt).position - j.position;
      && (k.velocity >= 0 ==> 0 <= 1000 * moved <= k.velocity * dt)
      && (k.velocity <= 0 ==> k.velocity * dt <= 1000 * moved <= 0)
      && (k.velocity >= 0 && k.position < j.cfg.max ==> 1000 * moved > k.velocity * dt - 1000)
      && (k.velocity <= 0 && k.position > j.cfg.min ==> 1000 * moved < k.velocity * dt + 1000)
  {
    hide OwnFlagsOnly, PeerLost, BrakeDelta, BrakedVelocity, Approached, Raise, Travel;
    var v := Stepped(j, dt).velocity;
    ApproachMovesOnly(Watched(j, dt), dt);
    TravelSign(v, dt);
    TravelIsWhole(v, dt);
  }

  lemma TravelIsWhole(v: int, dt: uint32)
    ensures v >= 0 ==> 1000 * Travel(v, dt) > v * dt - 1000
    ensures v <= 0 ==> 1000 * Travel(v, dt) < v * dt + 1000
  {
    assert v >= 0 ==> v * dt >= 0;
    assert v <= 0 ==> v * dt <= 0;
    TruncDivBounds(v * dt, 1000);
  }

  /** The way, in thousandths, of a speed that the steps brake one by one. */
  function Drift(v: int, cfg: Config, dts: seq<uint32>): int
    decreases |dts|
  {
    if dts == [] then 0
    else
      var u := BrakedVelocity(v, BrakeDelta(cfg, dts[0]));
      u * dts[0] + Drift(u, cfg, dts[1..])
  }

  /** A way from one position to another against a drift, over n steps inside limits lo and hi. */
  predicate Drifts(start: int, end: int, v: int, drift: int, n: nat, lo: int, hi: int) {
    var way := 1000 * (end - start);
    && (v >= 0 ==> 0 <= way <= drift && (end < hi ==> way >= drift - 999 * n))
    && (v <= 0 ==> drift <= way <= 0 && (end > lo ==> way <= drift + 999 * n))
  }

  lemma DriftsAdd(start: int, middle: int, end: int, v: int, u: int, first: int, rest: int, n: nat, lo: int, hi: int)
    requires (v >= 0 ==> u >= 0) && (v <= 0 ==> u <= 0)
    requires Drifts(start, middle, u, first, 1, lo, hi) && Drifts(middle, end, u, rest, n, lo, hi)
    ensures Drifts(start, end, v, first + rest, n + 1, lo, hi)
  {
  }

  /**
    Over steps of any sizes a disabled joint only ever moves on in its direction: its way is that of its
    falling speed, less at most a unit for each step, or it has come to the soft limit ahead.
   */
  lemma {:induction false} BrakingMovesOverAnySteps(j: Joint, dts: seq<uint32>)
    requires Valid(j) && j.mode != MODE_POSITION
    ensures var k, drift := StepsBy(j, dts), Drift(j.velocity, j.cfg, dts);
      var way := 1000 * (k.position - j.position);
      && (j.velocity >= 0 ==> 0 <= way <= drift && (k.position < j.cfg.max ==> way >= drift - 999 * |dts|))
      && (j.velocity <= 0 ==> drift <= way <= 0 && (k.position > j.cfg.min ==> way <= drift + 999 * |dts|))
    decreases |dts|
  {
    if dts != [] {
      hide Stepped, BrakeDelta, BrakedVelocity, Valid, StepsBy;
      var k, u := Stepped(j, dts[0]), BrakedVelocity(j.velocity, BrakeDelta(j.cfg, dts[0]));
      BrakeOnce(j, dts[0]);
      BrakeDrifts(j, dts[0]);
      StepsByFront(j, dts);
      BrakingMovesOverAnySteps(k, dts[1..]);
      DriftsAdd(j.position, k.position, StepsBy(j, dts).position, j.velocity, u, u * dts[0],
                Drift(u, j.cfg, dts[1..]), |dts| - 1, j.cfg.min, j.cfg.max);
    }
  }

  lemma BrakeDrifts(j: Joint, dt: uint32)
    requires Valid(j) && j.mode != MODE_POSITION
    ensures var k, u := Stepped(j, dt), BrakedVelocity(j.velocity, BrakeDelta(j.cfg, dt));
      && k.velocity == u && k.cfg == j.cfg && k.mode == j.mode
      && Drifts(j.position, k.position, u, u * dt, 1, j.cfg.min, j.cfg.max)
  {
    BrakesTo(j, dt);
    hide Stepped, BrakeDelta, BrakedVelocity;
    if dt == 0 {
      NoTimeNoStep(j);
    } else {
      BrakingMoves(j, dt);
    }
  }

  lemma StepsByFront(j: Joint, dts: seq<uint32>)
    requires j.cfg.accel >= 1 && dts != []
    ensures Stepped(j, dts[0]).cfg == j.cfg && StepsBy(j, dts) == StepsBy(Stepped(j, dts[0]), dts[1..])
  {
  }

  lemma BrakesTo(j: Joint, dt: uint32)
    requires Valid(j) && j.mode != MODE_POSITION
    ensures Stepped(j, dt).velocity == BrakedVelocity(j.velocity, BrakeDelta(j.cfg, dt))
    ensures Stepped(j, dt).mode == j.mode && Stepped(j, dt).cfg == j.cfg
  {
    hide OwnFlagsOnly, PeerLost, Travel;
    if dt == 0 {
      assert BrakeDelta(j.cfg, dt) == 0;
    }
  }

  lemma NoTimeNoStep(j: Joint)
    requires j.cfg.accel >= 1
    ensures Stepped(j, 0) == j
  {
  }

  // ---- stopping distance -----------------------------------------------------------------

  /** The way covered in n steps, forth and back counted alike. */
  function Travelled(j: Joint, dt: uint32, n: nat): nat
    requires j.cfg.accel >= 1
  {
    if n == 0 then 0
    else Travelled(j, dt, n - 1) + Abs(Steps(j, dt, n).position - Steps(j, dt, n - 1).position)
  }

  /** One braking step: the way covered is paid for by the loss of speed. */
  lemma BrakingPays(v: int, dv: int, dt: uint32)
    requires dv >= 0
    ensures var u := BrakedVelocity(v, dv);
      2000 * dv * Abs(Travel(u, dt)) + dt * (u * u) <= dt * (v * v)
  {
    var u := BrakedVelocity(v, dv);
    var p, t := Abs(u), Abs(Travel(u, dt));
    TravelSign(u, dt);
    assert 1000 * t <= p * dt by {
      assert u < 0 ==> p * dt == -(u * dt);
    }
    assert u * u == p * p && v * v == Abs(v) * Abs(v);
    if u == 0 {
      assert t == 0 && v * v >= 0;
      MulMonotone(0, v * v, dt);
    } else {
      var q := Abs(v);
      assert q == p + dv;
      SquareOfSum(p, dv);
      BrakingPaysScaled(p, dv, dt, t);
    }
  }

  lemma SquareOfSum(p: int, d: int)
    ensures (p + d) * (p + d) == p * p + 2 * (p * d) + d * d
  {
  }

  lemma BrakingPaysScaled(p: nat, dv: nat, dt: nat, t: nat)
    requires 1000 * t <= p * dt
    ensures 2000 * dv * t + dt * (p * p) <= dt * (p * p + 2 * (p * dv) + dv * dv)
  {
    MulMonotone(1000 * t, p * dt, 2 * dv);
    assert 1000 * t * (2 * dv) == 2000 * dv * t;
    assert p * dt * (2 * dv) == dt * (2 * (p * dv));
    assert dt * (p * p + 2 * (p * dv) + dv * dv) == dt * (p * p) + dt * (2 * (p * dv)) + dt * (dv * dv);
    assert dt * (dv * dv) >= 0;
  }

  lemma BrakingStepPays(j: Joint, dt: uint32)
    requires Valid(j) && j.mode != MODE_POSITION && dt > 0
    ensures var k, dv := Stepped(j, dt), BrakeDelta(j.cfg, dt);
      dv >= 0 && 2000 * dv * Abs(k.position - j.position) + dt * (k.velocity * k.velocity)
                 <= dt * (j.velocity * j.velocity)
  {
    var k, dv := Stepped(j, dt), BrakeDelta(j.cfg, dt);
    DeltaBounds(j.cfg, dt);
    BrakingPays(j.velocity, dv, dt);
    PaymentShrinks(2000 * dv, Abs(k.position - j.position), Abs(Travel(k.velocity, dt)),
                   dt * (k.velocity * k.velocity), dt * (j.velocity * j.velocity));
  }

  lemma PaymentShrinks(d: int, moved: int, raw: int, after: int, before: int)
    requires 0 <= moved <= raw && d >= 0 && d * raw + after <= before
    ensures d * moved + after <= before
  {
    MulMonotone(moved, raw, d);
  }

  lemma PaymentsAdd(d: int, way: int, moved: int, before: int, after: int, start: int)
    requires d * way + before <= start && d * moved + after <= before
    ensures d * (way + moved) + after <= start
  {
    assert d * (way + moved) == d * way + d * moved;
  }

  /** Scaled distance so far plus scaled square of the speed never exceeds what it was at the start. */
  lemma {:induction false} BrakingEnergy(j: Joint, dt: uint32, n: nat)
    requires Valid(j) && j.mode != MODE_POSITION && dt > 0
    ensures var k := Steps(j, dt, n);
      && BrakeDelta(j.cfg, dt) >= 0
      && 2000 * BrakeDelta(j.cfg, dt) * Travelled(j, dt, n) + dt * (k.velocity * k.velocity)
         <= dt * (j.velocity * j.velocity)
  {
    hide Stepped, BrakeDelta;
    DeltaBounds(j.cfg, dt);
    if n > 0 {
      var a, k := Steps(j, dt, n - 1), Steps(j, dt, n);
      BrakingEnergy(j, dt, n - 1);
      BrakesLinearly(j, dt, n - 1);
      BrakingStepPays(a, dt);
      PaymentsAdd(2000 * BrakeDelta(j.cfg, dt), Travelled(j, dt, n - 1), Abs(k.position - a.position),
                  dt * (a.velocity * a.velocity), dt * (k.velocity * k.velocity), dt * (j.velocity * j.velocity));
    }
  }

  lemma QuotientBound(d: int, t: int, e: int)
    requires d > 0 && t >= 0 && d * t <= e
    ensures t <= e / d
  {
    MulMonotone(0, t, d);
    DivParts(e, d);
    var q := e / d;
    assert (t - q) * d == d * t - q * d;
    assert t - q >= 1 ==> (t - q) * d >= d;
  }

  /** The way from disabling to standstill is at most dt v^2 / (2000 dv). */
  lemma StoppingDistance(j: Joint, dt: uint32, n: nat)
    requires Valid(j) && j.mode != MODE_POSITION && dt > 0 && j.cfg.accel * dt >= 1000
    ensures BrakeDelta(j.cfg, dt) >= 1
    ensures Travelled(j, dt, n) <= dt * (j.velocity * j.velocity) / (2000 * BrakeDelta(j.cfg, dt))
  {
    DeltaPositive(j.cfg, dt);
    BrakingEnergy(j, dt, n);
    var v := Steps(j, dt, n).velocity;
    MulMonotone(0, Abs(v), Abs(v));
    MulMonotone(0, v * v, dt);
    QuotientBound(2000 * BrakeDelta(j.cfg, dt), Travelled(j, dt, n), dt * (j.velocity * j.velocity));
  }

  /** The way covered in steps of any sizes. */
  function TravelledBy(j: Joint, dts: seq<uint32>): nat
    requires j.cfg.accel >= 1
    decreases |dts|
  {
    if dts == [] then 0 else Abs(Stepped(j, dts[0]).position - j.position) + TravelledBy(Stepped(j, dts[0]), dts[1..])
  }

  /** Every step takes at least q / p off the speed for every millisecond of its size. */
  predicate BrakesAt(cfg: Config, dts: seq<uint32>, p: nat, q: nat) {
    forall i :: 0 <= i < |dts| ==> q * dts[i] <= p * BrakeDelta(cfg, dts[i])
  }

  /** Over steps of any sizes: the way so far, and what is left of the squared speed, cost no more than there was. */
  lemma {:induction false} BrakingEnergyOverAnySteps(j: Joint, dts: seq<uint32>, p: nat, q: nat)
    requires Valid(j) && j.mode != MODE_POSITION && BrakesAt(j.cfg, dts, p, q)
    ensures var v, u := j.velocity, StepsBy(j, dts).velocity;
      2000 * q * TravelledBy(j, dts) + p * (u * u) <= p * (v * v)
    decreases |dts|
  {
    if dts != [] {
      hide Stepped, BrakeDelta, Valid;
      var k, dt := Stepped(j, dts[0]), dts[0];
      BrakeOnce(j, dt);
      BrakingEnergyOverAnySteps(k, dts[1..], p, q);
      var moved, v, u := Abs(k.position - j.position), j.velocity, k.velocity;
      if dt == 0 {
        NoTimeNoStep(j);
      } else {
        BrakingStepPays(j, dt);
        PaymentScaled(q, dt, p, BrakeDelta(j.cfg, dt), moved, u * u, v * v);
      }
      PaymentsAdd(2000 * q, moved, TravelledBy(k, dts[1..]), p * (u * u),
                  p * (StepsBy(j, dts).velocity * StepsBy(j, dts).velocity), p * (v * v));
    }
  }

  lemma PaymentScaled(q: nat, dt: nat, p: nat, dv: nat, moved: nat, after: int, before: int)
    requires dt > 0 && q * dt <= p * dv && 2000 * dv * moved + dt * after <= dt * before
    ensures 2000 * q * moved + p * after <= p * before
  {
    MulMonotone(q * dt, p * dv, 2000 * moved);
    MulMonotone(2000 * dv * moved, dt * before - dt * after, p);
    assert p * dv * (2000 * moved) == 2000 * dv * moved * p;
    assert q * dt * (2000 * moved) == 2000 * q * moved * dt;
    assert (dt * before - dt * after) * p == (p * before - p * after) * dt;
    CancelFactor(2000 * q * moved, p * before - p * after, dt);
  }

  lemma CancelFactor(a: int, b: int, c: int)
    requires c > 0 && a * c <= b * c
    ensures a <= b
  {
    if a > b {
      MulMonotone(b + 1, a, c);
    }
  }

  /** So the way from disabling to standstill is at most p v v / (2000 q), whatever the mix of step sizes. */
  lemma StoppingDistanceOverAnySteps(j: Joint, dts: seq<uint32>, p: nat, q: nat)
    requires Valid(j) && j.mode != MODE_POSITION && BrakesAt(j.cfg, dts, p, q) && q >= 1
    ensures TravelledBy(j, dts) <= p * (j.velocity * j.velocity) / (2000 * q)
  {
    hide Stepped, BrakeDelta, BrakesAt, TravelledBy, StepsBy;
    BrakingEnergyOverAnySteps(j, dts, p, q);
    var u := StepsBy(j, dts).velocity;
    SquareIsPositive(u);
    MulMonotone(0, u * u, p);
    QuotientBound(2000 * q, TravelledBy(j, dts), p * (j.velocity * j.velocity));
  }

  lemma SquareIsPositive(u: int)
    ensures u * u >= 0
  {
  }

  // ---- watchdog --------------------------------------------------------------------------

  /** In POSITION mode, with a watchdog that has not fired. */
  ghost predicate Armed(j: Joint) {
    Valid(j) && Watching(j)
  }

  lemma StepWithinTimeout(j: Joint, dt: uint32)
    requires Valid(j) && j.mode == MODE_POSITION && dt > 0 && j.sinceCommand + dt <= j.cfg.timeout
    ensures var k := Stepped(j, dt);
      k == j.(sinceCommand := j.sinceCommand + dt, position := k.position, velocity := k.velocity)
  {
    hide Approached;
    assert Watched(j, dt) == j.(sinceCommand := j.sinceCommand + dt);
    assert Stepped(j, dt) == Approached(Watched(j, dt), dt);
    ApproachMovesOnly(Watched(j, dt), dt);
  }

  lemma ApproachMovesOnly(j: Joint, dt: uint32)
    requires j.cfg.accel >= 1
    ensures var k := Approached(j, dt);
      k == j.(position := k.position, velocity := k.velocity)
  {
  }

  /** Up to the timeout the joint stays in POSITION mode and the age of the command is exact. */
  lemma {:induction false} HeldUntilTimeout(j: Joint, dt: uint32, n: nat)
    requires Armed(j) && dt > 0 && j.sinceCommand + n * dt <= j.cfg.timeout
    ensures var k := Steps(j, dt, n);
      Armed(k) && k.sinceCommand == j.sinceCommand + n * dt && k.timeouts == j.timeouts && !PeerLost(k)
  {
    if n > 0 {
      assert (n - 1) * dt == n * dt - dt;
      HeldUntilTimeout(j, dt, n - 1);
      StepsKeepValid(j, dt, n);
      StepWithinTimeout(Steps(j, dt, n - 1), dt);
    }
  }

  /** The first step whose accumulated time exceeds what is left of the timeout. */
  function ExpiryStep(left: uint32, dt: uint32): (n: nat)
    requires dt > 0
    ensures n > 0 && (n - 1) * dt <= left < n * dt
  {
    DivParts(left, dt);
    var q := left / dt;
    assert (q + 1) * dt == q * dt + dt;
    q + 1
  }

  function TimeLeft(j: Joint): uint32
    requires Armed(j)
  {
    j.cfg.timeout - j.sinceCommand
  }

  /**
    The watchdog fires at the first step beyond the timeout exactly when the 32-bit age of the command
    has not wrapped by then. It disables the joint, raises PEER_LOST, counts one timeout and that very
    step already brakes. When the age does wrap the joint just stays in POSITION mode.
   */
  lemma WatchdogFiresExactlyWhen(j: Joint, dt: uint32)
    requires Armed(j) && dt > 0
    ensures var n := ExpiryStep(TimeLeft(j), dt);
      Expired(Steps(j, dt, n - 1), Steps(j, dt, n), dt, j.sinceCommand + n * dt, j.timeouts)
  {
    hide Stepped, BrakeDelta, BrakedVelocity, PeerLost, ToUint32, ExpiryStep, Expired;
    var n := ExpiryStep(TimeLeft(j), dt);
    FiresAt(j, dt, n, j.sinceCommand + n * dt);
  }

  /** What the first step past the timeout does, by the true age of the command. */
  predicate Expired(before: Joint, after: Joint, dt: uint32, age: int, timeouts: uint32)
    requires before.cfg.accel >= 1
  {
    && (after.mode == MODE_DISABLED <==> age < TWO_32)
    && LimitReached(after) == LimitReached(before) && after.lastSeq == before.lastSeq
    && (age < TWO_32 ==>
          && PeerLost(after) && after.timeouts == ToUint32(timeouts + 1)
          && after.velocity == BrakedVelocity(before.velocity, BrakeDelta(before.cfg, dt)))
    && (age >= TWO_32 ==>
          after.mode == MODE_POSITION && after.sinceCommand == age - TWO_32 && after.timeouts == timeouts)
  }

  lemma FiresAt(j: Joint, dt: uint32, n: nat, age: int)
    requires Armed(j) && dt > 0
    requires n > 0 && j.sinceCommand + n * dt == age && age - dt <= j.cfg.timeout < age
    ensures Expired(Steps(j, dt, n - 1), Steps(j, dt, n), dt, age, j.timeouts)
  {
    hide Stepped, Expired;
    assert (n - 1) * dt == n * dt - dt;
    HeldUntilTimeout(j, dt, n - 1);
    assert Steps(j, dt, n) == Stepped(Steps(j, dt, n - 1), dt);
    StepAtExpiry(Steps(j, dt, n - 1), dt, age);
  }

  /** The step that brings the true age of the command to age, just beyond the timeout. */
  lemma StepAtExpiry(j: Joint, dt: uint32, age: int)
    requires Armed(j) && dt > 0 && j.sinceCommand == age - dt && j.cfg.timeout < age
    ensures Expired(j, Stepped(j, dt), dt, age, j.timeouts)
  {
    WatchAtExpiry(j, dt, age);
    if age < TWO_32 {
      assert Stepped(j, dt) == Braked(Watched(j, dt), dt);
    } else {
      assert Stepped(j, dt) == Approached(Watched(j, dt), dt);
    }
  }

  /**
    Over steps of any sizes the joint stays in POSITION mode exactly as long as the time since the
    command is at most the timeout: up to there the age is the exact sum, and the first step beyond
    fires the watchdog, except where that step takes the age past 2^32.
   */
  lemma {:induction false} WatchdogOverAnySteps(j: Joint, dts: seq<uint32>, dt: uint32)
    requires Armed(j) && dt > 0 && forall i :: 0 <= i < |dts| ==> dts[i] > 0
    requires j.sinceCommand + Total(dts) <= j.cfg.timeout
    ensures var k, age := StepsBy(j, dts), j.sinceCommand + Total(dts);
      && Armed(k) && k.sinceCommand == age && k.timeouts == j.timeouts && !PeerLost(k)
      && (age + dt <= k.cfg.timeout ==> Stepped(k, dt).mode == MODE_POSITION)
      && (age + dt > k.cfg.timeout ==> Expired(k, Stepped(k, dt), dt, age + dt, j.timeouts))
    decreases |dts|
  {
    hide Stepped, Expired;
    if dts == [] {
      if j.sinceCommand + dt <= j.cfg.timeout {
        StepWithinTimeout(j, dt);
      } else {
        StepAtExpiry(j, dt, j.sinceCommand + dt);
      }
    } else {
      StepWithinTimeout(j, dts[0]);
      StepKeepsValid(j, dts[0]);
      WatchdogOverAnySteps(Stepped(j, dts[0]), dts[1..], dt);
    }
  }

  /**
    A joint with the longest timeout, commanded once and then stepped twice by 2^31 ms: true age 2^32,
    beyond the timeout, and still in POSITION mode.
   */
  lemma MissedTimeoutIsReachable(cfg: Config, inputs: seq<Input>)
    requires cfg == Config(-1000, 1000, 1, 0xFFFF_FFFF)
    requires inputs == [Order(Command(MODE_POSITION, 1000, 1000, 1)), Tick(0x8000_0000), Tick(0x8000_0000)]
    ensures Sound(cfg) && Decoded(inputs)
    ensures var j := Run(Initial(cfg), inputs);
      Valid(j) && j.mode == MODE_POSITION && j.sinceCommand == 0 && j.timeouts == 0
  {
    hide Stepped, Expired, And, Or;
    MotionLimits(cfg, inputs);
    InitialIsValid(cfg);
    var c := inputs[0].c;
    var a := Commanded(Initial(cfg), c);
    CommandKeepsValid(Initial(cfg), c);
    StepWithinTimeout(a, 0x8000_0000);
    StepKeepsValid(a, 0x8000_0000);
    var b := Stepped(a, 0x8000_0000);
    StepAtExpiry(b, 0x8000_0000, TWO_32);
    RunThree(Initial(cfg), inputs);
    assert Expired(b, Stepped(b, 0x8000_0000), 0x8000_0000, TWO_32, 0);
    MissedBy(b, Stepped(b, 0x8000_0000));
  }

  lemma MissedBy(b: Joint, k: Joint)
    requires b.cfg.accel >= 1 && Expired(b, k, 0x8000_0000, TWO_32, 0)
    ensures k.mode == MODE_POSITION && k.sinceCommand == 0 && k.timeouts == 0
  {
  }

  lemma WatchAtExpiry(j: Joint, dt: uint32, age: int)
    requires Armed(j) && dt > 0 && j.sinceCommand == age - dt && j.cfg.timeout < age
    ensures var w := Watched(j, dt);
      && w == j.(mode := w.mode, sinceCommand := w.sinceCommand, errorFlags := w.errorFlags, timeouts := w.timeouts)
      && w.mode == (if age < TWO_32 then MODE_DISABLED else MODE_POSITION)
      && LimitReached(w) == LimitReached(j)
      && (age < TWO_32 ==> PeerLost(w) && w.timeouts == ToUint32(j.timeouts + 1))
      && (age >= TWO_32 ==> w.sinceCommand == age - TWO_32 && w.timeouts == j.timeouts)
  {
    hide HasBit;
    assert CommandAge(j, dt) == if age < TWO_32 then age else age - TWO_32;
    WatchKeepsValid(j, dt);
    JointFlagBits(j.errorFlags);
  }

  /** Steps until any joint is sure to be at rest when no command comes any more. */
  function StepsToRest(j: Joint, dt: uint32): nat
    requires dt > 0 && j.cfg.accel >= 1 && BrakeDelta(j.cfg, dt) >= 1
  {
    ExpiryStep(j.cfg.timeout, dt) + CeilDiv(Max(Abs(j.velocity), Max(0, j.maxVelocity)), BrakeDelta(j.cfg, dt))
  }

  /**
    A joint that loses its controller stops: whatever it was doing, once no command comes any more it
    is disabled and at rest after the timeout plus the braking time, and never moves again; if it was
    in POSITION mode it is flagged as PEER_LOST.
   */
  lemma LosingTheControllerStopsTheJoint(j: Joint, dt: uint32, n: nat, m: nat)
    requires Valid(j) && j.cfg.timeout != 0 && dt > 0
    requires j.cfg.accel * dt >= 1000 && j.cfg.timeout + dt < TWO_32
    ensures BrakeDelta(j.cfg, dt) >= 1
    ensures m >= n >= StepsToRest(j, dt) ==>
      var k := Steps(j, dt, n);
      && k.mode == MODE_DISABLED && k.velocity == 0
      && (j.mode == MODE_POSITION ==> PeerLost(k) && k.timeouts == ToUint32(j.timeouts + 1))
      && Steps(j, dt, m) == k
  {
    DeltaPositive(j.cfg, dt);
    if m >= n >= StepsToRest(j, dt) {
      if j.mode == MODE_POSITION {
        hide Stepped, Steps, BrakeDelta, ExpiryStep, CeilDiv, PeerLost, ToUint32;
        var x := ExpiryStep(TimeLeft(j), dt);
        WatchdogDisables(j, dt, x);
        ExpirySooner(TimeLeft(j), j.cfg.timeout, dt);
        RestsAfter(j, dt, x, n, m);
      } else {
        StepsAdd(j, dt, 0, n);
        RestsAfter(j, dt, 0, n, m);
      }
    }
  }

  lemma ExpirySooner(left: uint32, timeout: uint32, dt: uint32)
    requires left <= timeout && dt > 0
    ensures ExpiryStep(left, dt) <= ExpiryStep(timeout, dt)
  {
    TruncDivMonotone(left, timeout, dt);
  }

  lemma WatchdogDisables(j: Joint, dt: uint32, x: nat)
    requires Armed(j) && dt > 0 && j.cfg.timeout + dt < TWO_32 && x == ExpiryStep(TimeLeft(j), dt)
    ensures var fired := Steps(j, dt, x);
      fired.mode == MODE_DISABLED && PeerLost(fired) && fired.timeouts == ToUint32(j.timeouts + 1)
  {
    hide Stepped, Steps, BrakeDelta, ExpiryStep, PeerLost, ToUint32;
    WatchdogFiresExactlyWhen(j, dt);
    assert x * dt == (x - 1) * dt + dt;
  }

  /** From the step x on at which the joint is disabled, it brakes to rest and stays there. */
  lemma RestsAfter(j: Joint, dt: uint32, x: nat, n: nat, m: nat)
    requires Valid(j) && dt > 0 && BrakeDelta(j.cfg, dt) >= 1 && Steps(j, dt, x).mode != MODE_POSITION
    requires m >= n >= x + CeilDiv(Max(Abs(j.velocity), Max(0, j.maxVelocity)), BrakeDelta(j.cfg, dt))
    ensures var fired, k := Steps(j, dt, x), Steps(j, dt, n);
      && k == fired.(position := k.position, velocity := 0)
      && PeerLost(k) == PeerLost(fired)
      && Steps(j, dt, m) == k
  {
    hide Stepped, Steps, BrakeDelta, CeilDiv, PeerLost;
    var dv, fired := BrakeDelta(j.cfg, dt), Steps(j, dt, x);
    StepsKeepValid(j, dt, x);
    SpeedBefore(j, dt, x);
    CeilDivMonotone(Abs(fired.velocity), Max(Abs(j.velocity), Max(0, j.maxVelocity)), dv);
    ComesToRest(fired, dt, n - x, m - x);
    BrakesLinearly(fired, dt, n - x);
    FlagsDecidePeerLost(Steps(fired, dt, n - x), fired);
    StepsAdd(j, dt, x, n - x);
    StepsAdd(j, dt, x, m - x);
  }

  lemma FlagsDecidePeerLost(j: Joint, k: Joint)
    requires j.errorFlags == k.errorFlags
    ensures PeerLost(j) == PeerLost(k)
  {
  }

  lemma CeilDivMonotone(a: nat, b: nat, d: nat)
    requires a <= b && d > 0
    ensures CeilDiv(a, d) <= CeilDiv(b, d)
  {
    TruncDivMonotone(a + d - 1, b + d - 1, d);
  }

  lemma {:induction false} SpeedBefore(j: Joint, dt: uint32, n: nat)
    requires Valid(j)
    ensures Abs(Steps(j, dt, n).velocity) <= Max(Abs(j.velocity), Max(0, j.maxVelocity))
    ensures Steps(j, dt, n).maxVelocity == j.maxVelocity
  {
    if n > 0 {
      SpeedBefore(j, dt, n - 1);
      StepsKeepValid(j, dt, n - 1);
      StepKeepsValid(Steps(j, dt, n - 1), dt);
    }
  }
}
