/** How fast a joint can still be when it lands on its target, and so how much speed the landing discards. */
module JointArrival {
  import opened AppConfig
  import opened CIntegers
  import opened Isqrt
  import opened JointConvergence
  import opened JointLimits
  import opened JointModel
  import opened Messages

  /**
    How a joint is paced, with a bound on the speed limits in force. Fixed: one step size dt, whose slew
    limit d is exact. Mixed: any step sizes, each of which brakes at accel or, where truncation makes it
    less, at floor at least, and changes the speed by at most d.
   */
  datatype Pace =
    | Fixed(accel: int, dt: int, d: int, limit: int)
    | Mixed(accel: int, floor: int, d: int, limit: int)
  {
    /** A step size and its slew limit that go with this pace. */
    predicate AdmitsStep(step: int, slew: int) {
      && accel >= 1 && limit >= 1 && step >= 1 && 1 <= slew <= d
      && (Fixed? ==> step == dt && slew == d && accel * dt == 1000 * d)
      && (Mixed? ==> 0 <= floor <= accel && floor * step <= 1000 * slew)
    }

    /** What the squared speed may exceed the braking parabola by, scaled by accel where step sizes vary. */
    function Slack(): int {
      if Fixed? then Max(d * limit, 1000000)
      else Max(accel * (2 * (d * limit)) + (accel - floor) * (limit * limit), accel * 1000000)
    }

    /** Speed v at distance e from the target is not too fast to land softly. */
    predicate Soft(v: int, e: int) {
      if Fixed? then v * v - d * v - 2 * (accel * e) <= Slack()
      else accel * (v * v - 2 * (floor * e)) <= Slack()
    }
  }

  // ---- arithmetic of one step, seen from the left of the target ------------------------------

  /** Covering s at speed u: b s <= slew u, where b is what the step brakes at. */
  lemma WayCostsSpeed(b: int, step: int, slew: int, u: int, s: int)
    requires b >= 0 && b * step <= 1000 * slew && 0 <= u && 0 <= s && 1000 * s <= u * step
    ensures b * s <= slew * u
  {
    MulMonotone(1000 * s, u * step, b);
    MulMonotone(b * step, 1000 * slew, u);
    assert (u * step) * b == (b * step) * u;
    assert (1000 * s) * b == 1000 * (b * s) && (1000 * slew) * u == 1000 * (slew * u);
  }

  lemma SquareShift(v: int, d: int)
    ensures (v - d) * (v - d) == v * v - 2 * (d * v) + d * d
  {
  }

  /** While the speed follows the wanted speed: u * u <= 2 a e. */
  lemma SoftWhenFollowing(p: Pace, step: int, slew: int, e: int, u: int, s: int)
    requires p.AdmitsStep(step, slew) && 0 <= u <= p.limit && u * u <= 2 * (p.accel * e)
    requires 0 <= s && 1000 * s <= u * step
    ensures p.Soft(u, e - s)
  {
    MulMonotone(u, p.limit, p.d);
    if p.Fixed? {
      WayCostsSpeed(p.accel, step, slew, u, s);
      assert p.accel * (e - s) == p.accel * e - p.accel * s;
    } else {
      WayCostsSpeed(p.floor, step, slew, u, s);
      MulMonotone(slew, p.d, u);
      FollowsLoosely(p.accel, p.floor, p.limit, p.d * p.limit, e, u, s);
    }
  }

  /** Where the wanted speed assumes more braking than there is, by no more than the square of the limit. */
  lemma FollowsLoosely(accel: int, floor: int, limit: int, dl: int, e: int, u: int, s: int)
    requires 0 <= floor <= accel && 0 <= u <= limit && u * u <= 2 * (accel * e) && floor * s <= dl
    ensures accel * (u * u - 2 * (floor * (e - s))) <= accel * (2 * dl) + (accel - floor) * (limit * limit)
  {
    MulMonotone(u * u, 2 * (accel * e), floor);
    assert 2 * (accel * e) * floor == 2 * (accel * (floor * e));
    MulMonotone(u, limit, u);
    MulMonotone(u, limit, limit);
    MulMonotone(u * u, limit * limit, accel - floor);
    MulMonotone(floor * s, dl, 2 * accel);
    LooseSum(accel, floor, u * u, floor * e, floor * s);
    assert floor * (e - s) == floor * e - floor * s;
    assert dl * (2 * accel) == accel * (2 * dl);
  }

  lemma LooseSum(accel: int, floor: int, uu: int, fe: int, fs: int)
    ensures accel * (uu - 2 * (fe - fs)) == (accel - floor) * uu + (uu * floor - 2 * (accel * fe)) + fs * (2 * accel)
  {
  }

  /** While braking as hard as allowed: u == v - slew. */
  lemma SoftWhenBraking(p: Pace, step: int, slew: int, v: int, e: int, u: int, s: int)
    requires p.AdmitsStep(step, slew) && u == v - slew && 0 <= u && p.Soft(v, e)
    requires 0 <= s && 1000 * s <= u * step
    ensures p.Soft(u, e - s)
  {
    if p.Fixed? {
      WayCostsSpeed(p.accel, step, slew, u, s);
      BrakesFixed(p.accel, p.d, v, e, s, p.Slack());
    } else {
      WayCostsSpeed(p.floor, step, slew, u, s);
      BrakesMixed(p.floor, slew, v, e, s);
      MulMonotone(u * u - 2 * (p.floor * (e - s)), v * v - 2 * (p.floor * e), p.accel);
    }
  }

  lemma BrakesFixed(accel: int, d: int, v: int, e: int, s: int, slack: int)
    requires v * v - d * v - 2 * (accel * e) <= slack && accel * s <= d * (v - d)
    ensures (v - d) * (v - d) - d * (v - d) - 2 * (accel * (e - s)) <= slack
  {
    SquareShift(v, d);
    assert d * (v - d) == d * v - d * d;
    assert accel * (e - s) == accel * e - accel * s;
  }

  lemma BrakesMixed(floor: int, d: int, v: int, e: int, s: int)
    requires d >= 0 && floor * s <= d * (v - d)
    ensures (v - d) * (v - d) - 2 * (floor * (e - s)) <= v * v - 2 * (floor * e)
  {
    SquareShift(v, d);
    MulMonotone(0, d, d);
    assert d * (v - d) == d * v - d * d;
    assert floor * (e - s) == floor * e - floor * s;
  }

  /** A speed whose step truncates to zero is below 1000, whatever the distance. */
  lemma SoftWhenCrawling(p: Pace, step: int, slew: int, e: int, u: int)
    requires p.AdmitsStep(step, slew) && 0 <= u && e >= 0 && u * step < 1000
    ensures p.Soft(u, e)
  {
    CrawlIsSlow(step, u);
    if p.Fixed? {
      CrawlsFixed(p.accel, p.d, e, u);
    } else {
      CrawlsMixed(p.accel, p.floor, e, u);
    }
  }

  lemma CrawlsFixed(accel: int, d: int, e: int, u: int)
    requires accel >= 0 && d >= 0 && e >= 0 && 0 <= u && u * u <= 1000000
    ensures u * u - d * u - 2 * (accel * e) <= 1000000
  {
    MulMonotone(0, e, accel);
    MulMonotone(0, u, d);
  }

  lemma CrawlsMixed(accel: int, floor: int, e: int, u: int)
    requires accel >= 0 && floor >= 0 && e >= 0 && u * u <= 1000000
    ensures accel * (u * u - 2 * (floor * e)) <= accel * 1000000
  {
    MulMonotone(0, e, floor);
    MulMonotone(u * u - 2 * (floor * e), 1000000, accel);
  }

  lemma CrawlIsSlow(step: int, u: int)
    requires step >= 1 && 0 <= u && u * step < 1000
    ensures u * u <= 1000000
  {
    MulMonotone(1, step, u);
    MulMonotone(u, 1000, u);
    MulMonotone(u, 1000, 1000);
  }

  /** Nearer is harder. */
  lemma SoftFarther(p: Pace, step: int, slew: int, u: int, e: int, farther: int)
    requires p.AdmitsStep(step, slew) && e <= farther && p.Soft(u, e)
    ensures p.Soft(u, farther)
  {
    if p.Fixed? {
      MulMonotone(e, farther, p.accel);
    } else {
      MulMonotone(e, farther, p.floor);
      MulMonotone(u * u - 2 * (p.floor * farther), u * u - 2 * (p.floor * e), p.accel);
    }
  }

  /**
    One step: from a soft speed v at distance e, through the slewed speed u, by the stride taken. A
    landing discards a speed that is soft at distance zero.
   */
  lemma SoftStep(p: Pace, step: int, slew: int, v: int, e: int, want: int, u: int, raw: int, stride: int)
    requires p.AdmitsStep(step, slew) && 0 <= v <= p.limit && e >= 1 && p.Soft(v, e)
    requires 1 <= want <= p.limit && want * want <= 2 * (p.accel * e)
    requires u == Slew(v, want, slew) && raw == TruncDiv(u * step, 1000) && stride == Stride(e, raw)
    ensures 1 <= u <= p.limit && 1 <= stride <= e
    ensures p.Soft(u, e - stride)
  {
    hide Pace.Soft, Pace.AdmitsStep, TruncDiv;
    StepIsPositive(p, step, slew);
    MulMonotone(0, u, step);
    assert 0 * step == 0;
    TruncDivBounds(u * step, 1000);
    if raw == 0 {
      SoftWhenCrawling(p, step, slew, e - stride, u);
    } else {
      if u <= want {
        MulMonotone(u, want, u);
        MulMonotone(u, want, want);
        SoftWhenFollowing(p, step, slew, e, u, raw);
      } else {
        SoftWhenBraking(p, step, slew, v, e, u, raw);
      }
      SoftFarther(p, step, slew, u, e - raw, e - stride);
    }
  }

  lemma StepIsPositive(p: Pace, step: int, slew: int)
    requires p.AdmitsStep(step, slew)
    ensures step >= 1 && slew >= 1
  {
  }

  // ---- the joint -------------------------------------------------------------------------

  /** The pace of a joint that is only ever stepped by dt. */
  function PaceOf(cfg: Config, dt: uint32, limit: int): Pace {
    Fixed(cfg.accel, dt, SlewLimit(cfg, dt), limit)
  }

  predicate Admits(p: Pace, cfg: Config, dt: uint32) {
    p.accel == cfg.accel && p.AdmitsStep(dt, SlewLimit(cfg, dt))
  }

  /** On its way to the target, inside the speed limit and soft. */
  predicate OnCourse(j: Joint, p: Pace) {
    && !Astray(j) && j.mode == MODE_POSITION && j.maxVelocity <= p.limit
    && Abs(j.velocity) <= p.limit
    && p.Soft(Abs(j.velocity), Abs(Distance(j)))
  }

  /** The speed the step sets before it finds out that it lands, that is the speed a landing discards. */
  function LandingSpeed(j: Joint, dt: uint32): nat
    requires j.cfg.accel >= 1
  {
    Abs(SlewedVelocity(j, dt))
  }

  lemma WantIsReachable(j: Joint)
    requires j.cfg.accel >= 1 && j.maxVelocity > 0
    ensures WantedSpeed(j) * WantedSpeed(j) <= 2 * (j.cfg.accel * Abs(Distance(j)))
  {
    WantedSpeedBounds(j);
    var x := 2 * j.cfg.accel * Abs(Distance(j));
    assert x == 2 * (j.cfg.accel * Abs(Distance(j)));
    var w, r := WantedSpeed(j), Root(x);
    MulMonotone(w, r, w);
    MulMonotone(w, r, r);
  }

  lemma SoftAtRest(p: Pace, step: int, slew: int, e: int)
    requires p.AdmitsStep(step, slew) && e >= 0
    ensures p.Soft(0, e)
  {
    SoftWhenCrawling(p, step, slew, e, 0);
  }

  /** What a step does, seen from the left of the target: the sign of the distance factored out. */
  lemma ApproachByMagnitude(j: Joint, dt: uint32)
    requires Valid(j) && dt > 0 && Distance(j) != 0 && !Astray(j) && j.mode == MODE_POSITION
    ensures var v, e, u, k := Abs(j.velocity), Abs(Distance(j)), LandingSpeed(j, dt), Approached(j, dt);
      var stride := Stride(e, TruncDiv(u * dt, 1000));
      && u == Slew(v, WantedSpeed(j), SlewLimit(j.cfg, dt))
      && 1 <= stride <= e
      && Abs(Distance(k)) == e - stride && Abs(k.velocity) == (if stride == e then 0 else u)
      && !Astray(k) && k.mode == MODE_POSITION && k.maxVelocity == j.maxVelocity
  {
    hide Root, SlewLimit;
    WantedSpeedBounds(j);
    SlewLimitPositive(j.cfg, dt);
    var u, d := SlewedVelocity(j, dt), SlewLimit(j.cfg, dt);
    TravelSign(u, dt);
    if Distance(j) > 0 {
      assert u == Slew(Abs(j.velocity), WantedSpeed(j), d) && u >= 1;
      assert Travel(u, dt) == TruncDiv(u * dt, 1000);
    } else {
      assert -u == Slew(Abs(j.velocity), WantedSpeed(j), d) && u <= -1;
      assert Travel(-u, dt) == TruncDiv(-u * dt, 1000);
    }
  }

  lemma SlewLimitPositive(cfg: Config, dt: uint32)
    ensures SlewLimit(cfg, dt) >= 1
  {
  }

  /** A step stays on course, and a landing discards a speed that is soft at distance zero. */
  lemma ApproachIsSoft(j: Joint, dt: uint32, p: Pace)
    requires Valid(j) && dt > 0 && Admits(p, j.cfg, dt) && OnCourse(j, p)
    ensures OnCourse(Approached(j, dt), p)
    ensures !Arrived(j) && Arrived(Approached(j, dt)) ==> p.Soft(LandingSpeed(j, dt), 0)
  {
    hide Pace.Soft, Pace.AdmitsStep, Root, SlewLimit, Approached, SlewedVelocity, Travel, LandingSpeed, WantedSpeed;
    var step, slew := dt, SlewLimit(j.cfg, dt);
    if Distance(j) == 0 {
      StaysArrived(j, dt);
    } else {
      var v, e, u := Abs(j.velocity), Abs(Distance(j)), LandingSpeed(j, dt);
      var raw := TruncDiv(u * step, 1000);
      ApproachByMagnitude(j, dt);
      WantedSpeedBounds(j);
      WantIsReachable(j);
      SoftStep(p, step, slew, v, e, WantedSpeed(j), u, raw, Stride(e, raw));
      SoftAtRest(p, step, slew, 0);
    }
  }

  lemma StaysArrived(j: Joint, dt: uint32)
    requires Valid(j) && j.mode == MODE_POSITION && dt > 0 && Arrived(j)
    ensures Approached(j, dt) == j
  {
    ApproachOnTarget(j, dt);
  }

  /** Every step goes with the pace, and no speed limit exceeds its bound. */
  predicate Paced(inputs: seq<Input>, p: Pace, cfg: Config) {
    forall i :: 0 <= i < |inputs| ==>
      match inputs[i] case Order(c) => c.maxVelocity <= p.limit case Tick(dt) => Admits(p, cfg, dt)
  }

  lemma NextStaysOnCourse(j: Joint, i: Input, p: Pace)
    requires Valid(j) && OnCourse(j, p)
    requires Sustained(j, [i]) && Paced([i], p, j.cfg)
    ensures Valid(Next(j, i)) && OnCourse(Next(j, i), p)
  {
    assert [i][0] == i;
    match i {
      case Order(c) =>
        hide Pace.Soft;
        CommandKeepsValid(j, c);
      case Tick(dt) =>
        hide Approached, SlewLimit, Pace.Soft, Pace.AdmitsStep;
        StepKeepsValid(j, dt);
        WatchKeepsValid(j, dt);
        ApproachIsSoft(Watched(j, dt), dt, p);
    }
  }

  lemma {:induction false} RunStaysOnCourse(j: Joint, inputs: seq<Input>, p: Pace)
    requires Valid(j) && OnCourse(j, p)
    requires Sustained(j, inputs) && Paced(inputs, p, j.cfg)
    ensures Valid(Run(j, inputs)) && OnCourse(Run(j, inputs), p)
    decreases |inputs|
  {
    if inputs != [] {
      hide OnCourse, Next, Admits;
      var i, k := inputs[0], Next(j, inputs[0]);
      SustainedHead(j, inputs);
      NextStaysOnCourse(j, i, p);
      RunStaysOnCourse(k, inputs[1..], p);
    }
  }

  lemma SustainedHead(j: Joint, inputs: seq<Input>)
    requires j.cfg.accel >= 1 && inputs != [] && Sustained(j, inputs)
    ensures Sustained(j, [inputs[0]])
  {
    assert [inputs[0]][1..] == [];
  }

  /** At a given pace, from standstill. */
  lemma SoftAllTheWay(j: Joint, inputs: seq<Input>, p: Pace, dt: uint32)
    requires Valid(j) && j.mode == MODE_POSITION && j.velocity == 0 && 0 < j.maxVelocity <= p.limit
    requires Sustained(j, inputs) && Paced(inputs, p, j.cfg) && Admits(p, j.cfg, dt)
    ensures var k := Run(j, inputs);
      && Valid(k)
      && p.Soft(Abs(k.velocity), Abs(Distance(k)))
      && (!Arrived(k) && !Expires(k, dt) && Arrived(Stepped(k, dt)) ==> p.Soft(LandingSpeed(k, dt), 0))
  {
    hide Pace.Soft, Pace.AdmitsStep, Approached, SlewLimit, SlewedVelocity, Stepped;
    SoftAtRest(p, dt, SlewLimit(j.cfg, dt), Abs(Distance(j)));
    RunStaysOnCourse(j, inputs, p);
    var k := Run(j, inputs);
    StepIsPositive(p, dt, SlewLimit(j.cfg, dt));
    if !Arrived(k) && !Expires(k, dt) && Arrived(Stepped(k, dt)) {
      LandsSoftly(k, dt, p);
    }
  }

  lemma LandsSoftly(k: Joint, dt: uint32, p: Pace)
    requires Valid(k) && dt > 0 && Admits(p, k.cfg, dt) && OnCourse(k, p)
    requires !Arrived(k) && !Expires(k, dt) && Arrived(Stepped(k, dt))
    ensures p.Soft(LandingSpeed(k, dt), 0)
  {
    hide Approached, SlewLimit, Pace.Soft, Pace.AdmitsStep, SlewedVelocity;
    var w := Watched(k, dt);
    WatchKeepsValid(k, dt);
    ApproachIsSoft(w, dt, p);
    SlewIgnoresAge(k, w.sinceCommand, dt);
  }

  /**
    Sent to one target from standstill, with any mix of step sizes and under limits of at most vmax,
    the joint is never too fast for the way left, at any point of the run: with D the largest slew
    limit of a step and b at most the acceleration and at most what every step brakes at, truncation
    included, a (v v - 2 b e) <= max(2 a D vmax + (a - b) vmax vmax, 10^6 a). So for the speed v thrown
    away by the step that lands on the target a v v is within that bound.
   */
  lemma ArrivalSpeedOverAnySteps(j: Joint, inputs: seq<Input>, dt: uint32, b: int, d: int, limit: int)
    requires Valid(j) && j.mode == MODE_POSITION && j.velocity == 0 && 0 < j.maxVelocity <= limit
    requires 0 <= b <= j.cfg.accel && Sustained(j, inputs) && dt > 0
    requires forall t :: t == dt || Tick(t) in inputs ==>
      SlewLimit(j.cfg, t) <= d && b * t <= 1000 * SlewLimit(j.cfg, t)
    requires forall c :: Order(c) in inputs ==> c.maxVelocity <= limit
    ensures var a, k := j.cfg.accel, Run(j, inputs);
      var bound := Max(a * (2 * (d * limit)) + (a - b) * (limit * limit), a * 1000000);
      && Valid(k)
      && a * (k.velocity * k.velocity - 2 * (b * Abs(Distance(k)))) <= bound
      && (!Arrived(k) && !Expires(k, dt) && Arrived(Stepped(k, dt)) ==>
            a * (LandingSpeed(k, dt) * LandingSpeed(k, dt)) <= bound)
  {
    hide SlewLimit, Stepped, SlewedVelocity, LandingSpeed;
    var p := Mixed(j.cfg.accel, b, d, limit);
    SlewLimitPositive(j.cfg, dt);
    forall i | 0 <= i < |inputs|
      ensures match inputs[i] case Order(c) => c.maxVelocity <= limit case Tick(t) => Admits(p, j.cfg, t)
    {
      assert inputs[i] in inputs;
      if inputs[i].Tick? {
        SlewLimitPositive(j.cfg, inputs[i].dt);
        TicksArePositive(j, inputs, i);
      }
    }
    SoftAllTheWay(j, inputs, p, dt);
    SquareOfAbs(Run(j, inputs).velocity);
  }

  lemma SquareOfAbs(v: int)
    ensures Abs(v) * Abs(v) == v * v
  {
  }

  lemma {:induction false} TicksArePositive(j: Joint, inputs: seq<Input>, i: nat)
    requires j.cfg.accel >= 1 && Sustained(j, inputs) && i < |inputs| && inputs[i].Tick?
    ensures inputs[i].dt > 0
    decreases i
  {
    if i > 0 {
      TicksArePositive(Next(j, inputs[0]), inputs[1..], i - 1);
    }
  }

  /**
    A sharper bound for a fixed step size that the acceleration limit divides exactly:
    v v - D v - 2 a e <= max(D vmax, 10^6), and for the speed v that a landing throws away
    v v <= max(D vmax, 10^6) + D v.
   */
  lemma ArrivalSpeed(j: Joint, inputs: seq<Input>, dt: uint32, limit: int)
    requires Valid(j) && j.mode == MODE_POSITION && j.velocity == 0 && 0 < j.maxVelocity <= limit
    requires dt > 0 && (j.cfg.accel * dt) % 1000 == 0
    requires Sustained(j, inputs) && Paced(inputs, PaceOf(j.cfg, dt, limit), j.cfg)
    ensures var k, d, v := Run(j, inputs), SlewLimit(j.cfg, dt), LandingSpeed(Run(j, inputs), dt);
      && Valid(k)
      && k.velocity * k.velocity - d * Abs(k.velocity) - 2 * (j.cfg.accel * Abs(Distance(k)))
         <= Max(d * limit, 1000000)
      && (!Arrived(k) && !Expires(k, dt) && Arrived(Stepped(k, dt)) ==> v * v <= Max(d * limit, 1000000) + d * v)
  {
    hide Stepped, SlewedVelocity, LandingSpeed;
    ExactSlew(j.cfg, dt);
    SoftAllTheWay(j, inputs, PaceOf(j.cfg, dt, limit), dt);
    SquareOfAbs(Run(j, inputs).velocity);
  }

  lemma ExactSlew(cfg: Config, dt: uint32)
    requires cfg.accel >= 1 && dt > 0 && (cfg.accel * dt) % 1000 == 0
    ensures SlewLimit(cfg, dt) >= 1 && cfg.accel * dt == 1000 * SlewLimit(cfg, dt)
  {
    MulMonotone(1, cfg.accel, dt);
  }

  // ---- the joint of the application --------------------------------------------------------

  /** Commanded to one target at least every half second, it gets there and stays. */
  lemma SweepArrives(j: Joint, inputs: seq<Input>)
    requires Valid(j) && j.cfg == JOINT_CONFIG && j.mode == MODE_POSITION
    requires Repeats(j.cfg, j.target, inputs) && InTime(inputs, j.sinceCommand, 500)
    requires Ticks(inputs) >= Abs(j.velocity) + 340000
    ensures Arrived(Run(j, inputs)) && Run(j, inputs).target == j.target
  {
    SustainedInTime(j, inputs);
    Converges(j, inputs);
  }

  /** Swept at 90 degrees per second from standstill, it lands at no more than 5.874. */
  lemma SweepLandsBelow(j: Joint, inputs: seq<Input>)
    requires Valid(j) && j.cfg == JOINT_CONFIG && j.mode == MODE_POSITION && j.velocity == 0
    requires j.maxVelocity == SWEEP_VELOCITY_MDEG_S
    requires Repeats(j.cfg, j.target, inputs) && InTime(inputs, j.sinceCommand, 500)
    requires forall i :: 0 <= i < |inputs| ==>
      match inputs[i] case Order(c) => c.maxVelocity <= SWEEP_VELOCITY_MDEG_S case Tick(dt) => dt == 1
    requires var k := Run(j, inputs); !Arrived(k) && !Expires(k, 1) && Arrived(Stepped(k, 1))
    ensures LandingSpeed(Run(j, inputs), 1) <= 5874
  {
    hide Stepped, LandingSpeed;
    SustainedInTime(j, inputs);
    ExactSlew(j.cfg, 1);
    assert SlewLimit(j.cfg, 1) == 360;
    ArrivalSpeed(j, inputs, 1, SWEEP_VELOCITY_MDEG_S);
    SoftLimitOfSweep(LandingSpeed(Run(j, inputs), 1));
  }

  lemma SoftLimitOfSweep(v: int)
    requires v >= 0 && v * v <= 32400000 + 360 * v
    ensures v <= 5874
  {
    assert v * v - 360 * v == v * (v - 360);
    assert v >= 5875 ==> v * (v - 360) >= 5875 * 5515 by {
      if v >= 5875 {
        MulMonotone(5875, v, v - 360);
        MulMonotone(5515, v - 360, 5875);
      }
    }
  }
}
