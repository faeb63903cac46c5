/**
  The joint as the firmware updates it in place. All the arithmetic of a step is done in int64 and
  uint64, whose operations are only allowed where they cannot leave 64 bits, and every narrowing
  back to int32 is shown to be exact.
 */
module JointDevice {
  import opened Bits
  import opened CIntegers
  import opened Isqrt
  import opened JointLimits
  import opened JointModel
  import opened Messages

  // ---- ranges ----------------------------------------------------------------------------

  lemma ProductFits(a: int, b: int)
    requires Abs(a) < TWO_31 && 0 <= b < TWO_32
    ensures -TWO_63 < a * b < TWO_63
  {
    MulMonotone(a, TWO_31 - 1, b);
    MulMonotone(-a, TWO_31 - 1, b);
    assert (-a) * b == -(a * b);
  }

  lemma TravelFits(v: int, dt: uint32)
    requires Abs(v) < TWO_31
    ensures -TWO_63 < v * dt < TWO_63
    ensures Abs(Travel(v, dt)) <= TWO_63 / 1000
  {
    ProductFits(v, dt);
    TravelSign(v, dt);
  }

  lemma DeltaFits(cfg: Config, dt: uint32)
    requires cfg.accel >= 1
    ensures 0 <= cfg.accel * dt < TWO_63
    ensures 0 <= BrakeDelta(cfg, dt) <= TWO_63 / 1000
  {
    ProductFits(cfg.accel, dt);
    MulMonotone(0, cfg.accel, dt);
    TruncDivBounds(cfg.accel * dt, 1000);
  }

  /** The argument of the square root fits a signed 64-bit integer, and its root fits 32 bits. */
  lemma RadicandFits(j: Joint)
    requires Valid(j)
    ensures 0 <= 2 * j.cfg.accel * Abs(Distance(j)) < TWO_63
    ensures Root(2 * j.cfg.accel * Abs(Distance(j))) < TWO_32
  {
    var a2, e := 2 * j.cfg.accel, Abs(Distance(j));
    MulMonotone(e, j.cfg.max - j.cfg.min, a2);
    assert a2 * e == e * a2 && a2 * (j.cfg.max - j.cfg.min) == (j.cfg.max - j.cfg.min) * a2;
    var r := Root(a2 * e);
    assert r >= TWO_32 ==> r * r >= TWO_64 by {
      if r >= TWO_32 {
        MulMonotone(TWO_32, r, r);
        MulMonotone(TWO_32, r, TWO_32);
      }
    }
  }

  /** C's division of a 64-bit value by 1000. */
  function PerThousand(n: int64): (q: int64)
    ensures q as int == TruncDiv(n as int, 1000)
  {
    TruncDivBounds(n as int, 1000);
    TruncDiv(n as int, 1000) as int64
  }

  function Abs64(v: int64): (a: int64)
    requires v as int > -TWO_63
    ensures a as int == Abs(v as int)
  {
    if v < 0 then -v else v
  }

  function Clamp32(v: int64, lo: int32, hi: int32): (c: int32)
    ensures c == Clamp(v as int, lo, hi)
  {
    if v < lo as int64 then lo else if v > hi as int64 then hi else v as int32
  }

  class Device {
    var cfg: Config
    var mode: uint8
    var position: int32
    var velocity: int32
    var target: int32
    var maxVelocity: int32
    var lastSeq: uint16
    var sinceCommand: uint32
    var errorFlags: uint16
    var timeouts: uint32

    /** The fields as one value. */
    ghost function View(): Joint
      reads this
    {
      Joint(cfg, mode, position, velocity, target, maxVelocity, lastSeq, sinceCommand, errorFlags, timeouts)
    }

    constructor (config: Config)
      ensures View() == Initial(config)
      ensures mode == MODE_DISABLED && position == 0 && velocity == 0 && target == 0 && maxVelocity == 0
      ensures lastSeq == 0 && sinceCommand == 0 && errorFlags == 0 && timeouts == 0
      ensures cfg == config.(accel := Max(config.accel, 1))
      ensures Sound(config) ==> Valid(View())
    {
      mode, position, velocity, target, maxVelocity := MODE_DISABLED, 0, 0, 0, 0;
      lastSeq, sinceCommand, errorFlags, timeouts := 0, 0, 0, 0;
      cfg := config;
      new;
      if cfg.accel <= 0 {
        cfg := cfg.(accel := 1);
      }
      if Sound(config) {
        InitialIsValid(config);
      }
    }

    method Command(c: Messages.Command)
      requires Valid(View()) && Executable(c)
      modifies this
      ensures View() == Commanded(old(View()), c) && Valid(View())
    {
      CommandKeepsValid(View(), c);
      JointFlagBits(errorFlags);
      JointFlagBits(Lower(errorFlags, ERR_PEER_LOST));
      lastSeq := c.sequence;
      sinceCommand := 0;
      mode := c.mode;
      errorFlags := And(errorFlags, 0xFFFF - ERR_PEER_LOST);
      if c.mode != MODE_POSITION {
        return;
      }
      maxVelocity := c.maxVelocity;
      if c.target < cfg.min || c.target > cfg.max {
        errorFlags := Or(errorFlags, ERR_LIMIT_REACHED);
      } else {
        errorFlags := And(errorFlags, 0xFFFF - ERR_LIMIT_REACHED);
      }
      target := Clamp32(c.target as int64, cfg.min, cfg.max);
    }

    method Step(dt: uint32)
      requires Valid(View())
      modifies this
      ensures View() == Stepped(old(View()), dt) && Valid(View())
    {
      StepKeepsValid(View(), dt);
      if dt == 0 {
        return;
      }
      Watch(dt);
      if mode != MODE_POSITION {
        Brake(dt);
      } else {
        Approach(dt);
      }
    }

    method Watch(dt: uint32)
      requires Valid(View())
      modifies this`sinceCommand, this`mode, this`errorFlags, this`timeouts
      ensures View() == Watched(old(View()), dt) && Valid(View())
    {
      WatchKeepsValid(View(), dt);
      JointFlagBits(errorFlags);
      if mode == MODE_POSITION && cfg.timeout != 0 {
        sinceCommand := ToUint32(sinceCommand + dt);
        if sinceCommand > cfg.timeout {
          mode := MODE_DISABLED;
          errorFlags := Or(errorFlags, ERR_PEER_LOST);
          timeouts := ToUint32(timeouts + 1);
        }
      }
    }

    method Brake(dt: uint32)
      requires Valid(View())
      modifies this`velocity, this`position
      ensures View() == Braked(old(View()), dt)
    {
      DeltaFits(cfg, dt);
      var dv := PerThousand(cfg.accel as int64 * dt as int64);
      BrakedBounds(velocity, dv as int);
      var v := velocity as int64;
      if Abs64(v) <= dv {
        v := 0;
      } else {
        v := v + (if v > 0 then -dv else dv);
      }
      TravelFits(v as int, dt);
      velocity := v as int32;
      position := Clamp32(position as int64 + PerThousand(v * dt as int64), cfg.min, cfg.max);
    }

    method Approach(dt: uint32)
      requires Valid(View()) && mode == MODE_POSITION
      modifies this`velocity, this`position
      ensures View() == Approached(old(View()), dt)
    {
      hide WantedVelocity, Root, PeerLost, IsRoot;
      SlewBounds(View(), dt);
      DeltaFits(cfg, dt);
      var err := target as int64 - position as int64;
      var want := Want(err);
      var dv := PerThousand(cfg.accel as int64 * dt as int64);
      if dv < 1 {
        dv := 1;
      }
      var v := velocity as int64;
      if want > v {
        v := if want - v > dv then v + dv else want;
      } else {
        v := if v - want > dv then v - dv else want;
      }
      assert v as int == SlewedVelocity(View(), dt);
      TravelFits(v as int, dt);
      var step := PerThousand(v * dt as int64);
      if (err > 0 && step > err) || (err < 0 && step < err) {
        step := err;
        v := 0;
      }
      if step == 0 && err != 0 {
        step := if err > 0 then 1 else -1;
      }
      if step == err {
        v := 0;
      }
      velocity := v as int32;
      position := Clamp32(position as int64 + step, cfg.min, cfg.max);
    }

    method Want(err: int64) returns (want: int64)
      requires Valid(View()) && mode == MODE_POSITION && err as int == Distance(View())
      ensures want as int == WantedVelocity(View()) && Abs(want as int) < TWO_31
    {
      RadicandFits(View());
      WantedSpeedBounds(View());
      var a := cfg.accel as int64;
      var stop := IsqrtU64((2 * a * Abs64(err)) as uint64);
      var limit := maxVelocity as int64;
      if stop as int64 < limit {
        limit := stop as int64;
      }
      want := if err > 0 then limit else -limit;
    }

    method GetState() returns (s: JointState)
      requires Valid(View())
      ensures s == Reported(View()) && Tells(s, View())
    {
      var v: int32 := if velocity < 0 then -velocity else velocity;
      var current := ToInt16(if mode == MODE_POSITION then 50 + v / 1000 else 0);
      s := JointState(position, velocity, current, 250, lastSeq, mode);
      ReportTells(View());
    }
  }

  /** The JOINT_STATE message of a joint. */
  function Reported(j: Joint): JointState
    requires Valid(j)
  {
    JointState(j.position, j.velocity,
               ToInt16(if j.mode == MODE_POSITION then 50 + Abs(j.velocity) / 1000 else 0),
               250, j.lastSeq, j.mode)
  }

  /**
    What a JOINT_STATE message says of a joint: where it is, how fast, in which mode, and which command
    it had last; 25.0 degrees; and a current of 50 plus the speed in thousandths, in 16 bits, in POSITION
    mode, and none otherwise.
   */
  predicate Tells(s: JointState, j: Joint) {
    && s.position == j.position && s.velocity == j.velocity
    && s.mode == j.mode && s.lastSequence == j.lastSeq
    && s.temperature == 250
    && (if j.mode == MODE_POSITION then (s.current - 50 - Abs(j.velocity) / 1000) % TWO_16 == 0 else s.current == 0)
  }

  lemma ReportTells(j: Joint)
    requires Valid(j)
    ensures Tells(Reported(j), j)
  {
    hide Valid;
    CurrentWraps(50 + Abs(j.velocity) / 1000);
  }

  lemma CurrentWraps(x: int)
    ensures (ToInt16(x) - x) % TWO_16 == 0
  {
    var q, w := x / TWO_16, x % TWO_16;
    assert x == q * TWO_16 + w;
    if w < 0x8000 {
      ModUnique(-q * TWO_16, TWO_16, -q, 0);
    } else {
      ModUnique((-q - 1) * TWO_16, TWO_16, -q - 1, 0);
    }
  }

  /** The reported current survives the narrowing to 16 bits exactly below this speed. */
  const EXACT_CURRENT_SPEED: int := 32717999

  lemma CurrentIsExact(j: Joint)
    requires Valid(j) && j.mode == MODE_POSITION
    ensures Reported(j).current == 50 + Abs(j.velocity) / 1000 <==> Abs(j.velocity) <= EXACT_CURRENT_SPEED
  {
    assert Abs(j.velocity) / 1000 <= 2147483;
  }

  /** A fast joint with strong brakes reports a current of -25486 where 40050 is meant. */
  lemma WrongCurrentIsReachable(cfg: Config, inputs: seq<Input>)
    requires cfg == Config(0, 2_000_000_000, 1_000_000_000, 0)
    requires inputs == [Order(Messages.Command(MODE_POSITION, 2_000_000_000, 40_000_000, 1)), Tick(50)]
    ensures Sound(cfg) && Decoded(inputs)
    ensures var j := Run(Initial(cfg), inputs);
      Valid(j) && j.velocity == 40_000_000 && Reported(j).current == -25486
  {
    hide Root, And, Or, OwnFlagsOnly, PeerLost, Valid;
    MotionLimits(cfg, inputs);
    var a := Commanded(Initial(cfg), inputs[0].c);
    FastEnough(a);
    assert inputs[1..] == [inputs[1]];
    RunOne(a, inputs[1]);
    var j := Run(a, inputs[1..]);
    assert j == Stepped(a, 50);
    assert BrakeDelta(a.cfg, 50) == 50_000_000;
    assert SlewedVelocity(a, 50) == 40_000_000;
    assert Travel(40_000_000, 50) == 2_000_000;
    assert (50 + 40_000_000 / 1000) % TWO_16 == 40050;
  }

  lemma FastEnough(j: Joint)
    requires j.cfg.accel == 1_000_000_000 && Distance(j) == 2_000_000_000 && j.maxVelocity == 40_000_000
    ensures WantedVelocity(j) == 40_000_000
  {
    RootIsAtLeast(4_000_000_000_000_000_000, Root(2 * j.cfg.accel * Abs(Distance(j))), 40_000_000);
  }

  lemma RootIsAtLeast(x: int, r: int, w: int)
    requires IsRoot(x, r) && 0 <= w && w * w <= x
    ensures w <= r
  {
    if r < w {
      MulMonotone(r + 1, w, r + 1);
      MulMonotone(r + 1, w, w);
    }
  }

  /** The current is exact over every run whose commands all stay below that speed. */
  lemma CurrentIsExactOverRuns(cfg: Config, inputs: seq<Input>)
    requires Sound(cfg) && Decoded(inputs) && LargestLimit(inputs) <= EXACT_CURRENT_SPEED
    ensures var k := Run(Initial(cfg), inputs);
      Valid(k) && Reported(k).current == if k.mode == MODE_POSITION then 50 + Abs(k.velocity) / 1000 else 0
  {
    MotionLimits(cfg, inputs);
    var k := Run(Initial(cfg), inputs);
    if k.mode == MODE_POSITION {
      CurrentIsExact(k);
    }
  }
}
