/** The joint of common/joint/src/joint.c as a state machine on values. */
module JointModel {
  import opened Bits
  import opened CIntegers
  import opened Isqrt
  import opened Messages

  datatype Config = Config(min: int32, max: int32, accel: int32, timeout: uint32)

  datatype Joint = Joint(
    cfg: Config,
    mode: uint8,
    position: int,
    velocity: int,
    target: int,
    maxVelocity: int,
    lastSeq: uint16,
    sinceCommand: uint32,
    errorFlags: nat,
    timeouts: uint32)

  function Clamp(v: int, lo: int, hi: int): int {
    if v < lo then lo else if v > hi then hi else v
  }

  // ---- error flags -----------------------------------------------------------------------

  function Raise(flags: nat, mask: nat): nat {
    Or(flags, mask)
  }

  function Lower(flags: nat, mask: uint16): nat {
    And(flags, 0xFFFF - mask)
  }

  predicate PeerLost(j: Joint) {
    HasBit(j.errorFlags, BIT_PEER_LOST)
  }

  predicate LimitReached(j: Joint) {
    HasBit(j.errorFlags, BIT_LIMIT_REACHED)
  }

  /** Raising and lowering a flag touches that flag and no other. */
  lemma FlagBits(flags: nat, bit: nat, mask: uint16)
    requires bit < 16 && mask == Pow2(bit) && flags < TWO_16
    ensures Raise(flags, mask) < TWO_16 && Lower(flags, mask) < TWO_16
    ensures forall i: nat :: HasBit(Raise(flags, mask), i) == (HasBit(flags, i) || i == bit)
    ensures forall i: nat :: HasBit(Lower(flags, mask), i) == (HasBit(flags, i) && i != bit)
  {
    hide HasBit, And, Or, Raise, Lower;
    FlagsBelow(flags, bit, mask);
    forall i: nat
      ensures HasBit(Raise(flags, mask), i) == (HasBit(flags, i) || i == bit)
      ensures HasBit(Lower(flags, mask), i) == (HasBit(flags, i) && i != bit)
    {
      FlagBit(flags, bit, mask, i);
    }
  }

  lemma FlagsBelow(flags: nat, bit: nat, mask: uint16)
    requires bit < 16 && mask == Pow2(bit) && flags < TWO_16
    ensures Raise(flags, mask) < TWO_16 && Lower(flags, mask) < TWO_16
  {
    Pow2Values();
    OrBelow(flags, mask, 16);
    AndBelow(flags, 0xFFFF - mask);
  }

  lemma FlagBit(flags: nat, bit: nat, mask: uint16, i: nat)
    requires bit < 16 && mask == Pow2(bit) && flags < TWO_16
    ensures HasBit(Raise(flags, mask), i) == (HasBit(flags, i) || i == bit)
    ensures HasBit(Lower(flags, mask), i) == (HasBit(flags, i) && i != bit)
  {
    hide HasBit, And, Or;
    Pow2Values();
    HasBitOr(flags, mask, i);
    HasBitAnd(flags, 0xFFFF - mask, i);
    HasBitNot(mask, 16, i);
    HasBitPow2(bit, i);
    if i >= 16 {
      HighBitsClear(flags, 16, i);
    }
  }

  lemma JointFlagBits(flags: nat)
    requires flags < TWO_16
    ensures Lower(flags, ERR_PEER_LOST) < TWO_16 && Lower(flags, ERR_LIMIT_REACHED) < TWO_16
    ensures Raise(flags, ERR_PEER_LOST) < TWO_16 && Raise(flags, ERR_LIMIT_REACHED) < TWO_16
    ensures forall i: nat :: HasBit(Lower(flags, ERR_PEER_LOST), i) == (HasBit(flags, i) && i != BIT_PEER_LOST)
    ensures forall i: nat :: HasBit(Lower(flags, ERR_LIMIT_REACHED), i) == (HasBit(flags, i) && i != BIT_LIMIT_REACHED)
    ensures forall i: nat :: HasBit(Raise(flags, ERR_PEER_LOST), i) == (HasBit(flags, i) || i == BIT_PEER_LOST)
    ensures forall i: nat :: HasBit(Raise(flags, ERR_LIMIT_REACHED), i) == (HasBit(flags, i) || i == BIT_LIMIT_REACHED)
  {
    Pow2Values();
    FlagBits(flags, BIT_PEER_LOST, ERR_PEER_LOST);
    FlagBits(flags, BIT_LIMIT_REACHED, ERR_LIMIT_REACHED);
  }

  // ---- operations ------------------------------------------------------------------------

  function Initial(cfg: Config): (j: Joint) {
    Joint(if cfg.accel <= 0 then cfg.(accel := 1) else cfg, MODE_DISABLED, 0, 0, 0, 0, 0, 0, 0, 0)
  }

  function Commanded(j: Joint, c: Command): Joint {
    var j1 := j.(lastSeq := c.sequence, sinceCommand := 0, mode := c.mode,
                 errorFlags := Lower(j.errorFlags, ERR_PEER_LOST));
    if c.mode != MODE_POSITION then j1
    else
      j1.(maxVelocity := c.maxVelocity,
          target := Clamp(c.target, j.cfg.min, j.cfg.max),
          errorFlags := if j.cfg.min <= c.target <= j.cfg.max then Lower(j1.errorFlags, ERR_LIMIT_REACHED)
                        else Raise(j1.errorFlags, ERR_LIMIT_REACHED))
  }

  /** The watchdog runs only in POSITION mode and only with a timeout configured. */
  predicate Watching(j: Joint) {
    j.mode == MODE_POSITION && j.cfg.timeout != 0
  }

  /** The 32-bit age of the last command, as the next step sees it. */
  function CommandAge(j: Joint, dt: uint32): uint32 {
    ToUint32(j.sinceCommand + dt)
  }

  predicate Expires(j: Joint, dt: uint32) {
    Watching(j) && CommandAge(j, dt) > j.cfg.timeout
  }

  function Watched(j: Joint, dt: uint32): Joint {
    if !Watching(j) then j
    else if !Expires(j, dt) then j.(sinceCommand := CommandAge(j, dt))
    else j.(sinceCommand := CommandAge(j, dt), mode := MODE_DISABLED,
            errorFlags := Raise(j.errorFlags, ERR_PEER_LOST), timeouts := ToUint32(j.timeouts + 1))
  }

  function BrakeDelta(cfg: Config, dt: uint32): int {
    TruncDiv(cfg.accel * dt, 1000)
  }

  function BrakedVelocity(v: int, dv: int): int {
    if Abs(v) <= dv then 0 else if v > 0 then v - dv else v + dv
  }

  function Travel(v: int, dt: uint32): int {
    TruncDiv(v * dt, 1000)
  }

  function Moved(j: Joint, v: int, step: int): Joint {
    j.(velocity := v, position := Clamp(j.position + step, j.cfg.min, j.cfg.max))
  }

  function Braked(j: Joint, dt: uint32): Joint {
    var v := BrakedVelocity(j.velocity, BrakeDelta(j.cfg, dt));
    Moved(j, v, Travel(v, dt))
  }

  function Distance(j: Joint): int {
    j.target - j.position
  }

  /** The speed aimed for: the limit of the command, or less when that could not stop in time. */
  function WantedSpeed(j: Joint): int
    requires j.cfg.accel >= 1
  {
    Min(j.maxVelocity, Root(2 * j.cfg.accel * Abs(Distance(j))))
  }

  function WantedVelocity(j: Joint): int
    requires j.cfg.accel >= 1
  {
    if Distance(j) > 0 then WantedSpeed(j) else -WantedSpeed(j)
  }

  function SlewLimit(cfg: Config, dt: uint32): int {
    Max(BrakeDelta(cfg, dt), 1)
  }

  function Slew(v: int, want: int, dv: int): int {
    if want > v then Min(v + dv, want) else Max(v - dv, want)
  }

  /** The step toward a target err away, never past it and never stuck before it. */
  function Stride(err: int, raw: int): int {
    if (err > 0 && raw > err) || (err < 0 && raw < err) then err
    else if raw == 0 && err != 0 then (if err > 0 then 1 else -1)
    else raw
  }

  function SlewedVelocity(j: Joint, dt: uint32): int
    requires j.cfg.accel >= 1
  {
    Slew(j.velocity, WantedVelocity(j), SlewLimit(j.cfg, dt))
  }

  function Approached(j: Joint, dt: uint32): Joint
    requires j.cfg.accel >= 1
  {
    var err := Distance(j);
    var v := SlewedVelocity(j, dt);
    var step := Stride(err, Travel(v, dt));
    Moved(j, if step == err then 0 else v, step)
  }

  function Stepped(j: Joint, dt: uint32): Joint
    requires j.cfg.accel >= 1
  {
    if dt == 0 then j
    else
      var w := Watched(j, dt);
      if w.mode != MODE_POSITION then Braked(w, dt) else Approached(w, dt)
  }

  // ---- runs ------------------------------------------------------------------------------

  datatype Input = Order(c: Command) | Tick(dt: uint32)

  function Next(j: Joint, i: Input): (k: Joint)
    requires j.cfg.accel >= 1
    ensures k.cfg == j.cfg
  {
    match i
    case Order(c) => Commanded(j, c)
    case Tick(dt) => Stepped(j, dt)
  }

  function Run(j: Joint, inputs: seq<Input>): (k: Joint)
    requires j.cfg.accel >= 1
    ensures k.cfg == j.cfg
    decreases |inputs|
  {
    if inputs == [] then j else Run(Next(j, inputs[0]), inputs[1..])
  }

  lemma RunOne(j: Joint, i: Input)
    requires j.cfg.accel >= 1
    ensures Run(j, [i]) == Next(j, i)
  {
    assert [i][1..] == [];
    assert Run(j, [i]) == Run(Next(j, i), []);
  }

  lemma {:induction false} RunSplit(j: Joint, a: seq<Input>, b: seq<Input>)
    requires j.cfg.accel >= 1
    ensures Run(j, a + b) == Run(Run(j, a), b)
    decreases |a|
  {
    if a == [] {
      assert a + b == b;
    } else {
      assert (a + b)[1..] == a[1..] + b;
      RunSplit(Next(j, a[0]), a[1..], b);
    }
  }

  /** A joint raises no flags but its two. */
  ghost predicate OwnFlagsOnly(flags: nat) {
    forall i: nat :: HasBit(flags, i) ==> i == BIT_PEER_LOST || i == BIT_LIMIT_REACHED
  }

  /** Configurations the firmware can be given: zero is inside the limits, and v^2 = 2ad fits 64 bits. */
  predicate Sound(cfg: Config) {
    cfg.min <= 0 <= cfg.max && 2 * cfg.accel * (cfg.max - cfg.min) < TWO_63
  }

  /** What holds of a joint between any two calls. */
  ghost predicate Valid(j: Joint) {
    && Sound(j.cfg) && j.cfg.accel >= 1
    && j.cfg.min <= j.position <= j.cfg.max
    && j.cfg.min <= j.target <= j.cfg.max
    && Abs(j.velocity) < TWO_31
    && -TWO_31 <= j.maxVelocity < TWO_31
    && j.mode <= MODE_POSITION
    && (j.mode == MODE_POSITION ==> j.maxVelocity > 0)
    && (Watching(j) ==> j.sinceCommand <= j.cfg.timeout)
    && j.errorFlags < TWO_16 && OwnFlagsOnly(j.errorFlags)
    && (PeerLost(j) ==> j.mode == MODE_DISABLED)
  }

  /** Commands as a run delivers them: each one passed the COMMAND decoder. */
  predicate Decoded(inputs: seq<Input>) {
    forall i :: 0 <= i < |inputs| && inputs[i].Order? ==> Executable(inputs[i].c)
  }
}
