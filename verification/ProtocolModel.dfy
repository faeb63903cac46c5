/** The wire format of common/protocol, on values. */
module ProtocolModel {
  import opened Bits
  import opened CIntegers
  import opened Messages

  const MAX_PAYLOAD: nat := 64
  const HEARTBEAT_LEN: uint8 := 12
  const COMMAND_LEN: uint8 := 12
  const JOINT_STATE_LEN: uint8 := 16
  const EMERGENCY_LEN: uint8 := 8

  datatype Frame = Frame(id: uint16, len: uint8, fd: bool, brs: bool, data: seq<uint8>)

  /** The buffer of a frame always has room for the longest payload. */
  predicate Whole(f: Frame) {
    |f.data| == MAX_PAYLOAD
  }

  datatype Code = Fine | BadParam | BadLength | BadVersion | BadType

  datatype Result<T> = Ok(value: T) | Rejected(code: Code)

  // ---- identifiers -----------------------------------------------------------------------

  function MakeId(kind: uint8, node: uint8): (id: nat) {
    Or(Shl(And(kind, 0x0F), 7), And(node, 0x7F))
  }

  function IdType(id: uint16): nat {
    And(Shr(id, 7), 0x0F)
  }

  function IdNode(id: uint16): nat {
    And(id, 0x7F)
  }

  function Shl(x: nat, n: nat): nat {
    MulMonotone(0, x, Pow2(n));
    x * Pow2(n)
  }

  function Shr(x: nat, n: nat): nat {
    DivParts(x, Pow2(n));
    x / Pow2(n)
  }

  /** The bit fields of an identifier, as arithmetic. */
  lemma IdParts(id: uint16)
    ensures IdType(id) == id / 128 % 16
    ensures IdNode(id) == id % 128
  {
    Pow2Values();
    AndOnes(id / 128, 4);
    AndOnes(id, 7);
  }

  lemma MakeIdValue(kind: uint8, node: uint8)
    ensures MakeId(kind, node) == kind % 16 * 128 + node % 128 < 2048
  {
    Pow2Values();
    AndOnes(kind, 4);
    AndOnes(node, 7);
    OrShifted(node % 128, kind % 16, 7);
    OrCommutes(node % 128, kind % 16 * 128);
  }

  lemma {:induction false} OrCommutes(x: nat, y: nat)
    ensures Or(x, y) == Or(y, x)
  {
    if x == 0 || y == 0 {
    } else {
      OrCommutes(x / 2, y / 2);
    }
  }

  /** Type and node survive the trip through the identifier. */
  lemma IdRoundTrip(kind: uint8, node: uint8)
    requires kind < 16 && node < 128
    ensures 0 <= MakeId(kind, node) < 2048
    ensures IdType(MakeId(kind, node)) == kind && IdNode(MakeId(kind, node)) == node
  {
    MakeIdValue(kind, node);
    hide MakeId, IdType, IdNode;
    IdParts(MakeId(kind, node));
  }

  /** An identifier is rebuilt from its parts, up to the bits an 11-bit identifier does not have. */
  lemma IdRebuilt(id: uint16)
    ensures IdType(id) < 16 && IdNode(id) < 128
    ensures MakeId(IdType(id), IdNode(id)) == id % 2048
  {
    hide MakeId, IdType, IdNode;
    IdParts(id);
    MakeIdValue(IdType(id), IdNode(id));
  }

  // ---- words in little-endian order ------------------------------------------------------

  /** Byte k of a word: shift and mask. */
  function Byte(v: uint32, k: nat): (b: nat) {
    And(Shr(v, 8 * k), 0xFF)
  }

  function Word16(b0: uint8, b1: uint8): nat {
    Or(b0, Shl(b1, 8))
  }

  function Word32(b0: uint8, b1: uint8, b2: uint8, b3: uint8): nat {
    Or(Or(Or(b0, Shl(b1, 8)), Shl(b2, 16)), Shl(b3, 24))
  }

  lemma ByteValue(v: uint32)
    ensures Byte(v, 0) == v % 0x100
    ensures Byte(v, 1) == v / 0x100 % 0x100
    ensures Byte(v, 2) == v / 0x1_0000 % 0x100
    ensures Byte(v, 3) == v / 0x100_0000 % 0x100 == v / 0x100_0000
    ensures 0 <= Byte(v, 0) < 0x100 && 0 <= Byte(v, 1) < 0x100 && 0 <= Byte(v, 2) < 0x100 && 0 <= Byte(v, 3) < 0x100
  {
    hide And;
    Pow2Values();
    assert Pow2(0) == 1;
    AndOnes(v, 8);
    AndOnes(v / 0x100, 8);
    AndOnes(v / 0x1_0000, 8);
    AndOnes(v / 0x100_0000, 8);
  }

  lemma Digits(v: uint32)
    ensures v == v % 0x100 + 0x100 * (v / 0x100 % 0x100) + 0x1_0000 * (v / 0x1_0000 % 0x100)
                 + 0x100_0000 * (v / 0x100_0000)
  {
    assert v / 0x100 / 0x100 == v / 0x1_0000;
    assert v / 0x1_0000 / 0x100 == v / 0x100_0000;
  }

  lemma FromDigits(b0: uint8, b1: uint8, b2: uint8, b3: uint8)
    ensures var v := b0 + 0x100 * b1 + 0x1_0000 * b2 + 0x100_0000 * b3;
      && 0 <= v < TWO_32
      && v % 0x100 == b0 && v / 0x100 % 0x100 == b1 && v / 0x1_0000 % 0x100 == b2 && v / 0x100_0000 == b3
  {
    var v := b0 + 0x100 * b1 + 0x1_0000 * b2 + 0x100_0000 * b3;
    assert v / 0x100 == b1 + 0x100 * b2 + 0x1_0000 * b3;
    assert v / 0x1_0000 == b2 + 0x100 * b3;
  }

  lemma WordValue(b0: uint8, b1: uint8, b2: uint8, b3: uint8)
    ensures Word16(b0, b1) == b0 + 0x100 * b1 < TWO_16
    ensures Word32(b0, b1, b2, b3) == b0 + 0x100 * b1 + 0x1_0000 * b2 + 0x100_0000 * b3 < TWO_32
  {
    hide Or;
    Pow2Values();
    OrShifted(b0, b1, 8);
    OrShifted(b0 + 0x100 * b1, b2, 16);
    OrShifted(b0 + 0x100 * b1 + 0x1_0000 * b2, b3, 24);
  }

  lemma Word16RoundTrip(v: uint16)
    ensures 0 <= Byte(v, 0) < 0x100 && 0 <= Byte(v, 1) < 0x100
    ensures Word16(Byte(v, 0), Byte(v, 1)) == v
  {
    hide Byte, Word16, Word32;
    ByteValue(v);
    Digits(v);
    WordValue(Byte(v, 0), Byte(v, 1), 0, 0);
  }

  lemma Word32RoundTrip(v: uint32)
    ensures 0 <= Byte(v, 0) < 0x100 && 0 <= Byte(v, 1) < 0x100 && 0 <= Byte(v, 2) < 0x100 && 0 <= Byte(v, 3) < 0x100
    ensures Word32(Byte(v, 0), Byte(v, 1), Byte(v, 2), Byte(v, 3)) == v
  {
    hide Byte, Word16, Word32;
    ByteValue(v);
    Digits(v);
    WordValue(Byte(v, 0), Byte(v, 1), Byte(v, 2), Byte(v, 3));
  }

  lemma BytesRebuilt(b0: uint8, b1: uint8, b2: uint8, b3: uint8)
    ensures Word16(b0, b1) < TWO_16 && Word32(b0, b1, b2, b3) < TWO_32
    ensures Byte(Word16(b0, b1), 0) == b0 && Byte(Word16(b0, b1), 1) == b1
    ensures var w := Word32(b0, b1, b2, b3);
      Byte(w, 0) == b0 && Byte(w, 1) == b1 && Byte(w, 2) == b2 && Byte(w, 3) == b3
  {
    hide Byte, Word16, Word32;
    WordValue(b0, b1, b2, b3);
    FromDigits(b0, b1, 0, 0);
    FromDigits(b0, b1, b2, b3);
    ByteValue(Word16(b0, b1));
    ByteValue(Word32(b0, b1, b2, b3));
  }

  /** Two bytes, or four bytes, of a buffer as one word. */
  function GetU16(d: seq<uint8>, at: nat): (v: uint16)
    requires at + 2 <= |d|
  {
    WordValue(d[at], d[at + 1], 0, 0);
    Word16(d[at], d[at + 1])
  }

  function GetU32(d: seq<uint8>, at: nat): (v: uint32)
    requires at + 4 <= |d|
  {
    WordValue(d[at], d[at + 1], d[at + 2], d[at + 3]);
    Word32(d[at], d[at + 1], d[at + 2], d[at + 3])
  }

  function PutU16(d: seq<uint8>, at: nat, v: uint16): (e: seq<uint8>)
    requires at + 2 <= |d|
    ensures |e| == |d|
    ensures GetU16(e, at) == v
    ensures forall i :: 0 <= i < |d| && !(at <= i < at + 2) ==> e[i] == d[i]
  {
    hide Byte, Word16;
    Word16RoundTrip(v);
    d[at := Byte(v, 0)][at + 1 := Byte(v, 1)]
  }

  function PutU32(d: seq<uint8>, at: nat, v: uint32): (e: seq<uint8>)
    requires at + 4 <= |d|
    ensures |e| == |d|
    ensures GetU32(e, at) == v
    ensures forall i :: 0 <= i < |d| && !(at <= i < at + 4) ==> e[i] == d[i]
  {
    hide Byte, Word32;
    Word32RoundTrip(v);
    d[at := Byte(v, 0)][at + 1 := Byte(v, 1)][at + 2 := Byte(v, 2)][at + 3 := Byte(v, 3)]
  }

  // ---- frames ----------------------------------------------------------------------------

  function Zeros(n: nat): (s: seq<uint8>)
    ensures |s| == n && forall i :: 0 <= i < n ==> s[i] == 0
  {
    seq(n, _ => 0)
  }

  /** A fresh frame: everything zero but the identifier, the length and the version byte. */
  function Started(kind: uint8, node: uint8, len: uint8): (f: Frame)
    ensures Whole(f)
  {
    MakeIdValue(kind, node);
    Frame(MakeId(kind, node), len, true, true, Zeros(MAX_PAYLOAD)[0 := PROTOCOL_VERSION])
  }

  function Checked(f: Frame, kind: uint8, minLen: uint8): Code
    requires Whole(f)
  {
    if IdType(f.id) != kind then BadType
    else if f.len < minLen || f.len > MAX_PAYLOAD then BadLength
    else if f.data[0] != PROTOCOL_VERSION then BadVersion
    else Fine
  }

  predicate NodeValid(node: uint8) {
    1 <= node <= NODE_ID_MAX
  }

  // ---- messages --------------------------------------------------------------------------

  predicate HeartbeatEncodable(node: uint8, hb: Heartbeat) {
    NodeValid(node) && hb.state <= NODE_STATE_FAULT
  }

  function EncodedHeartbeat(node: uint8, hb: Heartbeat): (f: Frame)
    ensures Whole(f)
  {
    var f0 := Started(MSG_HEARTBEAT, node, HEARTBEAT_LEN);
    var d := PutU32(PutU16(f0.data[1 := hb.state], 2, hb.errorFlags), 4, hb.uptime);
    f0.(data := d[8 := hb.fwMajor][9 := hb.fwMinor][10 := hb.fwPatch])
  }

  function DecodedHeartbeat(f: Frame): Result<Heartbeat>
    requires Whole(f)
  {
    var c := Checked(f, MSG_HEARTBEAT, HEARTBEAT_LEN);
    if c != Fine then Rejected(c)
    else Ok(Heartbeat(f.data[1], GetU16(f.data, 2), GetU32(f.data, 4), f.data[8], f.data[9], f.data[10]))
  }

  predicate CommandEncodable(node: uint8, c: Command) {
    node <= NODE_ID_MAX && Executable(c)
  }

  function EncodedCommand(node: uint8, c: Command): (f: Frame)
    ensures Whole(f)
  {
    var f0 := Started(MSG_COMMAND, node, COMMAND_LEN);
    var d := PutU32(f0.data[1 := c.mode], 2, ToUint32(c.target));
    f0.(data := PutU16(PutU32(d, 6, ToUint32(c.maxVelocity)), 10, c.sequence))
  }

  /** The command bytes as they stand, before they are validated. */
  function RawCommand(f: Frame): Command
    requires Whole(f)
  {
    Command(f.data[1], ToInt32(GetU32(f.data, 2)), ToInt32(GetU32(f.data, 6)), GetU16(f.data, 10))
  }

  function DecodedCommand(f: Frame): (r: Result<Command>)
    requires Whole(f)
    ensures r.Ok? ==> Executable(r.value)
  {
    var c := Checked(f, MSG_COMMAND, COMMAND_LEN);
    if c != Fine then Rejected(c)
    else if !Executable(RawCommand(f)) then Rejected(BadParam)
    else Ok(RawCommand(f))
  }

  function EncodedJointState(node: uint8, s: JointState): (f: Frame)
    ensures Whole(f)
  {
    var f0 := Started(MSG_JOINT_STATE, node, JOINT_STATE_LEN);
    var d := PutU32(f0.data[1 := s.mode], 2, ToUint32(s.position));
    var e := PutU16(PutU32(d, 6, ToUint32(s.velocity)), 10, ToUint16(s.current));
    f0.(data := PutU16(PutU16(e, 12, ToUint16(s.temperature)), 14, s.lastSequence))
  }

  function DecodedJointState(f: Frame): Result<JointState>
    requires Whole(f)
  {
    var c := Checked(f, MSG_JOINT_STATE, JOINT_STATE_LEN);
    if c != Fine then Rejected(c)
    else Ok(JointState(ToInt32(GetU32(f.data, 2)), ToInt32(GetU32(f.data, 6)), ToInt16(GetU16(f.data, 10)),
                       ToInt16(GetU16(f.data, 12)), GetU16(f.data, 14), f.data[1]))
  }

  function EncodedEmergency(node: uint8, e: Emergency): (f: Frame)
    ensures Whole(f)
  {
    var f0 := Started(MSG_EMERGENCY, node, EMERGENCY_LEN);
    f0.(data := PutU32(PutU16(f0.data, 2, e.code), 4, e.detail))
  }

  function DecodedEmergency(f: Frame): Result<Emergency>
    requires Whole(f)
  {
    var c := Checked(f, MSG_EMERGENCY, EMERGENCY_LEN);
    if c != Fine then Rejected(c) else Ok(Emergency(GetU16(f.data, 2), GetU32(f.data, 4)))
  }
}
