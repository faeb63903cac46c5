/** Round trips of the four messages, and agreement of the C decoder with tools/rjs_protocol.py. */
module ProtocolLaws {
  import opened Bits
  import opened CIntegers
  import opened Messages
  import opened ProtocolModel

  // ---- decode after encode ---------------------------------------------------------------

  /** A started frame passes the check for its own type, whatever is written behind the version byte. */
  lemma StartedPasses(kind: uint8, node: uint8, len: uint8, f: Frame)
    requires kind < 16 && node <= NODE_ID_MAX && len as nat <= MAX_PAYLOAD
    requires Whole(f) && f.id == Started(kind, node, len).id && f.len == len && f.data[0] == PROTOCOL_VERSION
    ensures Checked(f, kind, len) == Fine && IdNode(f.id) == node
  {
    hide MakeId, IdType, IdNode;
    IdRoundTrip(kind, node);
  }

  lemma HeartbeatRoundTrip(node: uint8, hb: Heartbeat)
    requires HeartbeatEncodable(node, hb)
    ensures var f := EncodedHeartbeat(node, hb);
      DecodedHeartbeat(f) == Ok(hb) && IdNode(f.id) == node && f.len == 12 && f.fd && f.brs
  {
    hide MakeId, IdType, IdNode, GetU16, GetU32, PutU16, PutU32, Checked;
    StartedPasses(MSG_HEARTBEAT, node, HEARTBEAT_LEN, EncodedHeartbeat(node, hb));
    var d := PutU16(Started(MSG_HEARTBEAT, node, HEARTBEAT_LEN).data[1 := hb.state], 2, hb.errorFlags);
    var e := PutU32(d, 4, hb.uptime);
    var f := EncodedHeartbeat(node, hb);
    SameU16(d, f.data, 2);
    SameU32(e, f.data, 4);
  }

  lemma CommandRoundTrip(node: uint8, c: Command)
    requires CommandEncodable(node, c)
    ensures var f := EncodedCommand(node, c);
      DecodedCommand(f) == Ok(c) && IdNode(f.id) == node && f.len == 12 && f.fd && f.brs
  {
    hide MakeId, IdType, IdNode, GetU16, GetU32, PutU16, PutU32, Checked;
    var f := EncodedCommand(node, c);
    StartedPasses(MSG_COMMAND, node, COMMAND_LEN, f);
    var d := PutU32(Started(MSG_COMMAND, node, COMMAND_LEN).data[1 := c.mode], 2, ToUint32(c.target));
    var e := PutU32(d, 6, ToUint32(c.maxVelocity));
    SameU32(d, f.data, 2);
    SameU32(e, f.data, 6);
  }

  lemma JointStateRoundTrip(node: uint8, s: JointState)
    requires NodeValid(node)
    ensures var f := EncodedJointState(node, s);
      DecodedJointState(f) == Ok(s) && IdNode(f.id) == node && f.len == 16 && f.fd && f.brs
  {
    hide MakeId, IdType, IdNode, GetU16, GetU32, PutU16, PutU32, Checked;
    var f := EncodedJointState(node, s);
    StartedPasses(MSG_JOINT_STATE, node, JOINT_STATE_LEN, f);
    var d := PutU32(Started(MSG_JOINT_STATE, node, JOINT_STATE_LEN).data[1 := s.mode], 2, ToUint32(s.position));
    var e := PutU32(d, 6, ToUint32(s.velocity));
    var g := PutU16(e, 10, ToUint16(s.current));
    var h := PutU16(g, 12, ToUint16(s.temperature));
    SameU32(d, f.data, 2);
    SameU32(e, f.data, 6);
    SameU16(g, f.data, 10);
    SameU16(h, f.data, 12);
  }

  lemma EmergencyRoundTrip(node: uint8, e: Emergency)
    requires NodeValid(node)
    ensures var f := EncodedEmergency(node, e);
      DecodedEmergency(f) == Ok(e) && IdNode(f.id) == node && f.len == 8 && f.fd && f.brs
  {
    hide MakeId, IdType, IdNode, GetU16, GetU32, PutU16, PutU32, Checked;
    var f := EncodedEmergency(node, e);
    StartedPasses(MSG_EMERGENCY, node, EMERGENCY_LEN, f);
    SameU16(PutU16(Started(MSG_EMERGENCY, node, EMERGENCY_LEN).data, 2, e.code), f.data, 2);
  }

  /** A word is read from its own bytes only. */
  lemma SameU16(d: seq<uint8>, e: seq<uint8>, at: nat)
    requires at + 2 <= |d| == |e| && d[at..at + 2] == e[at..at + 2]
    ensures GetU16(d, at) == GetU16(e, at)
  {
    assert d[at] == d[at..at + 2][0] && d[at + 1] == d[at..at + 2][1];
    assert e[at] == e[at..at + 2][0] && e[at + 1] == e[at..at + 2][1];
  }

  lemma SameU32(d: seq<uint8>, e: seq<uint8>, at: nat)
    requires at + 4 <= |d| == |e| && d[at..at + 4] == e[at..at + 4]
    ensures GetU32(d, at) == GetU32(e, at)
  {
    var x, y := d[at..at + 4], e[at..at + 4];
    assert x[0] == d[at] && x[1] == d[at + 1] && x[2] == d[at + 2] && x[3] == d[at + 3];
    assert y[0] == e[at] && y[1] == e[at + 1] && y[2] == e[at + 2] && y[3] == e[at + 3];
  }

  // ---- what is refused, and how ----------------------------------------------------------

  /** The answer to a frame by its type, its length and its version byte, checked in this order. */
  function HeadCode(f: Frame, kind: nat, minLen: nat): Code
    requires Whole(f)
  {
    if f.id / 128 % 16 != kind then BadType
    else if !(minLen <= f.len as nat <= 64) then BadLength
    else if f.data[0] != 1 then BadVersion
    else Fine
  }

  /**
    Which frames the four decoders refuse, and with which answer, told from the bits of the identifier
    and the bytes: the first check that fails, and for a command a mode above 1, or mode 1 with a speed
    limit that is not positive.
   */
  lemma DecodersAnswer(f: Frame)
    requires Whole(f)
    ensures match DecodedHeartbeat(f)
      case Ok(_) => HeadCode(f, 7, 12) == Fine
      case Rejected(code) => code == HeadCode(f, 7, 12) != Fine
    ensures match DecodedJointState(f)
      case Ok(_) => HeadCode(f, 2, 16) == Fine
      case Rejected(code) => code == HeadCode(f, 2, 16) != Fine
    ensures match DecodedEmergency(f)
      case Ok(_) => HeadCode(f, 0, 8) == Fine
      case Rejected(code) => code == HeadCode(f, 0, 8) != Fine
    ensures var limit := Signed(f.data, 6, 4);
      var bad := f.data[1] > 1 || (f.data[1] == 1 && limit <= 0);
      match DecodedCommand(f)
      case Ok(_) => HeadCode(f, 1, 12) == Fine && !bad
      case Rejected(code) =>
        if HeadCode(f, 1, 12) == Fine then bad && code == BadParam else code == HeadCode(f, 1, 12)
  {
    hide IdType, GetU16, GetU32, Signed;
    IdParts(f.id);
    FieldsAgree32(f.data, 64, 6);
    assert f.data[..64] == f.data;
  }

  /** The frame check answers likewise, for any type and least length. */
  lemma CheckAnswers(f: Frame, kind: uint8, minLen: uint8)
    requires Whole(f)
    ensures Checked(f, kind, minLen) == HeadCode(f, kind, minLen)
  {
    hide IdType;
    IdParts(f.id);
  }

  // ---- what is not written -----------------------------------------------------------------

  /** The identifier of an encoded frame, its version byte, and zeros wherever a message has no field. */
  predicate Headed(f: Frame, kind: nat, node: nat, fields: set<nat>)
    requires Whole(f)
  {
    f.id == 128 * kind + node && f.data[0] == 1 && forall i: nat :: 0 < i < 64 && i !in fields ==> f.data[i] == 0
  }

  lemma EncodersLeaveTheRest(node: uint8, hb: Heartbeat, c: Command, s: JointState, e: Emergency)
    requires node <= 127
    ensures Headed(EncodedHeartbeat(node, hb), 7, node, {1, 2, 3, 4, 5, 6, 7, 8, 9, 10})
    ensures Headed(EncodedCommand(node, c), 1, node, {1, 2, 3, 4, 5, 6, 7, 8, 9, 10, 11})
    ensures Headed(EncodedJointState(node, s), 2, node, {1, 2, 3, 4, 5, 6, 7, 8, 9, 10, 11, 12, 13, 14, 15})
    ensures Headed(EncodedEmergency(node, e), 0, node, {2, 3, 4, 5, 6, 7})
  {
    hide MakeId, GetU16, GetU32, PutU16, PutU32;
    MakeIdValue(MSG_HEARTBEAT, node);
    MakeIdValue(MSG_COMMAND, node);
    MakeIdValue(MSG_JOINT_STATE, node);
    MakeIdValue(MSG_EMERGENCY, node);
  }

  // ---- encode after decode ---------------------------------------------------------------

  /** Writing back the word that was read restores its bytes. */
  lemma PutBackU16(d: seq<uint8>, e: seq<uint8>, at: nat)
    requires at + 2 <= |d| && at + 2 <= |e|
    ensures PutU16(e, at, GetU16(d, at))[at..at + 2] == d[at..at + 2]
  {
    hide Byte, Word16, Word32;
    BytesRebuilt(d[at], d[at + 1], 0, 0);
  }

  lemma PutBackU32(d: seq<uint8>, e: seq<uint8>, at: nat)
    requires at + 4 <= |d| && at + 4 <= |e|
    ensures PutU32(e, at, GetU32(d, at))[at..at + 4] == d[at..at + 4]
  {
    hide Byte, Word16, Word32;
    BytesRebuilt(d[at], d[at + 1], d[at + 2], d[at + 3]);
  }

  /** Reading a word as signed and storing it again changes nothing. */
  lemma SignedStores(w: uint32)
    ensures ToUint32(ToInt32(w)) == w
  {
  }

  /**
    Every command the decoder accepts is one the encoder takes, and it comes out with the same first
    12 bytes and the same identifier, but for bits an 11-bit identifier cannot carry.
   */
  lemma CommandReencodes(f: Frame)
    requires Whole(f) && DecodedCommand(f).Ok?
    ensures var node, c := IdNode(f.id), DecodedCommand(f).value;
      && node <= 127 && CommandEncodable(node, c)
      && EncodedCommand(node, c).id == f.id % 2048
      && EncodedCommand(node, c).data[..12] == f.data[..12]
  {
    hide MakeId, IdType, IdNode, GetU16, GetU32, PutU16, PutU32;
    IdRebuilt(f.id);
    var node, c := IdNode(f.id), DecodedCommand(f).value;
    assert IdType(f.id) == MSG_COMMAND;
    SignedStores(GetU32(f.data, 2));
    SignedStores(GetU32(f.data, 6));
    var a := Started(MSG_COMMAND, node, COMMAND_LEN).data[1 := c.mode];
    var b := PutU32(a, 2, GetU32(f.data, 2));
    var d := PutU32(b, 6, GetU32(f.data, 6));
    var e := PutU16(d, 10, GetU16(f.data, 10));
    PutBackU32(f.data, a, 2);
    PutBackU32(f.data, b, 6);
    PutBackU16(f.data, d, 10);
    assert EncodedCommand(node, c).data == e;
    assert e[2..6] == b[2..6] && e[6..10] == d[6..10];
    Assembled(e, f.data);
  }

  lemma Assembled(e: seq<uint8>, d: seq<uint8>)
    requires |e| >= 12 && |d| >= 12 && e[0] == d[0] && e[1] == d[1]
    requires e[2..6] == d[2..6] && e[6..10] == d[6..10] && e[10..12] == d[10..12]
    ensures e[..12] == d[..12]
  {
    assert e[..12] == [e[0], e[1]] + e[2..6] + e[6..10] + e[10..12];
    assert d[..12] == [d[0], d[1]] + d[2..6] + d[6..10] + d[10..12];
  }

  // ---- the Python decoder ----------------------------------------------------------------

  /** Raw integers, as struct.unpack_from delivers them; the constructor is the kind of message. */
  datatype PyDecoded =
    | PyHeartbeat(node: int, state: int, flags: int, uptime: int, major: int, minor: int, patch: int)
    | PyCommand(node: int, mode: int, target: int, vmax: int, sequence: int)
    | PyJointState(node: int, mode: int, pos: int, vel: int, cur: int, temp: int, sequence: int)
    | PyEmergency(node: int, code: int, detail: int)
    | PyNone
    | PyValueError

  /** An n-byte little-endian unsigned field. */
  function Unsigned(data: seq<uint8>, at: nat, n: nat): nat
    requires at + n <= |data|
    decreases n
  {
    if n == 0 then 0 else data[at] + 256 * Unsigned(data, at + 1, n - 1)
  }

  /** An n-byte little-endian two's complement field. */
  function Signed(data: seq<uint8>, at: nat, n: nat): int
    requires n > 0 && at + n <= |data|
  {
    if data[at + n - 1] < 128 then Unsigned(data, at, n) else Unsigned(data, at, n) - Pow2(8 * n)
  }

  function PyDecode(id: uint16, data: seq<uint8>): PyDecoded {
    var kind, node := And(id / 128, 0x0F), And(id, 0x7F);
    if |data| < 1 || data[0] != 1 then PyValueError
    else if kind == 0x7 then
      if |data| < 12 then PyValueError
      else PyHeartbeat(node, Unsigned(data, 1, 1), Unsigned(data, 2, 2), Unsigned(data, 4, 4),
                       Unsigned(data, 8, 1), Unsigned(data, 9, 1), Unsigned(data, 10, 1))
    else if kind == 0x1 then
      if |data| < 12 then PyValueError
      else PyCommand(node, Unsigned(data, 1, 1), Signed(data, 2, 4), Signed(data, 6, 4), Unsigned(data, 10, 2))
    else if kind == 0x2 then
      if |data| < 16 then PyValueError
      else PyJointState(node, Unsigned(data, 1, 1), Signed(data, 2, 4), Signed(data, 6, 4), Signed(data, 10, 2),
                        Signed(data, 12, 2), Unsigned(data, 14, 2))
    else if kind == 0x0 then
      if |data| < 8 then PyValueError else PyEmergency(node, Unsigned(data, 2, 2), Unsigned(data, 4, 4))
    else PyNone
  }

  lemma FieldsAgree16(d: seq<uint8>, len: nat, at: nat)
    requires at + 2 <= len <= |d|
    ensures Unsigned(d[..len], at, 2) == GetU16(d, at)
    ensures Signed(d[..len], at, 2) == ToInt16(GetU16(d, at))
  {
    hide Word16, Word32;
    var e := d[..len];
    WordValue(d[at], d[at + 1], 0, 0);
    assert Unsigned(e, at + 1, 1) == d[at + 1] + 256 * Unsigned(e, at + 2, 0);
    Pow2Values();
  }

  lemma FieldsAgree32(d: seq<uint8>, len: nat, at: nat)
    requires at + 4 <= len <= |d|
    ensures Unsigned(d[..len], at, 4) == GetU32(d, at)
    ensures Signed(d[..len], at, 4) == ToInt32(GetU32(d, at))
  {
    hide Word16, Word32;
    var e := d[..len];
    WordValue(d[at], d[at + 1], d[at + 2], d[at + 3]);
    assert Unsigned(e, at + 3, 1) == d[at + 3] + 256 * Unsigned(e, at + 4, 0);
    assert Unsigned(e, at + 2, 2) == d[at + 2] + 256 * Unsigned(e, at + 3, 1);
    assert Unsigned(e, at + 1, 3) == d[at + 1] + 256 * Unsigned(e, at + 2, 2);
    Pow2Values();
  }

  lemma BytesAgree(d: seq<uint8>, len: nat, at: nat)
    requires at < len <= |d|
    ensures Unsigned(d[..len], at, 1) == d[at]
  {
    assert Unsigned(d[..len], at + 1, 0) == 0;
  }

  lemma KindsAgree(id: uint16)
    ensures And(id / 128, 0x0F) == IdType(id)
  {
    Pow2Values();
  }

  /** What Python reports for a heartbeat, a command, a joint state or an emergency that C decoded. */
  function PyOfHeartbeat(node: int, hb: Heartbeat): PyDecoded {
    PyHeartbeat(node, hb.state, hb.errorFlags, hb.uptime, hb.fwMajor, hb.fwMinor, hb.fwPatch)
  }

  function PyOfCommand(node: int, c: Command): PyDecoded {
    PyCommand(node, c.mode, c.target, c.maxVelocity, c.sequence)
  }

  function PyOfJointState(node: int, s: JointState): PyDecoded {
    PyJointState(node, s.mode, s.position, s.velocity, s.current, s.temperature, s.lastSequence)
  }

  function PyOfEmergency(node: int, e: Emergency): PyDecoded {
    PyEmergency(node, e.code, e.detail)
  }

  /**
    On every received frame the two decoders accept the same heartbeats with the same integers in
    every field, and likewise for the other messages below. For commands Python reports the bytes
    as they are, and C accepts exactly those among them that a joint may execute.
   */
  lemma HeartbeatDecodersAgree(f: Frame, hb: Heartbeat)
    requires Whole(f) && f.len as nat <= MAX_PAYLOAD
    ensures DecodedHeartbeat(f) == Ok(hb) <==> PyDecode(f.id, f.data[..f.len]) == PyOfHeartbeat(IdNode(f.id), hb)
  {
    hide And, IdType, GetU16, GetU32, Unsigned, Signed;
    KindsAgree(f.id);
    if f.len >= HEARTBEAT_LEN {
      FieldsAgree16(f.data, f.len, 2);
      FieldsAgree32(f.data, f.len, 4);
      BytesAgree(f.data, f.len, 1);
      BytesAgree(f.data, f.len, 8);
      BytesAgree(f.data, f.len, 9);
      BytesAgree(f.data, f.len, 10);
    }
  }

  lemma CommandDecodersAgree(f: Frame, c: Command)
    requires Whole(f) && f.len as nat <= MAX_PAYLOAD
    ensures DecodedCommand(f) == Ok(c)
       <==> PyDecode(f.id, f.data[..f.len]) == PyOfCommand(IdNode(f.id), c) && Executable(c)
  {
    hide And, IdType, GetU16, GetU32, Unsigned, Signed;
    KindsAgree(f.id);
    if f.len >= COMMAND_LEN {
      FieldsAgree32(f.data, f.len, 2);
      FieldsAgree32(f.data, f.len, 6);
      FieldsAgree16(f.data, f.len, 10);
      BytesAgree(f.data, f.len, 1);
    }
  }

  lemma JointStateDecodersAgree(f: Frame, s: JointState)
    requires Whole(f) && f.len as nat <= MAX_PAYLOAD
    ensures DecodedJointState(f) == Ok(s) <==> PyDecode(f.id, f.data[..f.len]) == PyOfJointState(IdNode(f.id), s)
  {
    hide And, IdType, GetU16, GetU32, Unsigned, Signed;
    KindsAgree(f.id);
    if f.len >= JOINT_STATE_LEN {
      FieldsAgree32(f.data, f.len, 2);
      FieldsAgree32(f.data, f.len, 6);
      FieldsAgree16(f.data, f.len, 10);
      FieldsAgree16(f.data, f.len, 12);
      FieldsAgree16(f.data, f.len, 14);
      BytesAgree(f.data, f.len, 1);
    }
  }

  lemma EmergencyDecodersAgree(f: Frame, e: Emergency)
    requires Whole(f) && f.len as nat <= MAX_PAYLOAD
    ensures DecodedEmergency(f) == Ok(e) <==> PyDecode(f.id, f.data[..f.len]) == PyOfEmergency(IdNode(f.id), e)
  {
    hide And, IdType, GetU16, GetU32, Unsigned, Signed;
    KindsAgree(f.id);
    if f.len >= EMERGENCY_LEN {
      FieldsAgree16(f.data, f.len, 2);
      FieldsAgree32(f.data, f.len, 4);
    }
  }
}
