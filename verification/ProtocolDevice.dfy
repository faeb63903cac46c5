/** The encoders and decoders as the firmware runs them: they fill frame buffers and records in place. */
module ProtocolDevice {
  import opened Bits
  import opened CIntegers
  import opened Messages
  import opened ProtocolModel

  /** A frame in memory, with its fixed 64-byte buffer. */
  class CanFrame {
    var id: uint16
    var len: uint8
    var fd: bool
    var brs: bool
    const data: array<uint8>

    ghost predicate Ok()
      reads this
    {
      data.Length == MAX_PAYLOAD
    }

    ghost function View(): (f: Frame)
      requires Ok()
      reads this, data
      ensures Whole(f)
    {
      Frame(id, len, fd, brs, data[..])
    }

    constructor ()
      ensures Ok() && fresh(data)
      ensures View() == Frame(0, 0, false, false, Zeros(MAX_PAYLOAD))
    {
      data := new uint8[MAX_PAYLOAD](_ => 0);
      id, len, fd, brs := 0, 0, false, false;
      new;
      assert data[..] == Zeros(MAX_PAYLOAD);
    }

    /** A frame copied out of a queue. */
    method Load(f: Frame)
      requires Ok() && Whole(f)
      modifies this, data
      ensures Ok() && View() == f
    {
      id, len, fd, brs := f.id, f.len, f.fd, f.brs;
      var i := 0;
      while i < MAX_PAYLOAD
        modifies data
        invariant 0 <= i <= MAX_PAYLOAD
        invariant forall k :: 0 <= k < i ==> data[k] == f.data[k]
      {
        data[i] := f.data[i];
        i := i + 1;
      }
      assert data[..] == f.data;
    }
  }

  /** The record a decoder writes its result to. */
  class Out<T> {
    var value: T

    constructor (initial: T)
      ensures value == initial
    {
      value := initial;
    }
  }

  // ---- bytes -----------------------------------------------------------------------------

  method StoreU16(p: array<uint8>, at: nat, v: uint16)
    requires at + 2 <= p.Length
    modifies p
    ensures p[..] == PutU16(old(p[..]), at, v)
  {
    ByteValue(v);
    TopByte16(v);
    p[at] := And(v, 0xFF);
    p[at + 1] := Shr(v, 8);
  }

  lemma TopByte16(v: uint16)
    ensures Shr(v, 8) == Byte(v, 1) && And(v, 0xFF) == Byte(v, 0)
  {
    hide And, Byte;
    TopByte32(v);
    ByteValue(v);
    Pow2Values();
    assert v / 0x100 % 0x100 == v / 0x100;
  }

  method StoreU32(p: array<uint8>, at: nat, v: uint32)
    requires at + 4 <= p.Length
    modifies p
    ensures p[..] == PutU32(old(p[..]), at, v)
  {
    hide Byte, And, Shr, GetU32, Word32;
    ByteValue(v);
    TopByte32(v);
    p[at] := And(v, 0xFF);
    p[at + 1] := And(Shr(v, 8), 0xFF);
    p[at + 2] := And(Shr(v, 16), 0xFF);
    p[at + 3] := Shr(v, 24);
    assert p[..] == old(p[..])[at := Byte(v, 0)][at + 1 := Byte(v, 1)][at + 2 := Byte(v, 2)][at + 3 := Byte(v, 3)];
  }

  lemma TopByte32(v: uint32)
    ensures Shr(v, 24) == Byte(v, 3) && And(v, 0xFF) == Byte(v, 0)
    ensures And(Shr(v, 8), 0xFF) == Byte(v, 1) && And(Shr(v, 16), 0xFF) == Byte(v, 2)
  {
    hide And;
    ByteValue(v);
    Pow2Values();
    assert Pow2(0) == 1;
  }

  method LoadU16(p: array<uint8>, at: nat) returns (v: uint16)
    requires at + 2 <= p.Length
    ensures v == GetU16(p[..], at)
  {
    WordValue(p[at], p[at + 1], 0, 0);
    v := Or(p[at], Shl(p[at + 1], 8));
  }

  method LoadU32(p: array<uint8>, at: nat) returns (v: uint32)
    requires at + 4 <= p.Length
    ensures v == GetU32(p[..], at)
  {
    WordValue(p[at], p[at + 1], p[at + 2], p[at + 3]);
    v := Or(Or(Or(p[at], Shl(p[at + 1], 8)), Shl(p[at + 2], 16)), Shl(p[at + 3], 24));
  }

  // ---- frames ----------------------------------------------------------------------------

  method FrameStart(out: CanFrame, kind: uint8, node: uint8, len: uint8)
    requires out.Ok()
    modifies out, out.data
    ensures out.Ok() && out.View() == Started(kind, node, len)
  {
    hide MakeId;
    MakeIdValue(kind, node);
    var i := 0;
    while i < MAX_PAYLOAD
      modifies out.data
      invariant 0 <= i <= MAX_PAYLOAD
      invariant forall k :: 0 <= k < i ==> out.data[k] == 0
    {
      out.data[i] := 0;
      i := i + 1;
    }
    out.id := MakeId(kind, node);
    out.len := len;
    out.fd := true;
    out.brs := true;
    out.data[0] := PROTOCOL_VERSION;
    assert out.data[..] == Zeros(MAX_PAYLOAD)[0 := PROTOCOL_VERSION];
  }

  method FrameCheck(frame: CanFrame?, kind: uint8, minLen: uint8) returns (c: Code)
    requires frame != null ==> frame.Ok()
    ensures c == if frame == null then BadParam else Checked(frame.View(), kind, minLen)
    ensures c == Fine <==> frame != null && frame.id / 128 % 16 == kind as nat && minLen <= frame.len <= 64
                           && frame.data[0] == 1
  {
    hide IdType;
    if frame != null {
      IdParts(frame.id);
    }
    if frame == null {
      return BadParam;
    }
    if IdType(frame.id) != kind {
      return BadType;
    }
    if frame.len < minLen || frame.len as nat > MAX_PAYLOAD {
      return BadLength;
    }
    if frame.data[0] != PROTOCOL_VERSION {
      return BadVersion;
    }
    return Fine;
  }

  // ---- HEARTBEAT -------------------------------------------------------------------------

  method EncodeHeartbeat(node: uint8, hb: Heartbeat, out: CanFrame?) returns (c: Code)
    requires out != null ==> out.Ok()
    modifies out, if out == null then {} else {out.data}
    ensures c == if out != null && 1 <= node <= 127 && hb.state <= 3 then Fine else BadParam
    ensures c == Fine ==> out.Ok() && out.View() == EncodedHeartbeat(node, hb)
    ensures c != Fine && out != null ==> out.Ok() && out.View() == old(out.View())
  {
    hide PutU16, PutU32, Started;
    if out == null || !(1 <= node <= NODE_ID_MAX) || hb.state > NODE_STATE_FAULT {
      return BadParam;
    }
    FrameStart(out, MSG_HEARTBEAT, node, HEARTBEAT_LEN);
    out.data[1] := hb.state;
    assert out.data[..] == Started(MSG_HEARTBEAT, node, HEARTBEAT_LEN).data[1 := hb.state];
    StoreU16(out.data, 2, hb.errorFlags);
    StoreU32(out.data, 4, hb.uptime);
    ghost var d: seq<uint8> := out.data[..];
    out.data[8] := hb.fwMajor;
    out.data[9] := hb.fwMinor;
    out.data[10] := hb.fwPatch;
    assert out.data[..] == d[8 := hb.fwMajor][9 := hb.fwMinor][10 := hb.fwPatch];
    return Fine;
  }

  method DecodeHeartbeat(frame: CanFrame?, out: Out?<Heartbeat>) returns (c: Code)
    requires frame != null ==> frame.Ok()
    modifies out
    ensures frame == null ==> c == BadParam
    ensures frame != null && out != null ==>
      match DecodedHeartbeat(old(frame.View()))
      case Ok(hb) => c == Fine && out.value == hb
      case Rejected(code) => c == code && out.value == old(out.value)
    ensures frame != null && out == null ==>
      c == var code := Checked(frame.View(), MSG_HEARTBEAT, HEARTBEAT_LEN); if code == Fine then BadParam else code
  {
    hide GetU16, GetU32, IdType;
    c := FrameCheck(frame, MSG_HEARTBEAT, HEARTBEAT_LEN);
    if c != Fine {
      return;
    }
    if out == null {
      return BadParam;
    }
    var flags := LoadU16(frame.data, 2);
    var uptime := LoadU32(frame.data, 4);
    out.value := Heartbeat(frame.data[1], flags, uptime, frame.data[8], frame.data[9], frame.data[10]);
  }

  // ---- COMMAND ---------------------------------------------------------------------------

  method EncodeCommand(node: uint8, cmd: Command, out: CanFrame?) returns (c: Code)
    requires out != null ==> out.Ok()
    modifies out, if out == null then {} else {out.data}
    ensures c == if out != null && node <= 127 && (cmd.mode == 0 || (cmd.mode == 1 && cmd.maxVelocity > 0)) then Fine
                 else BadParam
    ensures c == Fine ==> out.Ok() && out.View() == EncodedCommand(node, cmd)
    ensures c != Fine && out != null ==> out.Ok() && out.View() == old(out.View())
  {
    hide PutU16, PutU32, Started;
    if out == null || node > NODE_ID_MAX || cmd.mode > MODE_POSITION {
      return BadParam;
    }
    if cmd.mode == MODE_POSITION && cmd.maxVelocity <= 0 {
      return BadParam;
    }
    FrameStart(out, MSG_COMMAND, node, COMMAND_LEN);
    out.data[1] := cmd.mode;
    assert out.data[..] == Started(MSG_COMMAND, node, COMMAND_LEN).data[1 := cmd.mode];
    StoreU32(out.data, 2, ToUint32(cmd.target));
    StoreU32(out.data, 6, ToUint32(cmd.maxVelocity));
    StoreU16(out.data, 10, cmd.sequence);
    return Fine;
  }

  method DecodeCommand(frame: CanFrame?, out: Out?<Command>) returns (c: Code)
    requires frame != null ==> frame.Ok()
    modifies out
    ensures frame == null ==> c == BadParam
    ensures frame != null && out != null ==>
      match DecodedCommand(old(frame.View()))
      case Ok(cmd) => c == Fine && out.value == cmd
      case Rejected(code) => c == code && out.value == old(out.value)
    ensures frame != null && out == null ==>
      c == var code := Checked(frame.View(), MSG_COMMAND, COMMAND_LEN); if code == Fine then BadParam else code
  {
    hide GetU16, GetU32, IdType;
    c := FrameCheck(frame, MSG_COMMAND, COMMAND_LEN);
    if c != Fine {
      return;
    }
    if out == null {
      return BadParam;
    }
    var target := LoadU32(frame.data, 2);
    var maxVelocity := LoadU32(frame.data, 6);
    var sequence := LoadU16(frame.data, 10);
    var tmp := Command(frame.data[1], ToInt32(target), ToInt32(maxVelocity), sequence);
    if tmp.mode > MODE_POSITION || (tmp.mode == MODE_POSITION && tmp.maxVelocity <= 0) {
      return BadParam;
    }
    out.value := tmp;
  }

  // ---- JOINT_STATE -----------------------------------------------------------------------

  method EncodeJointState(node: uint8, s: JointState, out: CanFrame?) returns (c: Code)
    requires out != null ==> out.Ok()
    modifies out, if out == null then {} else {out.data}
    ensures c == if out != null && 1 <= node <= 127 then Fine else BadParam
    ensures c == Fine ==> out.Ok() && out.View() == EncodedJointState(node, s)
    ensures c != Fine && out != null ==> out.Ok() && out.View() == old(out.View())
  {
    hide PutU16, PutU32, Started;
    if out == null || !(1 <= node <= NODE_ID_MAX) {
      return BadParam;
    }
    FrameStart(out, MSG_JOINT_STATE, node, JOINT_STATE_LEN);
    out.data[1] := s.mode;
    assert out.data[..] == Started(MSG_JOINT_STATE, node, JOINT_STATE_LEN).data[1 := s.mode];
    StoreU32(out.data, 2, ToUint32(s.position));
    StoreU32(out.data, 6, ToUint32(s.velocity));
    StoreU16(out.data, 10, ToUint16(s.current));
    StoreU16(out.data, 12, ToUint16(s.temperature));
    StoreU16(out.data, 14, s.lastSequence);
    return Fine;
  }

  method DecodeJointState(frame: CanFrame?, out: Out?<JointState>) returns (c: Code)
    requires frame != null ==> frame.Ok()
    modifies out
    ensures frame == null ==> c == BadParam
    ensures frame != null && out != null ==>
      match DecodedJointState(old(frame.View()))
      case Ok(s) => c == Fine && out.value == s
      case Rejected(code) => c == code && out.value == old(out.value)
    ensures frame != null && out == null ==>
      c == var code := Checked(frame.View(), MSG_JOINT_STATE, JOINT_STATE_LEN); if code == Fine then BadParam else code
  {
    hide GetU16, GetU32, IdType;
    c := FrameCheck(frame, MSG_JOINT_STATE, JOINT_STATE_LEN);
    if c != Fine {
      return;
    }
    if out == null {
      return BadParam;
    }
    var position := LoadU32(frame.data, 2);
    var velocity := LoadU32(frame.data, 6);
    var current := LoadU16(frame.data, 10);
    var temperature := LoadU16(frame.data, 12);
    var sequence := LoadU16(frame.data, 14);
    out.value := JointState(ToInt32(position), ToInt32(velocity), ToInt16(current), ToInt16(temperature), sequence,
                            frame.data[1]);
  }

  // ---- EMERGENCY -------------------------------------------------------------------------

  method EncodeEmergency(node: uint8, e: Emergency, out: CanFrame?) returns (c: Code)
    requires out != null ==> out.Ok()
    modifies out, if out == null then {} else {out.data}
    ensures c == if out != null && 1 <= node <= 127 then Fine else BadParam
    ensures c == Fine ==> out.Ok() && out.View() == EncodedEmergency(node, e)
    ensures c != Fine && out != null ==> out.Ok() && out.View() == old(out.View())
  {
    hide PutU16, PutU32, Started;
    if out == null || !(1 <= node <= NODE_ID_MAX) {
      return BadParam;
    }
    FrameStart(out, MSG_EMERGENCY, node, EMERGENCY_LEN);
    StoreU16(out.data, 2, e.code);
    StoreU32(out.data, 4, e.detail);
    return Fine;
  }

  method DecodeEmergency(frame: CanFrame?, out: Out?<Emergency>) returns (c: Code)
    requires frame != null ==> frame.Ok()
    modifies out
    ensures frame == null ==> c == BadParam
    ensures frame != null && out != null ==>
      match DecodedEmergency(old(frame.View()))
      case Ok(e) => c == Fine && out.value == e
      case Rejected(code) => c == code && out.value == old(out.value)
    ensures frame != null && out == null ==>
      c == var code := Checked(frame.View(), MSG_EMERGENCY, EMERGENCY_LEN); if code == Fine then BadParam else code
  {
    hide GetU16, GetU32, IdType;
    c := FrameCheck(frame, MSG_EMERGENCY, EMERGENCY_LEN);
    if c != Fine {
      return;
    }
    if out == null {
      return BadParam;
    }
    var code := LoadU16(frame.data, 2);
    var detail := LoadU32(frame.data, 4);
    out.value := Emergency(code, detail);
  }
}
