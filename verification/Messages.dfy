/** The records of the wire protocol, common/protocol/include/rjs/protocol.h. */
module Messages {
  import opened CIntegers

  const PROTOCOL_VERSION: uint8 := 1
  const NODE_BROADCAST: uint8 := 0
  const NODE_ID_MAX: uint8 := 127

  const MSG_EMERGENCY: uint8 := 0x0
  const MSG_COMMAND: uint8 := 0x1
  const MSG_JOINT_STATE: uint8 := 0x2
  const MSG_HEARTBEAT: uint8 := 0x7

  const NODE_STATE_PREOP: uint8 := 1
  const NODE_STATE_OPERATIONAL: uint8 := 2
  const NODE_STATE_FAULT: uint8 := 3

  const MODE_DISABLED: uint8 := 0
  const MODE_POSITION: uint8 := 1

  // The error flags a joint raises, as bit numbers and as masks.
  const BIT_PEER_LOST: nat := 3
  const BIT_LIMIT_REACHED: nat := 5
  const ERR_PEER_LOST: uint16 := 0x0008
  const ERR_LIMIT_REACHED: uint16 := 0x0020

  datatype Heartbeat = Heartbeat(state: uint8, errorFlags: uint16, uptime: uint32, fwMajor: uint8, fwMinor: uint8,
                                 fwPatch: uint8)

  datatype Command = Command(mode: uint8, target: int32, maxVelocity: int32, sequence: uint16)

  datatype JointState = JointState(position: int32, velocity: int32, current: int16, temperature: int16,
                                   lastSequence: uint16, mode: uint8)

  datatype Emergency = Emergency(code: uint16, detail: uint32)

  /** What the COMMAND decoder lets through: the only commands a joint is ever given. */
  predicate Executable(c: Command) {
    c.mode <= MODE_POSITION && (c.mode == MODE_POSITION ==> c.maxVelocity > 0)
  }
}
