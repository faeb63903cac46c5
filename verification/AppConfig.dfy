/** The constants of app/joint_node/app.c. */
module AppConfig {
  import opened CIntegers
  import J = JointModel

  const RX_QUEUE_DEPTH: nat := 32
  const CMD_QUEUE_DEPTH: nat := 4
  const VIEW_PEERS: nat := 4
  const CONTROLLER_NODE_ID: uint8 := 1
  const CONTROL_PERIOD_MS: uint32 := 1
  const JOINT_STATE_PERIOD_MS: uint32 := 10
  const PEER_TIMEOUT_MS: uint32 := 350
  const SWEEP_HALF_PERIOD_MS: uint32 := 3000
  const SWEEP_AMPLITUDE_MDEG: int32 := 90000
  const SWEEP_VELOCITY_MDEG_S: int32 := 90000

  /** 170 degrees to either side, 360 degrees per second squared, half a second without commands. */
  const JOINT_CONFIG: J.Config := J.Config(-170000, 170000, 360000, 500)
}
