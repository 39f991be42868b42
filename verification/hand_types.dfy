/** The values the SDK passes around: joints, commands and states. Angles are in degrees. */
module HandTypes {
  import opened Bytes

  const NUM_JOINTS: nat := 18

  /** The joints in declaration order, and NUM_JOINTS for "no such joint". */
  type JointId = i: nat | i <= NUM_JOINTS

  const THUMB_IP: JointId := 0
  const THUMB_MCP: JointId := 1
  const THUMB_TMC_FE: JointId := 2
  const THUMB_TMC_AA: JointId := 3
  const THUMB_TMC_PS: JointId := 4
  const FF_DIP: JointId := 5
  const FF_PIP: JointId := 6
  const FF_MCP: JointId := 7
  const FF_MCP_AA: JointId := 8
  const MF_DIP: JointId := 9
  const MF_PIP: JointId := 10
  const MF_MCP: JointId := 11
  const RF_DIP: JointId := 12
  const RF_PIP: JointId := 13
  const RF_MCP: JointId := 14
  const LF_DIP: JointId := 15
  const LF_PIP: JointId := 16
  const LF_MCP: JointId := 17

  type int8 = x: int | -128 <= x < 128
  type int16 = x: int | -32768 <= x < 32768
  type Code = x: int | 0 <= x < 256

  datatype ProductType = AUTO | GHand5 | GHandLite1

  datatype ControlMode = POSITION | TORQUE | SPEED

  datatype JointCommand = JointCommand(id: JointId, angle: real, velocity: int8, torque: int8)

  datatype Joint = Joint(id: JointId, state: Code, error: Code, angle: real, velocity: int8, torque: int8)

  datatype HandState = HandState(state: Code, error: Code, temperature: int16)

  function ModeNumber(mode: ControlMode): (n: nat)
    ensures n < 3
  {
    match mode
    case POSITION => 0
    case TORQUE => 1
    case SPEED => 2
  }

  /** The number a mode has on every transport. */
  predicate IsModeNumber(mode: ControlMode, n: int) {
    && 0 <= n <= 2
    && (mode == POSITION <==> n == 0) && (mode == TORQUE <==> n == 1) && (mode == SPEED <==> n == 2)
  }

  lemma ModeNumberIs(mode: ControlMode)
    ensures IsModeNumber(mode, ModeNumber(mode))
  {
  }

  /** The last command for a joint, the one that is left standing. */
  function LastFor(commands: seq<JointCommand>, id: JointId): (c: Option<JointCommand>)
    ensures c.Some? ==> c.value in commands && c.value.id == id
  {
    if commands == [] then None
    else
      var later := LastFor(commands[1..], id);
      if later.Some? then later else if commands[0].id == id then Some(commands[0]) else None
  }

  lemma {:induction false} LastForOneMore(commands: seq<JointCommand>, c: JointCommand, id: JointId)
    ensures LastFor(commands + [c], id) == if c.id == id then Some(c) else LastFor(commands, id)
  {
    if commands == [] {
      assert (commands + [c])[1..] == [];
    } else {
      assert (commands + [c])[1..] == commands[1..] + [c];
      LastForOneMore(commands[1..], c, id);
    }
  }
}
