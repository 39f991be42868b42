/** A joint command list from the API to the device, over any of the three transports. */
module Moves {
  import opened Bytes
  import opened HandTypes
  import opened ProductConfiguration
  import opened CommandShaping
  import opened ModbusCodec
  import opened ModbusDevice
  import opened JointMotion
  import EthercatPdo

  /** What GHandImpl hands to a transport. */
  function Shaped(config: ProductConfig, mode: ControlMode, commands: seq<JointCommand>): seq<JointCommand> {
    Shape(config, mode, config.validJoints, commands)
  }

  /** The command a joint gets: its first one, inside its limits. */
  function Effective(config: ProductConfig, mode: ControlMode, commands: seq<JointCommand>, id: JointId): Option<JointCommand> {
    if IsCommanded(config, config.validJoints, commands, id)
    then Some(Limited(config, mode, FirstFor(commands, id).value)) else None
  }

  /** That is, the one that comes nearest to the joint's first command, if it is listed, has
      limits and is commanded. */
  lemma EffectiveComesNearest(config: ProductConfig, mode: ControlMode, commands: seq<JointCommand>, id: JointId)
    requires JointsAreSound(config)
    ensures Effective(config, mode, commands, id).Some? <==>
            id in config.validJoints && id in config.jointLimits && exists c :: c in commands && c.id == id
    ensures forall q: nat :: q < |commands| && IsFirstFor(commands, id, q) && Effective(config, mode, commands, id).Some? ==>
      ComesNearest(config.jointLimits[id], mode, commands[q], Effective(config, mode, commands, id).value)
  {
    hide Limited, FirstFor, ComesNearest, IsFirstFor;
    forall q: nat | q < |commands| && IsFirstFor(commands, id, q) && Effective(config, mode, commands, id).Some?
      ensures ComesNearest(config.jointLimits[id], mode, commands[q], Effective(config, mode, commands, id).value)
    {
      FirstForIs(commands, id, q);
      LimitedComesNearest(config, mode, commands[q]);
    }
  }

  predicate LimitsAreEncodable(config: ProductConfig) {
    forall id :: id in config.jointLimits ==> Encodable(config.jointLimits[id].min) && Encodable(config.jointLimits[id].max)
  }

  /** Shaping takes the first command of a joint, the transports the last: what is left is one. */
  lemma OneCommandIsLeft(config: ProductConfig, mode: ControlMode, commands: seq<JointCommand>, id: JointId)
    ensures LastFor(Shaped(config, mode, commands), id) == Effective(config, mode, commands, id)
  {
    hide Limited, FirstFor, LastFor, IsCommanded, Shape;
    var out := Shaped(config, mode, commands);
    ShapeSelects(config, mode, config.validJoints, commands);
    LastForIffPresent(out, id);
    assert GetsCommand(out, id) <==> IsCommanded(config, config.validJoints, commands, id);
    if LastFor(out, id).Some? {
      var k :| 0 <= k < |out| && out[k] == LastFor(out, id).value;
      assert out[k].id == id;
    }
  }

  lemma {:induction false} LastForIffPresent(commands: seq<JointCommand>, id: JointId)
    ensures LastFor(commands, id).Some? <==> GetsCommand(commands, id)
  {
    if commands != [] {
      LastForIffPresent(commands[1..], id);
      if commands[0].id == id {
        assert GetsCommand(commands, id);
      }
      if GetsCommand(commands[1..], id) {
        var k :| 0 <= k < |commands[1..]| && commands[1..][k].id == id;
        assert commands[k + 1].id == id;
      }
      if GetsCommand(commands, id) && commands[0].id != id {
        var k :| 0 <= k < |commands| && commands[k].id == id;
        assert commands[1..][k - 1].id == id;
      }
    }
  }

  lemma EncodableBetween(lo: real, x: real, hi: real)
    requires Encodable(lo) && Encodable(hi) && lo <= x <= hi
    ensures Encodable(x)
  {
  }

  /** Limits that can be encoded make every list that is sent one that can be encoded. */
  lemma ShapedIsEncodable(config: ProductConfig, mode: ControlMode, commands: seq<JointCommand>)
    requires JointsAreSound(config) && LimitsAreEncodable(config)
    ensures forall c :: c in Shaped(config, mode, commands) ==> Encodable(c.angle)
  {
    hide Limited, FirstFor, Shape, IsCommanded, Encodable;
    var out := Shaped(config, mode, commands);
    ShapeSelects(config, mode, config.validJoints, commands);
    forall k | 0 <= k < |out|
      ensures Encodable(out[k].angle)
    {
      var id := out[k].id;
      CommandedHasLimits(config, commands, id);
      var l := config.jointLimits[id];
      SentCommandsAreInRange(config, mode, FirstFor(commands, id).value);
      EncodableBetween(l.min, out[k].angle, l.max);
    }
  }

  lemma CommandedHasLimits(config: ProductConfig, commands: seq<JointCommand>, id: JointId)
    requires IsCommanded(config, config.validJoints, commands, id)
    ensures id in config.jointLimits && FirstFor(commands, id).Some? && FirstFor(commands, id).value.id == id
  {
  }

  /** A register that belongs to no joint the list commands. */
  predicate Untouched(config: ProductConfig, mode: ControlMode, control: map<JointId, u16>, commands: seq<JointCommand>, r: int) {
    && !IsModeRegister(config, r)
    && forall id :: id in control && Effective(config, mode, commands, id).Some? ==> !InBlock(config, control, id, r)
  }

  /** From the API to the registers, over RS485 or CAN-FD: after a move the device accepted,
      exactly the joints that are listed, limited, commanded and mapped show their first
      command, inside its limits, and every other register but the mode is as it was. */
  lemma MoveReachesTheRegisters(s: DeviceState, config: ProductConfig, mode: ControlMode, control: map<JointId, u16>,
                                commands: seq<JointCommand>)
    requires JointsAreSound(config) && LimitsAreEncodable(config) && Separate(config, control)
    ensures Sendable(control, Shaped(config, mode, commands))
    ensures var (after, ok) := s.Run(Writes(config, mode, control, Shaped(config, mode, commands)));
            ok ==>
              && (forall id :: id in control && Effective(config, mode, commands, id).Some? ==>
                    ShowsCommand(after.file, config, mode, control[id], Effective(config, mode, commands, id).value))
              && (forall r :: Untouched(config, mode, control, commands, r) ==> SameAt(after.file, s.file, r))
  {
    hide Shape, Limited, Encodable, Separate, Writes, ShowsCommand, DeviceState.Run, JointsAreSound, LimitsAreEncodable,
         Effective, SameAt, InBlock, IsModeRegister;
    ShapedIsEncodable(config, mode, commands);
    var shaped := Shaped(config, mode, commands);
    var (after, ok) := s.Run(Writes(config, mode, control, shaped));
    if ok {
      MoveSetsTheCommandedRegistersOnly(s, config, mode, control, shaped);
      forall id: JointId
        ensures LastFor(shaped, id) == Effective(config, mode, commands, id)
      {
        OneCommandIsLeft(config, mode, commands, id);
      }
      forall r | Untouched(config, mode, control, commands, r)
        ensures SameAt(after.file, s.file, r)
      {
        assert !Commanded(config, control, shaped, r);
      }
    }
  }

  /** From the API to the process data of EtherCAT: every joint with limits has one slot, and
      in it its first command inside its limits, or the default. */
  lemma MoveReachesTheProcessData(float: real -> EthercatPdo.FloatBytes, config: ProductConfig, mode: ControlMode,
                                  commands: seq<JointCommand>, i: nat)
    requires JointsAreSound(config) && LimitsAreEncodable(config) && i < |EthercatPdo.SlotOrder(config)|
    ensures EthercatPdo.Encodes(config, Shaped(config, mode, commands))
    ensures var pdo, id := EthercatPdo.Pdo(float, config, mode, Shaped(config, mode, commands)), EthercatPdo.SlotOrder(config)[i];
            var at := |EthercatPdo.Header(config, mode)| + EthercatPdo.SLOT * i;
            && at + EthercatPdo.SLOT <= |pdo| && id in config.jointLimits
            && EthercatPdo.SlotConveys(float, config, mode, Shaped(config, mode, commands), id, pdo[at..at + EthercatPdo.SLOT])
            && LastFor(Shaped(config, mode, commands), id) == Effective(config, mode, commands, id)
  {
    hide Shape, Limited, Encodable, LimitsAreEncodable, Effective, EthercatPdo.SlotConveys, EthercatPdo.Pdo;
    ShapedIsEncodable(config, mode, commands);
    EthercatPdo.EachJointOwnsASlot(float, config, mode, Shaped(config, mode, commands));
    OneCommandIsLeft(config, mode, commands, EthercatPdo.SlotOrder(config)[i]);
  }
}
