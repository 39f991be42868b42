/** What a joint command list becomes before it reaches a transport: controllable joints
    only, in the product's order, each once, inside its limits. */
module CommandShaping {
  import opened Bytes
  import opened HandTypes
  import opened ProductConfiguration

  const FULL: int := 100

  function Magnitude(x: int): int {
    if x < 0 then -x else x
  }

  function Clamp(x: int, lo: int, hi: int): int {
    if x < lo then lo else if x > hi then hi else x
  }

  function ClampAngle(l: Limits, angle: real): real {
    if angle < l.min then l.min else if angle > l.max then l.max else angle
  }

  /** A signed percentage where the mode has a direction, a magnitude where it has not. The
      magnitude of -128 does not fit eight bits, and position mode, which narrows it before
      it clamps it, leaves -128 as it is. */
  function VelocityIn(mode: ControlMode, v: int8): int8 {
    match mode
    case POSITION => if v == -128 then -128 else Clamp(Magnitude(v), 0, FULL)
    case TORQUE => Clamp(Magnitude(v), 0, FULL)
    case SPEED => Clamp(v, -FULL, FULL)
  }

  function TorqueIn(mode: ControlMode, t: int8): int8 {
    if mode == TORQUE then Clamp(t, -FULL, FULL) else Clamp(Magnitude(t), 0, FULL)
  }

  function Limited(config: ProductConfig, mode: ControlMode, c: JointCommand): JointCommand
    requires c.id in config.jointLimits
  {
    JointCommand(c.id, ClampAngle(config.jointLimits[c.id], c.angle),
                 VelocityIn(mode, c.velocity), TorqueIn(mode, c.torque))
  }

  /** The first command for a joint. */
  function FirstFor(commands: seq<JointCommand>, id: JointId): (r: Option<JointCommand>)
    ensures r.Some? ==> r.value in commands && r.value.id == id
    ensures r.None? <==> forall c :: c in commands ==> c.id != id
  {
    if commands == [] then None
    else if commands[0].id == id then Some(commands[0])
    else FirstFor(commands[1..], id)
  }

  /** The commands sent for the first joints of a product's list. */
  function Shape(config: ProductConfig, mode: ControlMode, joints: seq<JointId>,
                 commands: seq<JointCommand>): seq<JointCommand> {
    if joints == [] then []
    else
      var before, id := Shape(config, mode, joints[..|joints| - 1], commands), joints[|joints| - 1];
      var command := FirstFor(commands, id);
      if id in config.jointLimits && command.Some? then before + [Limited(config, mode, command.value)] else before
  }

  /** Narrowing changes no percentage, and of the magnitudes only 128. */
  lemma SmallIsSigned8(x: int)
    requires 0 <= x <= 128
    ensures Signed8(x) == if x == 128 then -128 else x
  {
  }

  datatype SdkError = OK | NOT_CONNECTED | INVALID_ARGUMENT | TRANSPORT_ERROR

  class GHandImpl {
    const config: ProductConfig
    var controlMode: ControlMode
    var connected: bool
    var lastResult: SdkError
    var sent: seq<(seq<JointCommand>, ControlMode)>     // every command list handed to the transport

    constructor (config: ProductConfig)
      ensures this.config == config && controlMode == POSITION && !connected && lastResult == OK && sent == []
    {
      this.config := config;
      controlMode, connected, lastResult, sent := POSITION, false, OK, [];
    }

    method MoveJoints(joints: seq<JointCommand>, delivered: bool) returns (ok: bool)
      modifies `lastResult, `sent
      ensures var shaped := Shape(config, controlMode, config.validJoints, joints);
              if !connected then !ok && lastResult == NOT_CONNECTED && sent == old(sent)
              else if shaped == [] then !ok && lastResult == INVALID_ARGUMENT && sent == old(sent)
              else ok == delivered && lastResult == (if delivered then OK else TRANSPORT_ERROR) &&
                   sent == old(sent) + [(shaped, controlMode)]
    {
      if !connected {
        lastResult := NOT_CONNECTED;
        return false;
      }
      var valid := config.validJoints;
      if joints == [] {
        NothingCommanded(config, controlMode, valid);
        lastResult := INVALID_ARGUMENT;
        return false;
      }
      var ordered: seq<JointCommand> := [];
      for i := 0 to |valid|
        invariant ordered == Shape(config, controlMode, valid[..i], joints)
        invariant sent == old(sent)
      {
        assert valid[..i + 1][..i] == valid[..i];
        if valid[i] !in config.jointLimits { continue; }
        var k := 0;
        while k < |joints| && joints[k].id != valid[i]
          invariant 0 <= k <= |joints|
          invariant FirstFor(joints, valid[i]) == FirstFor(joints[k..], valid[i])
        {
          k := k + 1;
        }
        if k < |joints| {
          var limited := ClampJointAngle(joints[k]);
          limited := ClampJointVelocity(limited);
          limited := ClampJointTorque(limited);
          ordered := ordered + [limited];
        }
      }
      assert valid[..|valid|] == valid;
      if ordered == [] {
        lastResult := INVALID_ARGUMENT;
        return false;
      }
      sent := sent + [(ordered, controlMode)];
      lastResult := if delivered then OK else TRANSPORT_ERROR;
      return delivered;
    }

    method ClampJointAngle(joint: JointCommand) returns (limited: JointCommand)
      ensures limited == if joint.id in config.jointLimits
                         then joint.(angle := ClampAngle(config.jointLimits[joint.id], joint.angle)) else joint
    {
      limited := joint;
      if joint.id !in config.jointLimits {
        return;
      }
      var l := config.jointLimits[joint.id];
      if joint.angle < l.min {
        limited := limited.(angle := l.min);
      } else if joint.angle > l.max {
        limited := limited.(angle := l.max);
      }
    }

    method ClampJointVelocity(joint: JointCommand) returns (limited: JointCommand)
      ensures limited == joint.(velocity := VelocityIn(controlMode, joint.velocity))
    {
      hide Signed8;
      limited := joint;
      match controlMode
      case POSITION =>
        if limited.velocity < 0 {
          SmallIsSigned8(Magnitude(limited.velocity));
          limited := limited.(velocity := Signed8(Magnitude(limited.velocity)));
        }
        if limited.velocity > 100 {
          limited := limited.(velocity := 100);
        }
      case TORQUE =>
        var velocity: int := joint.velocity;
        if velocity > 100 {
          velocity := 100;
        } else if velocity < -100 {
          velocity := 100;
        } else if velocity < 0 {
          velocity := -velocity;
        }
        SmallIsSigned8(velocity);
        limited := limited.(velocity := Signed8(velocity));
      case SPEED =>
        if limited.velocity < -100 {
          limited := limited.(velocity := -100);
        } else if limited.velocity > 100 {
          limited := limited.(velocity := 100);
        }
    }

    method ClampJointTorque(joint: JointCommand) returns (limited: JointCommand)
      ensures limited == joint.(torque := TorqueIn(controlMode, joint.torque))
    {
      hide Signed8;
      limited := joint;
      if controlMode == POSITION || controlMode == SPEED {
        if limited.torque < 0 {
          var magnitude := Magnitude(limited.torque);
          if magnitude > 100 {
            magnitude := 100;
          }
          SmallIsSigned8(magnitude);
          limited := limited.(torque := Signed8(magnitude));
        }
        if limited.torque > 100 {
          limited := limited.(torque := 100);
        }
      } else {
        if limited.torque < -100 {
          limited := limited.(torque := -100);
        } else if limited.torque > 100 {
          limited := limited.(torque := 100);
        }
      }
    }
  }

  // ---- What a shaped list is ----

  lemma {:induction false} NothingCommanded(config: ProductConfig, mode: ControlMode, joints: seq<JointId>)
    ensures Shape(config, mode, joints, []) == []
  {
    if joints != [] {
      NothingCommanded(config, mode, joints[..|joints| - 1]);
    }
  }

  predicate VelocityInRange(mode: ControlMode, v: int) {
    if mode == SPEED then -FULL <= v <= FULL else 0 <= v <= FULL
  }

  predicate TorqueInRange(mode: ControlMode, t: int) {
    if mode == TORQUE then -FULL <= t <= FULL else 0 <= t <= FULL
  }

  function Position(joints: seq<JointId>, id: JointId): (i: nat)
    requires id in joints
    ensures i < |joints| && joints[i] == id
  {
    if joints[0] == id then 0 else 1 + Position(joints[1..], id)
  }

  predicate IsCommanded(config: ProductConfig, joints: seq<JointId>, commands: seq<JointCommand>, id: JointId) {
    id in joints && id in config.jointLimits && FirstFor(commands, id).Some?
  }

  ghost predicate GetsCommand(out: seq<JointCommand>, id: JointId) {
    exists k :: 0 <= k < |out| && out[k].id == id
  }

  /** Exactly the joints that are listed, have limits and are commanded get a command, and
      it is their first one, limited. */
  lemma {:induction false} ShapeSelects(config: ProductConfig, mode: ControlMode, joints: seq<JointId>,
                                        commands: seq<JointCommand>)
    ensures var out := Shape(config, mode, joints, commands);
            && (forall id :: GetsCommand(out, id) <==> IsCommanded(config, joints, commands, id))
            && (forall k :: 0 <= k < |out| ==>
                  IsCommanded(config, joints, commands, out[k].id) &&
                  out[k] == Limited(config, mode, FirstFor(commands, out[k].id).value))
  {
    hide Limited, FirstFor;
    if joints != [] {
      var before, last := joints[..|joints| - 1], joints[|joints| - 1];
      ShapeSelects(config, mode, before, commands);
      assert joints == before + [last];
      var early, out := Shape(config, mode, before, commands), Shape(config, mode, joints, commands);
      LimitedKeepsId(config, mode, commands, last);
      forall k | 0 <= k < |out|
        ensures IsCommanded(config, joints, commands, out[k].id)
        ensures out[k] == Limited(config, mode, FirstFor(commands, out[k].id).value)
      {
        if k < |early| {
          assert out[k] == early[k] && IsCommanded(config, before, commands, early[k].id);
        } else {
          assert out[k].id == last && joints[|joints| - 1] == last;
        }
      }
      forall id
        ensures GetsCommand(out, id) <==> IsCommanded(config, joints, commands, id)
      {
        assert GetsCommand(early, id) <==> IsCommanded(config, before, commands, id);
        if GetsCommand(early, id) {
          var k :| 0 <= k < |early| && early[k].id == id;
          assert out[k].id == id;
        }
        if id == last && out != early {
          assert out[|early|].id == id;
        }
      }
    }
  }

  lemma LimitedKeepsId(config: ProductConfig, mode: ControlMode, commands: seq<JointCommand>, id: JointId)
    ensures id in config.jointLimits && FirstFor(commands, id).Some? ==>
            Limited(config, mode, FirstFor(commands, id).value).id == id
  {
  }

  /** Each joint gets one command, in the order in which the product lists its joints. */
  lemma {:induction false} ShapeKeepsOrder(config: ProductConfig, mode: ControlMode, joints: seq<JointId>,
                                           commands: seq<JointCommand>)
    requires Distinct(joints)
    ensures var out := Shape(config, mode, joints, commands);
            forall a, b :: 0 <= a < b < |out| ==>
              out[a].id in joints && out[b].id in joints && Position(joints, out[a].id) < Position(joints, out[b].id)
  {
    hide Limited, FirstFor;
    ShapeSelects(config, mode, joints, commands);
    if joints != [] {
      var before, last := joints[..|joints| - 1], joints[|joints| - 1];
      assert joints == before + [last];
      DistinctOneMore(before, last);
      ShapeKeepsOrder(config, mode, before, commands);
      LimitedKeepsId(config, mode, commands, last);
      forall id | id in joints
        ensures Position(joints, id) == if id in before then Position(before, id) else |before|
      {
        PositionOneMore(before, last, id);
      }
      var early, out := Shape(config, mode, before, commands), Shape(config, mode, joints, commands);
      assert early <= out && |out| <= |early| + 1;
      forall a, b | 0 <= a < b < |out|
        ensures out[a].id in joints && out[b].id in joints && Position(joints, out[a].id) < Position(joints, out[b].id)
      {
        ShapeSelects(config, mode, before, commands);
        assert out[a] == early[a] && IsCommanded(config, before, commands, early[a].id);
        if b < |early| {
          assert out[b] == early[b] && IsCommanded(config, before, commands, early[b].id);
        } else {
          assert out[b].id == last;
        }
      }
    }
  }

  lemma {:induction false} PositionOneMore(before: seq<JointId>, last: JointId, id: JointId)
    requires id in before + [last]
    ensures Position(before + [last], id) == if id in before then Position(before, id) else |before|
  {
    if before != [] && before[0] != id {
      assert (before + [last])[1..] == before[1..] + [last];
      PositionOneMore(before[1..], last, id);
    }
  }

  /** Everything that is sent is inside the joint's limits and the mode's ranges, except that
      a velocity is inside iff it did not start as -128 in position mode. */
  lemma SentCommandsAreInRange(config: ProductConfig, mode: ControlMode, c: JointCommand)
    requires c.id in config.jointLimits && config.jointLimits[c.id].min <= config.jointLimits[c.id].max
    ensures var out, l := Limited(config, mode, c), config.jointLimits[c.id];
            && l.min <= out.angle <= l.max
            && TorqueInRange(mode, out.torque)
            && (VelocityInRange(mode, out.velocity) <==> !(mode == POSITION && c.velocity == -128))
            && (l.min <= c.angle <= l.max ==> out.angle == c.angle)
            && (TorqueInRange(mode, c.torque) ==> out.torque == c.torque)
            && (VelocityInRange(mode, c.velocity) ==> out.velocity == c.velocity)
  {
  }

  /** No number from `lo` to `hi` is nearer to `wanted`. */
  ghost predicate IsNearest(x: int, lo: int, hi: int, wanted: int) {
    lo <= x <= hi && forall y :: lo <= y <= hi ==> Distance(x, wanted) <= Distance(y, wanted)
  }

  function Distance(a: int, b: int): nat {
    if a < b then b - a else a - b
  }

  ghost predicate IsNearestAngle(x: real, l: Limits, wanted: real) {
    && l.min <= x <= l.max
    && (x < wanted ==> x == l.max) && (x > wanted ==> x == l.min)
    && forall y :: l.min <= y <= l.max ==> RealDistance(x, wanted) <= RealDistance(y, wanted)
  }

  function RealDistance(a: real, b: real): real {
    if a < b then b - a else a - b
  }

  /** What a joint is sent is what comes nearest to its command: an angle inside the limits;
      a velocity and a torque from -100 to 100 where the mode gives them a direction, and
      otherwise from 0 to 100 nearest to the magnitude; all but a velocity of -128 in
      position mode, which is sent as it is. */
  ghost predicate ComesNearest(l: Limits, mode: ControlMode, c: JointCommand, out: JointCommand) {
    && out.id == c.id && IsNearestAngle(out.angle, l, c.angle)
    && (if mode == TORQUE then IsNearest(out.torque, -100, 100, c.torque)
        else IsNearest(out.torque, 0, 100, Distance(c.torque, 0)))
    && (if mode == SPEED then IsNearest(out.velocity, -100, 100, c.velocity)
        else if mode == POSITION && c.velocity == -128 then out.velocity == -128
        else IsNearest(out.velocity, 0, 100, Distance(c.velocity, 0)))
  }

  lemma LimitedComesNearest(config: ProductConfig, mode: ControlMode, c: JointCommand)
    requires c.id in config.jointLimits && config.jointLimits[c.id].min <= config.jointLimits[c.id].max
    ensures ComesNearest(config.jointLimits[c.id], mode, c, Limited(config, mode, c))
  {
  }

  /** Nothing else does. */
  lemma OneComesNearest(l: Limits, mode: ControlMode, c: JointCommand, a: JointCommand, b: JointCommand)
    requires ComesNearest(l, mode, c, a) && ComesNearest(l, mode, c, b)
    ensures a == b
  {
    hide Distance, RealDistance, IsNearest, IsNearestAngle;
    NearestAngles(a.angle, b.angle, l, c.angle);
    if mode == TORQUE {
      NearestIsOne(a.torque, b.torque, -100, 100, c.torque);
    } else {
      NearestIsOne(a.torque, b.torque, 0, 100, Distance(c.torque, 0));
    }
    if mode == SPEED {
      NearestIsOne(a.velocity, b.velocity, -100, 100, c.velocity);
    } else if !(mode == POSITION && c.velocity == -128) {
      NearestIsOne(a.velocity, b.velocity, 0, 100, Distance(c.velocity, 0));
    }
  }

  lemma NearestAngles(a: real, b: real, l: Limits, wanted: real)
    requires IsNearestAngle(a, l, wanted) && IsNearestAngle(b, l, wanted)
    ensures a == b
  {
    assert RealDistance(a, wanted) == RealDistance(b, wanted);
  }

  lemma NearestIsOne(a: int, b: int, lo: int, hi: int, wanted: int)
    requires IsNearest(a, lo, hi, wanted) && IsNearest(b, lo, hi, wanted)
    ensures a == b
  {
    assert Distance(a, wanted) == Distance(b, wanted);
    assert lo <= wanted <= hi ==> Distance(a, wanted) <= Distance(wanted, wanted) == 0;
  }

  predicate IsFirstFor(commands: seq<JointCommand>, id: JointId, q: nat)
    requires q < |commands|
  {
    commands[q].id == id && forall p :: 0 <= p < q ==> commands[p].id != id
  }

  /** The commands for a joint, but for the first, make no difference. */
  lemma {:induction false} FirstForIs(commands: seq<JointCommand>, id: JointId, q: nat)
    requires q < |commands| && IsFirstFor(commands, id, q)
    ensures FirstFor(commands, id) == Some(commands[q])
  {
    if q > 0 {
      assert commands[0].id != id;
      assert forall p :: 0 <= p < q - 1 ==> commands[1..][p] == commands[p + 1];
      FirstForIs(commands[1..], id, q - 1);
    }
  }

  /** So a shaped list holds, for every joint that is listed, limited and commanded, the command
      that comes nearest to its first one. */
  lemma SentComesNearest(config: ProductConfig, mode: ControlMode, commands: seq<JointCommand>, q: nat)
    requires JointsAreSound(config) && q < |commands| && IsFirstFor(commands, commands[q].id, q)
    requires commands[q].id in config.validJoints && commands[q].id in config.jointLimits
    ensures exists c :: c in Shape(config, mode, config.validJoints, commands) &&
                        ComesNearest(config.jointLimits[commands[q].id], mode, commands[q], c)
  {
    hide Limited, FirstFor, Shape, ComesNearest;
    var out, id := Shape(config, mode, config.validJoints, commands), commands[q].id;
    ShapeSelects(config, mode, config.validJoints, commands);
    FirstForIs(commands, id, q);
    assert IsCommanded(config, config.validJoints, commands, id);
    assert GetsCommand(out, id);
    var k :| 0 <= k < |out| && out[k].id == id;
    LimitedComesNearest(config, mode, commands[q]);
    assert out[k] in out;
  }

  /** Shaping twice is shaping once. */
  lemma ShapeIsIdempotent(config: ProductConfig, mode: ControlMode, commands: seq<JointCommand>)
    requires JointsAreSound(config)
    ensures var once := Shape(config, mode, config.validJoints, commands);
            Shape(config, mode, config.validJoints, once) == once
  {
    var once := Shape(config, mode, config.validJoints, commands);
    ShapeSelects(config, mode, config.validJoints, commands);
    forall id | id in config.validJoints
      ensures if id in config.jointLimits && FirstFor(commands, id).Some?
              then FirstFor(once, id) == Some(Limited(config, mode, FirstFor(commands, id).value))
              else FirstFor(once, id).None?
    {
      hide Limited;
      if IsCommanded(config, config.validJoints, commands, id) {
        assert GetsCommand(once, id);
      } else {
        assert !GetsCommand(once, id);
      }
    }
    ShapeOfShaped(config, mode, config.validJoints, commands, once);
  }

  lemma {:induction false} ShapeOfShaped(config: ProductConfig, mode: ControlMode, joints: seq<JointId>,
                                         commands: seq<JointCommand>, once: seq<JointCommand>)
    requires Distinct(joints)
    requires forall id :: id in config.jointLimits ==> config.jointLimits[id].min <= config.jointLimits[id].max
    requires forall id :: id in joints ==>
      if id in config.jointLimits && FirstFor(commands, id).Some?
      then FirstFor(once, id) == Some(Limited(config, mode, FirstFor(commands, id).value))
      else FirstFor(once, id).None?
    ensures Shape(config, mode, joints, once) == Shape(config, mode, joints, commands)
  {
    if joints != [] {
      var last := joints[|joints| - 1];
      ShapeOfShaped(config, mode, joints[..|joints| - 1], commands, once);
      if last in config.jointLimits && FirstFor(commands, last).Some? {
        LimitedIsIdempotent(config, mode, FirstFor(commands, last).value);
      }
    }
  }

  lemma LimitedIsIdempotent(config: ProductConfig, mode: ControlMode, c: JointCommand)
    requires c.id in config.jointLimits && config.jointLimits[c.id].min <= config.jointLimits[c.id].max
    ensures Limited(config, mode, Limited(config, mode, c)) == Limited(config, mode, c)
  {
  }
}
