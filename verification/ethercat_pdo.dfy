/** Joint commands as the process data an EtherCAT slave receives. */
module EthercatPdo {
  import opened Bytes
  import opened ByteValues
  import opened HandTypes
  import opened ProductConfiguration
  import opened ModbusCodec

  const SLOT: nat := 6
  const BUFFER_SIZE: nat := 80
  const PI: real := 3.14159265358979323846

  /** A float in memory. */
  type FloatBytes = s: seq<byte> | |s| == 4 witness [0, 0, 0, 0]

  function Radians(degrees: real): real {
    degrees * (PI / 180.0)
  }

  /** The joints that have limits, in the order of their ids. */
  function JointsBelow(limits: map<JointId, Limits>, n: nat): (ids: seq<JointId>)
    requires n <= NUM_JOINTS + 1
    ensures forall id :: id in ids <==> id in limits && id < n
    ensures Distinct(ids)
  {
    if n == 0 then []
    else
      var before := JointsBelow(limits, n - 1);
      if n - 1 in limits then before + [n - 1] else before
  }

  const ID_COUNT: nat := NUM_JOINTS + 1

  function LimitedJoints(config: ProductConfig): (ids: seq<JointId>)
    ensures forall id :: id in ids <==> id in config.jointLimits
    ensures Distinct(ids)
  {
    JointsBelow(config.jointLimits, ID_COUNT)
  }

  /** The joints in the order of their slots. */
  function SlotOrder(config: ProductConfig): seq<JointId> {
    if config.productType == GHandLite1 then ControlledJoints(config) else LimitedJoints(config)
  }

  /** Lite1: mode, 0, angle in tenths of a degree low byte first, velocity, torque. */
  function Lite1Slot(mode: ControlMode, command: Option<JointCommand>): (s: seq<byte>)
    requires command.Some? ==> Encodable(command.value.angle)
    ensures |s| == SLOT
  {
    match command
    case None => [Octet(ModeNumber(mode)), 0, 0, 0, 0, 0]
    case Some(c) =>
      var position := EncodeAngle(c.angle) % 0x1_0000;
      [Octet(ModeNumber(mode)), 0, Octet(position), Octet(position / 0x100), Octet(c.velocity), Octet(c.torque)]
  }

  /** GHand5: the angle in radians as a float, velocity, torque; a joint without a command
      is sent to its least angle. */
  function GHand5Slot(float: real -> FloatBytes, limits: Limits, command: Option<JointCommand>): (s: seq<byte>)
    ensures |s| == SLOT
  {
    match command
    case None => float(Radians(limits.min)) + [0, 0]
    case Some(c) => float(Radians(c.angle)) + [Octet(c.velocity), Octet(c.torque)]
  }

  predicate Encodes(config: ProductConfig, commands: seq<JointCommand>) {
    config.productType == GHandLite1 ==> forall c :: c in commands ==> Encodable(c.angle)
  }

  function Slot(float: real -> FloatBytes, config: ProductConfig, mode: ControlMode, commands: seq<JointCommand>,
                id: JointId): (s: seq<byte>)
    requires Encodes(config, commands) && id in config.jointLimits
    ensures |s| == SLOT
  {
    if config.productType == GHandLite1 then Lite1Slot(mode, LastFor(commands, id))
    else GHand5Slot(float, config.jointLimits[id], LastFor(commands, id))
  }

  function Slots(float: real -> FloatBytes, config: ProductConfig, mode: ControlMode, commands: seq<JointCommand>,
                 ids: seq<JointId>): (s: seq<byte>)
    requires Encodes(config, commands) && forall id :: id in ids ==> id in config.jointLimits
    ensures |s| == SLOT * |ids|
  {
    if ids == [] then []
    else Slots(float, config, mode, commands, ids[..|ids| - 1]) + Slot(float, config, mode, commands, ids[|ids| - 1])
  }

  /** The process data of a move. */
  function Pdo(float: real -> FloatBytes, config: ProductConfig, mode: ControlMode,
               commands: seq<JointCommand>): seq<byte>
    requires Encodes(config, commands)
  {
    Header(config, mode) + Slots(float, config, mode, commands, SlotOrder(config))
  }

  function Header(config: ProductConfig, mode: ControlMode): (h: seq<byte>)
    ensures |h| == if config.productType == GHandLite1 then 0 else 2
  {
    if config.productType == GHandLite1 then [] else [Octet(ModeNumber(mode)), 0]
  }

  /** The process data up to slot `i`. */
  function PdoSoFar(float: real -> FloatBytes, config: ProductConfig, mode: ControlMode,
                    commands: seq<JointCommand>, i: nat): (s: seq<byte>)
    requires Encodes(config, commands) && i <= |SlotOrder(config)|
    ensures |s| == |Header(config, mode)| + SLOT * i
  {
    Header(config, mode) + Slots(float, config, mode, commands, SlotOrder(config)[..i])
  }

  lemma PdoOneMore(float: real -> FloatBytes, config: ProductConfig, mode: ControlMode,
                   commands: seq<JointCommand>, i: nat)
    requires Encodes(config, commands) && i < |SlotOrder(config)|
    ensures PdoSoFar(float, config, mode, commands, i + 1)
         == PdoSoFar(float, config, mode, commands, i) + Slot(float, config, mode, commands, SlotOrder(config)[i])
  {
    hide Slot, SlotOrder, Header;
    var ids := SlotOrder(config);
    assert ids[..i + 1][..i] == ids[..i];
  }

  lemma PdoEnds(float: real -> FloatBytes, config: ProductConfig, mode: ControlMode, commands: seq<JointCommand>)
    requires Encodes(config, commands)
    ensures PdoSoFar(float, config, mode, commands, 0) == Header(config, mode)
    ensures PdoSoFar(float, config, mode, commands, |SlotOrder(config)|) == Pdo(float, config, mode, commands)
  {
    hide SlotOrder, Header;
    var ids := SlotOrder(config);
    assert ids[..|ids|] == ids;
  }

  /** EthercatRxpdoSize: what the slave's configuration reserves. */
  function RxpdoSize(config: ProductConfig): nat {
    if config.productType == GHandLite1 then |config.jointLimits| * 6 else |config.jointLimits| * SLOT + 2
  }

  function ResetBytes(config: ProductConfig): seq<byte> {
    if config.productType == GHandLite1 then Zeros(BUFFER_SIZE) else Zeros(BUFFER_SIZE)[1 := 1]
  }

  predicate TakesSize(slaveCount: int, outputBytes: nat, size: nat) {
    0 < size <= BUFFER_SIZE && slaveCount >= 1 && size <= outputBytes
  }

  function Least(a: nat, b: nat): nat {
    if a < b then a else b
  }

  class EtherCATComm {
    const config: ProductConfig
    const float: real -> FloatBytes
    var connected: bool
    var slaveCount: int
    var outputBytes: nat                // what the slave takes
    const rxpdo: array<byte>
    var rxpdoSize: nat

    constructor (config: ProductConfig, float: real -> FloatBytes, connected: bool, slaveCount: int, outputBytes: nat)
      ensures this.config == config && this.float == float
      ensures this.connected == connected && this.slaveCount == slaveCount && this.outputBytes == outputBytes
      ensures fresh(rxpdo) && rxpdo[..] == Zeros(BUFFER_SIZE) && rxpdoSize == RxpdoSize(config)
    {
      this.config, this.float := config, float;
      this.connected, this.slaveCount, this.outputBytes := connected, slaveCount, outputBytes;
      rxpdo := new byte[BUFFER_SIZE](_ => 0);
      rxpdoSize := RxpdoSize(config);
    }

    predicate Takes(size: nat)
      reads this
    {
      TakesSize(slaveCount, outputBytes, size)
    }

    /** What Connect and Disconnect do to the process data. */
    method ResetImage()
      requires rxpdo.Length == BUFFER_SIZE
      modifies rxpdo, `rxpdoSize
      ensures rxpdo[..] == ResetBytes(config) && rxpdoSize == RxpdoSize(config)
      ensures forall i :: 0 <= i < rxpdo.Length ==>
        rxpdo[i] == if i == 1 && config.productType != GHandLite1 then 1 else 0
    {
      forall i | 0 <= i < rxpdo.Length {
        rxpdo[i] := 0;
      }
      rxpdoSize := RxpdoSize(config);
      if config.productType != GHandLite1 {
        rxpdo[1] := 1;
      }
    }

    /** How much of the buffer the cyclic thread copies to the slave. */
    function CopySize(): nat
      reads `rxpdoSize, `outputBytes
    {
      Least(rxpdoSize, outputBytes)
    }

    /** The copy itself, once in every cycle. */
    method CopyToSlave(outputs: array<byte>)
      requires rxpdo.Length == BUFFER_SIZE && CopySize() <= BUFFER_SIZE
      requires outputs.Length == outputBytes && outputs != rxpdo
      modifies outputs
      ensures outputs[..] == rxpdo[..CopySize()] + old(outputs[CopySize()..])
    {
      var size := CopySize();
      forall i | 0 <= i < size {
        outputs[i] := rxpdo[i];
      }
      assert outputs[..size] == rxpdo[..size];
    }

    method SendRxPDO(data: array<byte>) returns (sent: bool)
      requires rxpdo.Length == BUFFER_SIZE && data != rxpdo
      modifies rxpdo, `rxpdoSize
      ensures sent == old(Takes(data.Length))
      ensures sent <==> 0 < data.Length <= 80 && old(slaveCount) >= 1 && data.Length <= old(outputBytes)
      ensures sent ==> rxpdo[..] == data[..] + old(rxpdo[data.Length..]) && rxpdoSize == data.Length
      ensures !sent ==> rxpdo[..] == old(rxpdo[..]) && rxpdoSize == old(rxpdoSize)
    {
      if data.Length <= 0 || slaveCount < 1 {
        return false;
      }
      if outputBytes < data.Length || data.Length > BUFFER_SIZE {
        return false;
      }
      forall i | 0 <= i < data.Length {
        rxpdo[i] := data[i];
      }
      assert rxpdo[..data.Length] == data[..];
      rxpdoSize := data.Length;
      return true;
    }

    /** True whether or not the process data is taken. */
    method MoveJoints(joints: seq<JointCommand>, mode: ControlMode) returns (ok: bool)
      requires rxpdo.Length == BUFFER_SIZE && Encodes(config, joints)
      modifies rxpdo, `rxpdoSize
      ensures ok <==> connected && joints != []
      ensures ok && Takes(|Pdo(float, config, mode, joints)|) ==>
        var pdo := Pdo(float, config, mode, joints);
        rxpdo[..] == pdo + old(rxpdo[..])[|pdo|..] && rxpdoSize == |pdo|
      ensures !ok || !Takes(|Pdo(float, config, mode, joints)|) ==>
        rxpdo[..] == old(rxpdo[..]) && rxpdoSize == old(rxpdoSize)
    {
      if !connected || joints == [] {
        return false;
      }
      var latest := LatestOf(joints);
      var data: array<byte>;
      if config.productType == GHandLite1 {
        data := BuildLite1(joints, latest, mode);
      } else {
        data := BuildGHand5(joints, latest, mode);
      }
      var _ := SendRxPDO(data);
      return true;
    }

    method LatestOf(joints: seq<JointCommand>) returns (latest: map<JointId, JointCommand>)
      ensures IsLatest(latest, joints)
    {
      latest := map[];
      for i := 0 to |joints|
        invariant IsLatest(latest, joints[..i])
      {
        assert joints[..i + 1] == joints[..i] + [joints[i]];
        LatestOneMore(latest, joints[..i], joints[i]);
        latest := latest[joints[i].id := joints[i]];
      }
      assert joints[..|joints|] == joints;
    }

    method BuildLite1(joints: seq<JointCommand>, latest: map<JointId, JointCommand>,
                      mode: ControlMode) returns (data: array<byte>)
      requires config.productType == GHandLite1 && Encodes(config, joints) && IsLatest(latest, joints)
      ensures fresh(data) && data[..] == Pdo(float, config, mode, joints)
    {
      hide Slot, IsLatestFor, LastFor, EncodeAngle, PdoSoFar, Pdo;
      var controlled := ControlledJoints(config);
      var buffer: seq<byte> := [];
      PdoEnds(float, config, mode, joints);
      for i := 0 to |controlled|
        invariant buffer == PdoSoFar(float, config, mode, joints, i)
      {
        PdoOneMore(float, config, mode, joints, i);
        assert IsLatestFor(latest, joints, controlled[i]);
        buffer := PushLite1Joint(buffer, joints, latest, mode, controlled[i]);
      }
      data := new byte[|buffer|](i requires 0 <= i < |buffer| => buffer[i]);
    }

    /** The loop body for the Lite1: six bytes pushed. */
    method PushLite1Joint(buffer: seq<byte>, ghost joints: seq<JointCommand>, latest: map<JointId, JointCommand>,
                          mode: ControlMode, id: JointId) returns (pushed: seq<byte>)
      requires config.productType == GHandLite1 && Encodes(config, joints)
      requires id in config.jointLimits && IsLatestFor(latest, joints, id)
      ensures pushed == buffer + Slot(float, config, mode, joints, id)
    {
      hide Octet, EncodeAngle, LastFor, ModeNumber, Radians;
      var position: int, velocity: int8, torque: int8 := 0, 0, 0;
      if id in latest {
        position := EncodeAngle(latest[id].angle) % 0x1_0000;
        velocity, torque := latest[id].velocity, latest[id].torque;
      }
      OctetZero();
      pushed := buffer + [Octet(ModeNumber(mode))];
      pushed := pushed + [0];
      pushed := pushed + [Octet(position)];
      pushed := pushed + [Octet(position / 0x100)];
      pushed := pushed + [Octet(velocity)];
      pushed := pushed + [Octet(torque)];
    }

    method BuildGHand5(joints: seq<JointCommand>, latest: map<JointId, JointCommand>,
                       mode: ControlMode) returns (data: array<byte>)
      requires config.productType != GHandLite1 && IsLatest(latest, joints)
      ensures fresh(data) && data[..] == Pdo(float, config, mode, joints)
    {
      hide Octet, ModeNumber, Slot, IsLatestFor, LimitedJoints, LastFor, PdoSoFar, Pdo;
      LimitedJointsCount(config);
      PdoEnds(float, config, mode, joints);
      var order := LimitedJoints(config);
      data := new byte[|config.jointLimits| * SLOT + 2](_ => 0);
      var offset := 0;
      data[offset] := Octet(ModeNumber(mode));
      offset := offset + 1;
      data[offset] := 0;
      offset := offset + 1;
      for i := 0 to |order|
        invariant offset == 2 + SLOT * i
        invariant data[..offset] == PdoSoFar(float, config, mode, joints, i)
      {
        PdoOneMore(float, config, mode, joints, i);
        assert IsLatestFor(latest, joints, order[i]);
        offset := PutGHand5Joint(data, offset, joints, latest, mode, order[i]);
      }
      assert data[..offset] == data[..];
    }

    /** The loop body for the GHand5: six bytes written at the offset. */
    method PutGHand5Joint(data: array<byte>, offset: nat, ghost joints: seq<JointCommand>, latest: map<JointId,
                          JointCommand>,
                          ghost mode: ControlMode, id: JointId) returns (end: nat)
      requires config.productType != GHandLite1 && offset + SLOT <= data.Length
      requires id in config.jointLimits && IsLatestFor(latest, joints, id)
      modifies data
      ensures end == offset + SLOT
      ensures data[..end] == old(data[..offset]) + Slot(float, config, mode, joints, id)
    {
      hide Octet, LastFor, Radians;
      var angle := Radians(config.jointLimits[id].min);
      var velocity: int8, torque: int8 := 0, 0;
      if id in latest {
        angle := Radians(latest[id].angle);
        velocity, torque := latest[id].velocity, latest[id].torque;
      }
      OctetZero();
      var bytes := float(angle);
      assert Slot(float, config, mode, joints, id) == bytes + [Octet(velocity), Octet(torque)];
      end := offset;
      data[end], data[end + 1], data[end + 2], data[end + 3] := bytes[0], bytes[1], bytes[2], bytes[3];
      end := end + 4;
      data[end] := Octet(velocity);
      end := end + 1;
      data[end] := Octet(torque);
      end := end + 1;
    }
  }

  predicate IsLatestFor(latest: map<JointId, JointCommand>, joints: seq<JointCommand>, id: JointId) {
    if id in latest then LastFor(joints, id) == Some(latest[id]) else LastFor(joints, id).None?
  }

  ghost predicate IsLatest(latest: map<JointId, JointCommand>, joints: seq<JointCommand>) {
    forall id :: IsLatestFor(latest, joints, id)
  }

  lemma LatestOneMore(latest: map<JointId, JointCommand>, joints: seq<JointCommand>, c: JointCommand)
    requires IsLatest(latest, joints)
    ensures IsLatest(latest[c.id := c], joints + [c])
  {
    hide LastFor;
    var latestNow, joined := latest[c.id := c], joints + [c];
    forall id: JointId
      ensures IsLatestFor(latestNow, joined, id)
    {
      assert IsLatestFor(latest, joints, id);
      LastForOneMore(joints, c, id);
    }
  }

  lemma OctetZero()
    ensures Octet(0) == 0 && Octet(0 / 0x100) == 0
  {
  }

  lemma LimitedJointsCount(config: ProductConfig)
    ensures |LimitedJoints(config)| == |config.jointLimits|
  {
    var ids := LimitedJoints(config);
    DistinctCount(ids);
    assert Elements(ids) == config.jointLimits.Keys;
    assert |config.jointLimits.Keys| == |config.jointLimits|;
  }

  // ---- The layout of the process data ----

  lemma SlotOrderFacts(config: ProductConfig)
    requires JointsAreSound(config)
    ensures Distinct(SlotOrder(config)) && |SlotOrder(config)| == |config.jointLimits|
    ensures forall id :: id in SlotOrder(config) <==> id in config.jointLimits
  {
    hide ControlledJoints, LimitedJoints;
    ControlledJointsCount(config);
    LimitedJointsCount(config);
  }

  /** The process data is as long as the slave expects iff the product is no Lite1 or every
      joint with limits is a listed joint, each once; a sound configuration sees to that. */
  lemma PdoFillsTheImageIff(float: real -> FloatBytes, config: ProductConfig, mode: ControlMode,
                            commands: seq<JointCommand>)
    requires Encodes(config, commands)
    ensures |Pdo(float, config, mode, commands)| == RxpdoSize(config) <==>
            config.productType != GHandLite1 || |ControlledJoints(config)| == |config.jointLimits|
    ensures JointsAreSound(config) ==> |Pdo(float, config, mode, commands)| == RxpdoSize(config)
  {
    hide Slots, ControlledJoints, LimitedJoints, JointsAreSound;
    LimitedJointsCount(config);
    if JointsAreSound(config) {
      ControlledJointsCount(config);
    }
  }

  /** It fits the 80-byte buffer iff at most thirteen joints have limits, for either product. */
  lemma PdoFitsIff(float: real -> FloatBytes, config: ProductConfig, mode: ControlMode, commands: seq<JointCommand>)
    requires Encodes(config, commands) && JointsAreSound(config)
    ensures |Pdo(float, config, mode, commands)| <= BUFFER_SIZE <==> |config.jointLimits| <= 13
  {
    hide Pdo, JointsAreSound;
    PdoFillsTheImageIff(float, config, mode, commands);
  }

  /** A list of moves since the process data was last reset. */
  type Moves = seq<(seq<JointCommand>, ControlMode)>

  predicate AllEncode(config: ProductConfig, moves: Moves) {
    forall i :: 0 <= i < |moves| ==> Encodes(config, moves[i].0)
  }

  /** The size on record after these moves: that of the last process data taken. */
  function SizeAfter(float: real -> FloatBytes, config: ProductConfig, slaveCount: int, outputBytes: nat,
                     moves: Moves): nat
    requires AllEncode(config, moves)
  {
    if moves == [] then RxpdoSize(config)
    else
      var (commands, mode) := moves[|moves| - 1];
      var size := |Pdo(float, config, mode, commands)|;
      if commands != [] && TakesSize(slaveCount, outputBytes, size) then size
      else SizeAfter(float, config, slaveCount, outputBytes, moves[..|moves| - 1])
  }

  predicate CopyIsInside(float: real -> FloatBytes, config: ProductConfig, slaveCount: int, outputBytes: nat, moves: Moves)
    requires AllEncode(config, moves)
  {
    Least(SizeAfter(float, config, slaveCount, outputBytes, moves), outputBytes) <= BUFFER_SIZE
  }

  lemma {:induction false} SizeIsReservedOrTaken(float: real -> FloatBytes, config: ProductConfig, slaveCount: int,
                                                 outputBytes: nat, moves: Moves)
    requires AllEncode(config, moves)
    ensures var size := SizeAfter(float, config, slaveCount, outputBytes, moves);
            size == RxpdoSize(config) || size <= BUFFER_SIZE
    decreases |moves|
  {
    hide Pdo, RxpdoSize;
    if moves != [] {
      SizeIsReservedOrTaken(float, config, slaveCount, outputBytes, moves[..|moves| - 1]);
    }
  }

  /** What is copied to the slave stays inside the 80-byte buffer, whatever is moved, iff the
      slave takes no more than 80 bytes or at most thirteen joints have limits. */
  lemma CopyStaysInsideIff(float: real -> FloatBytes, config: ProductConfig, slaveCount: int, outputBytes: nat)
    ensures (forall moves: Moves :: AllEncode(config, moves) ==> CopyIsInside(float, config, slaveCount, outputBytes, moves))
            <==> outputBytes <= BUFFER_SIZE || |config.jointLimits| <= 13
  {
    hide AllEncode, SizeAfter;
    if outputBytes <= BUFFER_SIZE || |config.jointLimits| <= 13 {
      forall moves: Moves | AllEncode(config, moves)
        ensures CopyIsInside(float, config, slaveCount, outputBytes, moves)
      {
        SizeIsReservedOrTaken(float, config, slaveCount, outputBytes, moves);
      }
    } else {
      SizeOfNothing(float, config, slaveCount, outputBytes);
    }
  }

  lemma SizeOfNothing(float: real -> FloatBytes, config: ProductConfig, slaveCount: int, outputBytes: nat)
    ensures AllEncode(config, []) && SizeAfter(float, config, slaveCount, outputBytes, []) == RxpdoSize(config)
  {
  }

  lemma {:induction false} SlotAt(float: real -> FloatBytes, config: ProductConfig, mode: ControlMode,
                                  commands: seq<JointCommand>,
                                  ids: seq<JointId>, i: nat)
    requires Encodes(config, commands) && (forall id :: id in ids ==> id in config.jointLimits) && i < |ids|
    ensures Slots(float, config, mode, commands, ids)[SLOT * i..SLOT * i + SLOT] == Slot(float, config, mode, commands, ids[i])
  {
    hide Slot;
    var before := ids[..|ids| - 1];
    if i < |before| {
      SlotAt(float, config, mode, commands, before, i);
    }
  }

  lemma HeaderSaysMode(config: ProductConfig, mode: ControlMode)
    ensures config.productType != GHandLite1 ==>
      IsModeNumber(mode, Value(Header(config, mode)[0])) && Header(config, mode)[1] == 0
  {
    hide Octet, Value;
    OctetValue(ModeNumber(mode));
  }

  /** Every joint with limits owns one slot, no two share one, there is nothing else, and
      in its slot stands its last command or, without one, the default. */
  lemma EachJointOwnsASlot(float: real -> FloatBytes, config: ProductConfig, mode: ControlMode,
                           commands: seq<JointCommand>)
    requires Encodes(config, commands) && JointsAreSound(config)
    ensures var pdo, order, start := Pdo(float, config, mode, commands), SlotOrder(config), |Header(config, mode)|;
            && (forall id :: id in config.jointLimits <==> id in order) && Distinct(order)
            && |pdo| == start + SLOT * |order|
            && (if config.productType == GHandLite1 then start == 0
                else start == 2 && IsModeNumber(mode, Value(pdo[0])) && pdo[1] == 0)
            && forall i :: 0 <= i < |order| ==>
                 SlotConveys(float, config, mode, commands, order[i], pdo[start + SLOT * i..start + SLOT * i + SLOT])
  {
    hide SlotOrder, Header, Slots, Slot, SlotConveys, JointsAreSound;
    SlotOrderFacts(config);
    HeaderSaysMode(config, mode);
    var pdo, order, start := Pdo(float, config, mode, commands), SlotOrder(config), |Header(config, mode)|;
    var slots := Slots(float, config, mode, commands, order);
    assert |slots| == SLOT * |order|;
    forall i | 0 <= i < |order|
      ensures SlotConveys(float, config, mode, commands, order[i], pdo[start + SLOT * i..start + SLOT * i + SLOT])
    {
      SlotAt(float, config, mode, commands, order, i);
      assert pdo[start + SLOT * i..start + SLOT * i + SLOT] == slots[SLOT * i..SLOT * i + SLOT];
      SlotSaysItsCommand(float, config, mode, commands, order[i]);
    }
  }

  lemma {:induction false} JointsBelowIncrease(limits: map<JointId, Limits>, n: nat)
    requires n <= NUM_JOINTS + 1
    ensures forall i, j :: 0 <= i < j < |JointsBelow(limits, n)| ==> JointsBelow(limits, n)[i] < JointsBelow(limits, n)[j]
  {
    if n > 0 {
      JointsBelowIncrease(limits, n - 1);
      var before := JointsBelow(limits, n - 1);
      forall i | 0 <= i < |before|
        ensures before[i] < n - 1
      {
        assert before[i] in before;
      }
    }
  }

  /** The slots of the GHand5 are in the order of the joints' ids, those of the Lite1 in the order
      in which the product lists them. */
  lemma SlotsAreInOrder(config: ProductConfig, i: nat, j: nat)
    requires i < j < |SlotOrder(config)|
    ensures if config.productType != GHandLite1 then SlotOrder(config)[i] < SlotOrder(config)[j]
            else exists p, q :: 0 <= p < q < |config.validJoints| &&
                   config.validJoints[p] == SlotOrder(config)[i] && config.validJoints[q] == SlotOrder(config)[j]
  {
    if config.productType != GHandLite1 {
      JointsBelowIncrease(config.jointLimits, ID_COUNT);
    } else {
      var p, q := CommandableInOrder(config.validJoints, config.jointLimits, i, j);
    }
  }

  /** What a slave finds in the six bytes of a joint. */
  ghost predicate SlotConveys(float: real -> FloatBytes, config: ProductConfig, mode: ControlMode,
                        commands: seq<JointCommand>, id: JointId, s: seq<byte>)
    requires id in config.jointLimits && |s| == SLOT
  {
    var command := LastFor(commands, id);
    if config.productType == GHandLite1 then
      && IsModeNumber(mode, Value(s[0])) && s[1] == 0
      && (if command.Some? then Conveys(Word(s[3], s[2]), Word(s[4], s[5]), command.value)
          else s[2] == 0 && s[3] == 0 && s[4] == 0 && s[5] == 0)
    else if command.Some? then
      && SaysAngle(float, s[..4], command.value.angle)
      && Signed8(Value(s[4])) == command.value.velocity && Signed8(Value(s[5])) == command.value.torque
    else SaysAngle(float, s[..4], config.jointLimits[id].min) && s[4] == 0 && s[5] == 0
  }

  /** The float of that many degrees in radians. */
  ghost predicate SaysAngle(float: real -> FloatBytes, s: seq<byte>, degrees: real) {
    exists r: real :: s == float(r) && IsRadians(r, degrees)
  }

  predicate IsRadians(r: real, degrees: real) {
    180.0 * r == 3.14159265358979323846 * degrees
  }

  lemma RadiansAre(float: real -> FloatBytes, degrees: real)
    ensures SaysAngle(float, float(Radians(degrees)), degrees)
  {
    assert IsRadians(Radians(degrees), degrees);
  }

  lemma SlotSaysItsCommand(float: real -> FloatBytes, config: ProductConfig, mode: ControlMode,
                           commands: seq<JointCommand>, id: JointId)
    requires Encodes(config, commands) && id in config.jointLimits
    ensures SlotConveys(float, config, mode, commands, id, Slot(float, config, mode, commands, id))
  {
    hide Octet, Value, LastFor, Conveys, EncodeJointCommand, EncodeAngle, Word, Radians, Signed8, ModeNumber, SaysAngle,
         IsModeNumber;
    ModeNumberIs(mode);
    OctetValue(ModeNumber(mode));
    RadiansAre(float, config.jointLimits[id].min);
    if LastFor(commands, id).Some? {
      var c := LastFor(commands, id).value;
      NarrowAndBack(c.velocity);
      NarrowAndBack(c.torque);
      RadiansAre(float, c.angle);
      if config.productType == GHandLite1 {
        Lite1SlotConveys(c);
      }
    }
  }

  lemma NarrowAndBack(x: int8)
    ensures Signed8(Value(Octet(x))) == x
  {
    hide Octet, Value;
    OctetValue(x);
  }

  lemma Lite1SlotConveys(c: JointCommand)
    requires Encodable(c.angle)
    ensures var position := EncodeAngle(c.angle) % 0x1_0000;
            Conveys(Word(Octet(position / 0x100), Octet(position)), Word(Octet(c.velocity), Octet(c.torque)), c)
  {
    hide Octet, Conveys;
    var position := EncodeAngle(c.angle) % 0x1_0000;
    CommandRoundTrip(c);
    WordOfOctets(position);
    OctetValue(c.velocity);
    OctetValue(c.torque);
  }
}
