/** Registers as bytes, joints as registers, and the block of registers that holds them all. */
module ModbusCodec {
  import opened Bytes
  import opened ByteValues
  import opened HandTypes
  import opened ProductConfiguration

  // ---- Registers and bytes ----

  function RegisterBytes(registers: seq<u16>): (s: seq<byte>)
    ensures |s| == 2 * |registers|
  {
    if registers == [] then []
    else RegisterBytes(registers[..|registers| - 1]) +
         [Octet(registers[|registers| - 1] / 0x100), Octet(registers[|registers| - 1])]
  }

  method RegistersToBytes(registers: seq<u16>) returns (bytes: seq<byte>)
    ensures bytes == RegisterBytes(registers)
  {
    bytes := [];
    for i := 0 to |registers|
      invariant bytes == RegisterBytes(registers[..i])
    {
      assert registers[..i + 1][..i] == registers[..i];
      bytes := bytes + [Octet(registers[i] / 0x100)] + [Octet(registers[i])];
    }
    assert registers[..|registers|] == registers;
  }

  function Word(hi: byte, lo: byte): u16 {
    Value(hi) * 0x100 + Value(lo)
  }

  /** The registers in a run of bytes; an odd byte at the end is dropped. */
  function BytesAsRegisters(bytes: seq<byte>): (r: seq<u16>)
    ensures |r| == |bytes| / 2
  {
    seq(|bytes| / 2, i requires 0 <= i < |bytes| / 2 => Word(bytes[2 * i], bytes[2 * i + 1]))
  }

  method BytesToRegisters(bytes: seq<byte>) returns (registers: seq<u16>)
    ensures registers == BytesAsRegisters(bytes)
  {
    registers := [];
    var i := 0;
    while i + 1 < |bytes|
      invariant i == 2 * |registers| && i <= |bytes|
      invariant forall k :: 0 <= k < |registers| ==> registers[k] == Word(bytes[2 * k], bytes[2 * k + 1])
    {
      registers := registers + [Word(bytes[i], bytes[i + 1])];
      i := i + 2;
    }
  }

  lemma WordOfOctets(r: u16)
    ensures Word(Octet(r / 0x100), Octet(r)) == r
  {
    hide Octet, Value;
    OctetValue(r / 0x100);
    OctetValue(r);
  }

  lemma {:induction false} RegisterBytesAt(registers: seq<u16>, i: nat)
    requires i < |registers|
    ensures RegisterBytes(registers)[2 * i] == Octet(registers[i] / 0x100)
    ensures RegisterBytes(registers)[2 * i + 1] == Octet(registers[i])
  {
    if i < |registers| - 1 {
      RegisterBytesAt(registers[..|registers| - 1], i);
    }
  }

  /** Registers survive the trip through bytes, whatever padding follows them. */
  lemma RegistersRoundTrip(registers: seq<u16>, padding: seq<byte>)
    ensures registers <= BytesAsRegisters(RegisterBytes(registers) + padding)
    ensures padding == [] ==> BytesAsRegisters(RegisterBytes(registers) + padding) == registers
  {
    var bytes := RegisterBytes(registers) + padding;
    forall i | 0 <= i < |registers|
      ensures BytesAsRegisters(bytes)[i] == registers[i]
    {
      RegisterBytesAt(registers, i);
      WordOfOctets(registers[i]);
    }
  }

  // ---- Joints and registers ----

  function Truncate(x: real): int {
    if x >= 0.0 then x.Floor else -((-x).Floor)
  }

  const ANGLE_SCALE: real := 10.0

  /** The conversion to a 16-bit integer is defined for these angles only. */
  predicate Encodable(angle: real) {
    -32769.0 < angle * ANGLE_SCALE < 32768.0
  }

  function EncodeAngle(angle: real): int16
    requires Encodable(angle)
  {
    Truncate(angle * ANGLE_SCALE)
  }

  function EncodeJointCommand(c: JointCommand): (u16, u16)
    requires Encodable(c.angle)
  {
    (EncodeAngle(c.angle) % 0x1_0000, (c.velocity % 0x100) * 0x100 + c.torque % 0x100)
  }

  function DecodeAngle(register: u16): real {
    Signed16(register) as real / ANGLE_SCALE
  }

  function ParseJointData(raw: seq<u16>, id: JointId): Joint
    requires |raw| == 3
  {
    Joint(id, raw[0] / 0x100, raw[0] % 0x100, DecodeAngle(raw[1]), Signed8(raw[2] / 0x100), Signed8(raw[2] % 0x100))
  }

  /** What three registers say of a joint, in numbers: state and error in the bytes of the first,
      tenths of a degree in the second, velocity and torque in the bytes of the third, the last
      three signed. */
  predicate Shows(r0: u16, r1: u16, r2: u16, joint: Joint) {
    && r0 == 0x100 * joint.state + joint.error
    && -32768.0 <= 10.0 * joint.angle < 32768.0
    && 10.0 * joint.angle == (if r1 < 0x8000 then r1 as real else (r1 as int - 0x1_0000) as real)
    && r2 / 0x100 == (if joint.velocity < 0 then joint.velocity + 0x100 else joint.velocity)
    && r2 % 0x100 == (if joint.torque < 0 then joint.torque + 0x100 else joint.torque)
  }

  lemma ParsedJointShows(raw: seq<u16>, id: JointId)
    requires |raw| == 3
    ensures Shows(raw[0], raw[1], raw[2], ParseJointData(raw, id)) && ParseJointData(raw, id).id == id
  {
  }

  /** Registers say one thing of a joint: no other joint is shown by them. */
  lemma RegistersShowOneJoint(r0: u16, r1: u16, r2: u16, a: Joint, b: Joint)
    requires Shows(r0, r1, r2, a) && Shows(r0, r1, r2, b) && a.id == b.id
    ensures a == b
  {
    BytesOfState(a.state, a.error, b.state, b.error);
    assert a.velocity == b.velocity && a.torque == b.torque;
    assert a.angle == b.angle;
  }

  lemma BytesOfState(s: Code, e: Code, t: Code, f: Code)
    requires 0x100 * s + e == 0x100 * t + f
    ensures s == t && e == f
  {
  }

  /** Two registers say a joint's velocity and torque exactly, in the high and the low byte of the
      second, and its angle cut to tenths of a degree toward zero. */
  predicate Conveys(angle: u16, speed: u16, c: JointCommand) {
    var tenths: int := if angle < 0x8000 then angle else angle - 0x1_0000;
    && speed / 0x100 == (if c.velocity < 0 then c.velocity + 0x100 else c.velocity)
    && speed % 0x100 == (if c.torque < 0 then c.torque + 0x100 else c.torque)
    && (if c.angle >= 0.0 then 0.0 <= tenths as real <= 10.0 * c.angle < tenths as real + 1.0
        else tenths as real - 1.0 < 10.0 * c.angle <= tenths as real <= 0.0)
  }

  lemma CommandRoundTrip(c: JointCommand)
    requires Encodable(c.angle)
    ensures Conveys(EncodeJointCommand(c).0, EncodeJointCommand(c).1, c)
  {
    var (r0, r1) := EncodeJointCommand(c);
    assert Signed16(r0) == EncodeAngle(c.angle);
    assert r1 / 0x100 == c.velocity % 0x100 && r1 % 0x100 == c.torque % 0x100;
  }

  // ---- The block of input registers that holds the joints ----

  predicate IsMapped(config: ProductConfig, id: JointId) {
    id in config.validJoints && id in config.jointInputRegisters
  }

  datatype Span = Span(start: u16, count: int)

  /** The last of a joint's three registers, as 16-bit arithmetic has it. */
  function JointEnd(base: u16): u16 {
    (base as int + 2) % 0x1_0000
  }

  /** The least first and the greatest last register of the mapped joints. */
  ghost predicate IsSpan(config: ProductConfig, start: int, end: int) {
    var bases := config.jointInputRegisters;
    && (forall id :: IsMapped(config, id) ==> start <= bases[id] && JointEnd(bases[id]) <= end)
    && (exists id :: IsMapped(config, id) && bases[id] == start)
    && (exists id :: IsMapped(config, id) && JointEnd(bases[id]) == end)
  }

  method GetJointInputSpan(config: ProductConfig) returns (span: Option<Span>)
    ensures span.None? <==> forall id :: !IsMapped(config, id)
    ensures span.Some? ==> IsSpan(config, span.value.start, span.value.start + span.value.count - 1)
  {
    var joints, bases := config.validJoints, config.jointInputRegisters;
    if joints == [] || bases == map[] {
      return None;
    }
    var found, start, end := false, 0xFFFF, 0;
    ghost var first, last := 0, 0;
    for i := 0 to |joints|
      invariant 0 <= start < 0x1_0000 && 0 <= end < 0x1_0000
      invariant forall k :: 0 <= k < i && joints[k] in bases ==>
        found && start <= bases[joints[k]] && JointEnd(bases[joints[k]]) <= end
      invariant if found
        then first < i && last < i && joints[first] in bases && joints[last] in bases &&
             bases[joints[first]] == start && JointEnd(bases[joints[last]]) == end
        else start == 0xFFFF && end == 0
    {
      if joints[i] !in bases { continue; }
      var base := bases[joints[i]];
      if base < start { start := base; }
      var jointEnd := JointEnd(base);
      if jointEnd > end { end := jointEnd; }
      if bases[joints[i]] == start { first := i; }
      if JointEnd(bases[joints[i]]) == end { last := i; }
      found := true;
    }
    if !found {
      return None;
    }
    assert IsMapped(config, joints[first]) && IsMapped(config, joints[last]);
    return Some(Span(start, (end as int) - start + 1));
  }

  /** All three registers of every mapped joint lie from `lo` to `hi`. */
  ghost predicate Covers(config: ProductConfig, lo: int, hi: int) {
    forall id :: IsMapped(config, id) ==> lo <= config.jointInputRegisters[id] <= hi - 2
  }

  ghost predicate FitsBelowWrap(config: ProductConfig) {
    forall id :: IsMapped(config, id) ==> config.jointInputRegisters[id] <= 0xFFFD
  }

  /** The span is the least interval of registers that covers every mapped joint iff no
      joint's first register is beyond 0xFFFD: past that, 16-bit arithmetic wraps. */
  lemma SpanCoversIff(config: ProductConfig, start: int, end: int)
    requires IsSpan(config, start, end)
    ensures Covers(config, start, end) <==> FitsBelowWrap(config)
    ensures FitsBelowWrap(config) ==> forall lo, hi :: Covers(config, lo, hi) ==> lo <= start && end <= hi
  {
  }

  /** Both products keep far below that. */
  lemma ProfilesFitBelowWrap(product: ProductType, config: ProductConfig)
    ensures FitsBelowWrap(ApplyProtocolDefaults(product, config))
  {
    hide HOLDING_REGISTERS, LITE1_CONTROL_REGISTERS;
    if product == GHandLite1 {
      Lite1InputsAreLow();
    }
  }

  lemma Lite1InputsAreLow()
    ensures forall id :: id in LITE1_INPUT_REGISTERS ==> LITE1_INPUT_REGISTERS[id] <= 0x1041
  {
  }

  // ---- Parsing the block ----

  function ParsedJoints(raw: seq<u16>, joints: seq<JointId>, bases: map<JointId, u16>, start: u16): seq<Joint> {
    if joints == [] then []
    else
      var before, id := ParsedJoints(raw, joints[..|joints| - 1], bases, start), joints[|joints| - 1];
      if id in bases && bases[id] >= start && bases[id] - start + 2 < |raw|
      then before + [ParseJointData(raw[bases[id] - start..bases[id] - start + 3], id)]
      else before
  }

  method ParseJoints(raw: seq<u16>, config: ProductConfig, start: u16) returns (joints: seq<Joint>)
    ensures joints == ParsedJoints(raw, config.validJoints, config.jointInputRegisters, start)
  {
    var valid, bases := config.validJoints, config.jointInputRegisters;
    joints := [];
    for i := 0 to |valid|
      invariant joints == ParsedJoints(raw, valid[..i], bases, start)
    {
      assert valid[..i + 1][..i] == valid[..i];
      if valid[i] !in bases { continue; }
      if bases[valid[i]] < start { continue; }
      var offset := bases[valid[i]] - start;
      if offset + 2 >= |raw| { continue; }
      joints := joints + [ParseJointData(raw[offset..offset + 3], valid[i])];
    }
    assert valid[..|valid|] == valid;
  }

  /** Every mapped joint, in the product's order, read from its own three registers. */
  function JointsInMemory(memory: int -> u16, joints: seq<JointId>, bases: map<JointId, u16>): seq<Joint> {
    if joints == [] then []
    else
      var before, id := JointsInMemory(memory, joints[..|joints| - 1], bases), joints[|joints| - 1];
      if id in bases
      then before + [ParseJointData([memory(bases[id]), memory((bases[id] as int) + 1), memory((bases[id] as int) + 2)], id)]
      else before
  }

  /** The mapped joints, in the product's order. */
  function MappedJoints(joints: seq<JointId>, bases: map<JointId, u16>): seq<JointId> {
    if joints == [] then []
    else
      var before, id := MappedJoints(joints[..|joints| - 1], bases), joints[|joints| - 1];
      if id in bases then before + [id] else before
  }

  /** What is read is those joints, each as its own three registers show it. */
  ghost predicate ReadFrom(memory: int -> u16, joints: seq<JointId>, bases: map<JointId, u16>, read: seq<Joint>) {
    var mapped := MappedJoints(joints, bases);
    && |read| == |mapped|
    && forall k :: 0 <= k < |read| ==>
         && read[k].id == mapped[k] && mapped[k] in bases
         && ShownAt(memory, bases[mapped[k]], read[k])
  }

  predicate ShownAt(memory: int -> u16, base: int, joint: Joint) {
    Shows(memory(base), memory(base + 1), memory(base + 2), joint)
  }

  lemma {:induction false} MemoryShowsTheJoints(memory: int -> u16, joints: seq<JointId>, bases: map<JointId, u16>)
    ensures ReadFrom(memory, joints, bases, JointsInMemory(memory, joints, bases))
  {
    hide ParseJointData, Shows;
    if joints != [] {
      var id := joints[|joints| - 1];
      MemoryShowsTheJoints(memory, joints[..|joints| - 1], bases);
      if id in bases {
        ParsedJointShows([memory(bases[id]), memory((bases[id] as int) + 1), memory((bases[id] as int) + 2)], id);
      }
    }
  }

  lemma {:induction false} ParseFindsAll(raw: seq<u16>, memory: int -> u16, joints: seq<JointId>,
                                         bases: map<JointId, u16>, start: u16)
    requires forall i :: 0 <= i < |raw| ==> raw[i] == memory(start + i)
    requires forall id :: id in joints && id in bases ==> start <= bases[id] && bases[id] - start + 2 < |raw|
    ensures ParsedJoints(raw, joints, bases, start) == JointsInMemory(memory, joints, bases)
  {
    hide ParseJointData;
    if joints != [] {
      var id := joints[|joints| - 1];
      ParseFindsAll(raw, memory, joints[..|joints| - 1], bases, start);
      if id in bases {
        var offset := bases[id] - start;
        assert raw[offset..offset + 3] == [memory(bases[id]), memory((bases[id] as int) + 1), memory((bases[id] as int) + 2)];
      }
    }
  }

  /** Reading the span of a device and parsing what comes back, from registers or from the
      bytes of a CAN-FD reply with its padding, yields every mapped joint from its own registers. */
  lemma SpanAndParseAgree(config: ProductConfig, start: u16, end: int, memory: int -> u16, padding: seq<byte>)
    requires IsSpan(config, start, end)
    requires FitsBelowWrap(config)
    ensures start + 2 <= end
    ensures var block := seq(end - start + 1, i requires 0 <= i => memory(start + i));
            var joints := JointsInMemory(memory, config.validJoints, config.jointInputRegisters);
            && ParsedJoints(block, config.validJoints, config.jointInputRegisters, start) == joints
            && ParsedJoints(BytesAsRegisters(RegisterBytes(block) + padding),
                            config.validJoints, config.jointInputRegisters, start) == joints
            && ReadFrom(memory, config.validJoints, config.jointInputRegisters, joints)
  {
    hide ParsedJoints, JointsInMemory, ReadFrom;
    MemoryShowsTheJoints(memory, config.validJoints, config.jointInputRegisters);
    SpanCoversIff(config, start, end);
    var id :| IsMapped(config, id) && config.jointInputRegisters[id] == start;
    var block := seq(end - start + 1, i requires 0 <= i => memory(start + i));
    var padded := BytesAsRegisters(RegisterBytes(block) + padding);
    assert forall j :: j in config.validJoints && j in config.jointInputRegisters ==> IsMapped(config, j);
    ParseFindsAll(block, memory, config.validJoints, config.jointInputRegisters, start);
    RegistersRoundTrip(block, padding);
    PrefixParsesAlike(block, padded, config.validJoints, config.jointInputRegisters, start);
  }

  /** What lies past the registers of the joints does not matter. */
  lemma {:induction false} PrefixParsesAlike(raw: seq<u16>, longer: seq<u16>, joints: seq<JointId>,
                                             bases: map<JointId, u16>, start: u16)
    requires raw <= longer
    requires forall id :: id in joints && id in bases ==> start <= bases[id] && bases[id] - start + 2 < |raw|
    ensures ParsedJoints(longer, joints, bases, start) == ParsedJoints(raw, joints, bases, start)
  {
    hide ParseJointData;
    if joints != [] {
      var id := joints[|joints| - 1];
      PrefixParsesAlike(raw, longer, joints[..|joints| - 1], bases, start);
      if id in bases {
        var offset := bases[id] - start;
        assert longer[offset..offset + 3] == raw[offset..offset + 3];
      }
    }
  }
}
