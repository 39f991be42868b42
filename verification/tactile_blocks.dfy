/** The tactile sensors: one block of registers a region, three bytes a sensor. */
module TactileBlocks {
  import opened Bytes
  import opened ByteValues
  import opened ProductConfiguration
  import opened ModbusCodec

  datatype Force = Force(x: real, y: real, z: real)

  const FIRST_BLOCK: int := 0x1080 + 16
  const BYTES_PER_SENSOR: nat := 3

  /** Regions as validation leaves them. */
  predicate HaveSensors(regions: seq<TactileRegion>) {
    forall r :: r in regions ==> r.sensorCount > 0
  }

  function BlockLength(count: nat): nat {
    (count * BYTES_PER_SENSOR + 1) / 2
  }

  function BlockStart(regions: seq<TactileRegion>, i: nat): (start: int)
    requires HaveSensors(regions) && i <= |regions|
    ensures start >= FIRST_BLOCK
  {
    if i == 0 then FIRST_BLOCK else BlockStart(regions, i - 1) + BlockLength(regions[i - 1].sensorCount)
  }

  function ForceAt(bytes: seq<byte>, i: nat): Force
    requires 3 * i + 2 < |bytes|
  {
    Force(Signed8(Value(bytes[3 * i])) as real / 10.0, Signed8(Value(bytes[3 * i + 1])) as real / 10.0,
          Value(bytes[3 * i + 2]) as real / 10.0)
  }

  function ForcesIn(bytes: seq<byte>, count: nat): (forces: seq<Force>)
    ensures |forces| == if |bytes| / 3 < count then |bytes| / 3 else count
  {
    var n := if |bytes| / 3 < count then |bytes| / 3 else count;
    seq(n, i requires 0 <= i < n => ForceAt(bytes, i))
  }

  /** A force in numbers: tenths, the first two signed. */
  predicate IsForce(f: Force, x: int, y: int, z: int) {
    && 10.0 * f.x == (if x < 0x80 then x else x - 0x100) as real
    && 10.0 * f.y == (if y < 0x80 then y else y - 0x100) as real
    && 10.0 * f.z == z as real
  }

  lemma ForceAtIs(bytes: seq<byte>, i: nat)
    requires 3 * i + 2 < |bytes|
    ensures IsForce(ForceAt(bytes, i), Value(bytes[3 * i]), Value(bytes[3 * i + 1]), Value(bytes[3 * i + 2]))
  {
    hide Value;
  }

  method ParseTactileDistributed(bytes: seq<byte>, count: nat) returns (forces: seq<Force>)
    ensures forces == ForcesIn(bytes, count)
  {
    forces := [];
    var expected := count * 3;
    var length := if |bytes| < expected then |bytes| else expected;
    var i := 0;
    while i + 2 < length
      invariant i == 3 * |forces| && |forces| <= |ForcesIn(bytes, count)|
      invariant forces == ForcesIn(bytes, count)[..|forces|]
      decreases length - i
    {
      var x, y, z := Signed8(Value(bytes[i])), Signed8(Value(bytes[i + 1])), Value(bytes[i + 2]);
      forces := forces + [Force(x as real / 10.0, y as real / 10.0, z as real / 10.0)];
      i := i + 3;
    }
  }

  /** Blocks are as short as their sensors allow, and no two regions share a register. */
  lemma {:induction false} BlocksAreDisjoint(regions: seq<TactileRegion>, i: nat, j: nat)
    requires HaveSensors(regions) && i < j <= |regions|
    ensures var count := regions[i].sensorCount;
            && 2 * BlockLength(count) - 1 <= 3 * count <= 2 * BlockLength(count)
            && BlockStart(regions, i) + BlockLength(count) <= BlockStart(regions, j)
            && (j == i + 1 ==> BlockStart(regions, i) + BlockLength(count) == BlockStart(regions, j))
    decreases j
  {
    if j > i + 1 {
      BlocksAreDisjoint(regions, i, j - 1);
    }
  }

  /** Whole blocks are read in one request, which the Modbus protocol limits to 125 registers
      (section 6.4 of the Modbus Application Protocol Specification V1.1b3). */
  lemma BlockFitsOneReadIff(count: nat)
    ensures BlockLength(count) <= MAX_READ <==> count <= 83
  {
  }

  const MAX_READ: nat := 125

  // ---- The status block ----

  /** Registers asked for ahead of the regions: sensor state and error, and three for each
      region's resultant force. */
  const STATUS_LENGTH: nat := 16

  predicate BitSet(x: nat, i: nat) {
    if i == 0 then x % 2 == 1 else BitSet(x / 2, i - 1)
  }

  /** The state byte has a bit for each region. */
  predicate IsActive(status: seq<u16>, i: nat)
    requires status != []
  {
    BitSet(status[0] / 0x100, i)
  }

  /** The last register that is read for a region. */
  function LastOf(i: nat): nat {
    3 * i + 3
  }

  function ResultantAt(status: seq<u16>, i: nat): Force
    requires LastOf(i) < |status|
  {
    Force(Signed8(status[3 * i + 1] / 0x100) as real / 10.0, Signed8(status[3 * i + 2] / 0x100) as real / 10.0,
          (status[3 * i + 3] / 0x100) as real / 10.0)
  }

  /** In the high bytes of the region's three registers. */
  lemma ResultantIs(status: seq<u16>, i: nat)
    requires LastOf(i) < |status|
    ensures IsForce(ResultantAt(status, i), status[3 * i + 1] / 0x100, status[3 * i + 2] / 0x100, status[3 * i + 3] / 0x100)
  {
  }

  /** `x` as a sum of powers of two: a region is active iff its power is among them. */
  function PowerOfTwo(i: nat): nat {
    if i == 0 then 1 else 2 * PowerOfTwo(i - 1)
  }

  lemma {:induction false} BitIs(high: nat, bit: bool, low: nat, i: nat)
    requires low < PowerOfTwo(i)
    ensures BitSet((2 * high + (if bit then 1 else 0)) * PowerOfTwo(i) + low, i) == bit
  {
    var digit := if bit then 1 else 0;
    if i > 0 {
      var x := (2 * high + digit) * PowerOfTwo(i) + low;
      HalfOf(2 * high + digit, PowerOfTwo(i - 1), low);
      BitIs(high, bit, low / 2, i - 1);
    }
  }

  /** In the first register the state byte comes before the error byte. */
  lemma {:induction false} ActiveIs(status: seq<u16>, i: nat, high: nat, bit: bool, low: nat, error: byte)
    requires status != [] && low < PowerOfTwo(i)
    requires status[0] == 0x100 * ((2 * high + (if bit then 1 else 0)) * PowerOfTwo(i) + low) + error as int
    ensures IsActive(status, i) == bit
  {
    hide BitSet, PowerOfTwo;
    BitIs(high, bit, low, i);
  }

  lemma HalfOf(a: nat, p: nat, low: nat)
    ensures (a * (2 * p) + low) / 2 == a * p + low / 2
  {
    assert a * (2 * p) == 2 * (a * p);
  }

  method ParseTactileResultant(raw: seq<u16>, index: nat) returns (f: Force)
    requires LastOf(index) < |raw|
    ensures f == ResultantAt(raw, index)
  {
    var base := 1 + index * 3;
    var rawX: int, rawY: int, rawZ: int := raw[base] / 0x100, raw[base + 1] / 0x100, raw[base + 2] / 0x100;
    var x := if rawX >= 0x80 then (rawX - 0x100) as real / 10.0 else rawX as real / 10.0;
    var y := if rawY >= 0x80 then (rawY - 0x100) as real / 10.0 else rawY as real / 10.0;
    f := Force(x, y, rawZ as real / 10.0);
  }

  /** What is read for the resultants of `n` regions lies inside the status block. */
  predicate ReadsStayInside(n: nat, length: nat) {
    forall i: nat :: i < n ==> LastOf(i) < length
  }

  /** Nothing bounds the number of regions: past the fifth the block of 16 is too short. */
  lemma ReadsStayInsideIff(n: nat, length: nat)
    ensures ReadsStayInside(n, length) <==> n == 0 || 3 * n < length
    ensures ReadsStayInside(n, STATUS_LENGTH) <==> n <= 5
  {
    if n > 0 {
      assert LastOf(n - 1) == 3 * n;
    }
  }

  // ---- Reading the regions ----

  datatype Request = Request(addr: int, count: nat)

  datatype RegionTactile = RegionTactile(active: bool, resultant: Force, distributed: seq<Force>)

  function BlockOf(regions: seq<TactileRegion>, i: nat): Request
    requires HaveSensors(regions) && i < |regions|
  {
    Request(BlockStart(regions, i), BlockLength(regions[i].sensorCount))
  }

  function BlockForces(regions: seq<TactileRegion>, i: nat, bytes: seq<byte>): seq<Force>
    requires HaveSensors(regions) && i < |regions|
  {
    ForcesIn(bytes, regions[i].sensorCount)
  }

  lemma AreBlockForces(regions: seq<TactileRegion>, i: nat, bytes: seq<byte>)
    requires HaveSensors(regions) && i < |regions|
    ensures BlockForces(regions, i, bytes) == ForcesIn(bytes, regions[i].sensorCount)
  {
  }

  /** A region as it is read from the status block and its own. */
  function Region(status: seq<u16>, i: nat, distributed: seq<Force>): RegionTactile
    requires LastOf(i) < |status|
  {
    RegionTactile(IsActive(status, i), ResultantAt(status, i), distributed)
  }

  lemma IsRegion(status: seq<u16>, i: nat, distributed: seq<Force>)
    requires LastOf(i) < |status|
    ensures Region(status, i, distributed) == RegionTactile(IsActive(status, i), ResultantAt(status, i), distributed)
  {
  }

  /** The loop over RS485: a region whose block cannot be read has no distributed forces. */
  method ReadRegionsOverRS485(regions: seq<TactileRegion>, status: seq<u16>, answers: seq<Option<seq<u16>>>)
    returns (read: seq<RegionTactile>, asked: seq<Request>)
    requires HaveSensors(regions) && |answers| == |regions|
    requires |status| == STATUS_LENGTH && ReadsStayInside(|regions|, |status|)
    ensures |asked| == |regions| && forall i :: 0 <= i < |regions| ==> asked[i] == BlockOf(regions, i)
    ensures |read| == |regions|
    ensures forall i :: 0 <= i < |regions| ==>
      read[i] == Region(status, i, if answers[i].Some? then BlockForces(regions, i, RegisterBytes(answers[i].value)) else [])
  {
    hide BlockForces, RegisterBytes, Region;
    read, asked := [], [];
    var addr := FIRST_BLOCK;
    for i := 0 to |regions|
      invariant addr == BlockStart(regions, i)
      invariant |asked| == i && forall k :: 0 <= k < i ==> asked[k] == BlockOf(regions, k)
      invariant |read| == i && forall k :: 0 <= k < i ==>
        read[k] == Region(status, k, if answers[k].Some? then BlockForces(regions, k, RegisterBytes(answers[k].value)) else [])
    {
      var resultant := ParseTactileResultant(status, i);
      var count := (regions[i].sensorCount * 3 + 1) / 2;
      asked := asked + [Request(addr, count)];
      var distributed: seq<Force> := [];
      if answers[i].Some? {
        var bytes := RegistersToBytes(answers[i].value);
        distributed := ParseTactileDistributed(bytes, regions[i].sensorCount);
        AreBlockForces(regions, i, bytes);
      }
      addr := addr + count;
      IsRegion(status, i, distributed);
      read := read + [RegionTactile(IsActive(status, i), resultant, distributed)];
    }
  }

  /** All blocks before region `i` are answered, so its resultant is read. */
  predicate GetsTo<T>(answers: seq<Option<T>>, i: nat) {
    i < |answers| && forall k :: 0 <= k < i ==> answers[k].Some?
  }

  /** The loop over CAN-FD: the first block that cannot be read ends it. How many status
      registers there are depends on the reply. */
  method ReadRegionsOverCANFD(regions: seq<TactileRegion>, status: seq<u16>, answers: seq<Option<seq<byte>>>)
    returns (read: seq<RegionTactile>, asked: seq<Request>)
    requires HaveSensors(regions) && |answers| == |regions|
    requires status != [] && forall i :: GetsTo(answers, i) ==> LastOf(i) < |status|
    ensures |read| <= |regions| && forall i :: 0 <= i < |read| ==>
      && LastOf(i) < |status| && answers[i].Some?
      && read[i] == Region(status, i, BlockForces(regions, i, answers[i].value))
    ensures |read| < |regions| ==> answers[|read|].None?
    ensures |asked| == (if |read| < |regions| then |read| + 1 else |regions|)
    ensures forall i :: 0 <= i < |asked| ==> asked[i] == BlockOf(regions, i)
  {
    hide BlockForces, Region;
    read, asked := [], [];
    var addr := FIRST_BLOCK;
    for i := 0 to |regions|
      invariant addr == BlockStart(regions, i)
      invariant |asked| == i && forall k :: 0 <= k < i ==> asked[k] == BlockOf(regions, k)
      invariant |read| == i && forall k :: 0 <= k < i ==>
        && LastOf(k) < |status| && answers[k].Some?
        && read[k] == Region(status, k, BlockForces(regions, k, answers[k].value))
    {
      assert GetsTo(answers, i);
      var resultant := ParseTactileResultant(status, i);
      var count := (regions[i].sensorCount * 3 + 1) / 2;
      asked := asked + [Request(addr, count)];
      if answers[i].None? {
        return;
      }
      var distributed := ParseTactileDistributed(answers[i].value, regions[i].sensorCount);
      AreBlockForces(regions, i, answers[i].value);
      addr := addr + count;
      IsRegion(status, i, distributed);
      read := read + [RegionTactile(IsActive(status, i), resultant, distributed)];
    }
  }

  /** The first block follows the status block at 0x1080, and each one the one before it, three
      bytes a sensor rounded up to whole registers. */
  lemma BlocksAreSideBySide(regions: seq<TactileRegion>, i: nat)
    requires HaveSensors(regions) && i < |regions|
    ensures BlockOf(regions, 0).addr == 0x1090
    ensures 3 * regions[i].sensorCount <= 2 * BlockOf(regions, i).count <= 3 * regions[i].sensorCount + 1
    ensures i > 0 ==> BlockOf(regions, i).addr == BlockOf(regions, i - 1).addr + BlockOf(regions, i - 1).count
  {
  }

  /** Byte `k` of a block: registers are sent high byte first. */
  function ByteAt(memory: int -> u16, start: int, k: nat): byte {
    if k % 2 == 0 then Octet(memory(start + k / 2) / 0x100) else Octet(memory(start + k / 2))
  }

  function SensorBytes(memory: int -> u16, start: int, i: nat): seq<byte> {
    [ByteAt(memory, start, 3 * i), ByteAt(memory, start, 3 * i + 1), ByteAt(memory, start, 3 * i + 2)]
  }

  lemma BlockByte(memory: int -> u16, start: int, block: seq<u16>, padding: seq<byte>, k: nat)
    requires k < 2 * |block| && forall i :: 0 <= i < |block| ==> block[i] == memory(start + i)
    ensures (RegisterBytes(block) + padding)[k] == ByteAt(memory, start, k)
  {
    hide Octet, RegisterBytes;
    var i := k / 2;
    RegisterBytesAt(block, i);
    assert block[i] == memory(start + i);
    if k % 2 == 0 {
      assert k == 2 * i;
    } else {
      assert k == 2 * i + 1;
    }
    assert (RegisterBytes(block) + padding)[k] == RegisterBytes(block)[k];
  }

  /** A block read whole, with or without padding behind it, gives one force a sensor, each
      from that sensor's own three bytes, whichever transport read it. */
  lemma WholeBlocksGiveEverySensor(memory: int -> u16, start: int, count: nat, padding: seq<byte>)
    ensures var block := seq(BlockLength(count), i requires 0 <= i => memory(start + i));
            var forces := ForcesIn(RegisterBytes(block) + padding, count);
            && |forces| == count
            && (forall i :: 0 <= i < count ==>
                  IsForce(forces[i], Value(ByteAt(memory, start, 3 * i)), Value(ByteAt(memory, start, 3 * i + 1)),
                          Value(ByteAt(memory, start, 3 * i + 2))))
            && forces == ForcesIn(RegisterBytes(block), count)
  {
    hide ByteAt, Value, Signed8, RegisterBytes;
    var block := seq(BlockLength(count), i requires 0 <= i => memory(start + i));
    assert RegisterBytes(block) + [] == RegisterBytes(block);
    forall i | 0 <= i < count
      ensures ForcesIn(RegisterBytes(block) + padding, count)[i] == ForceAt(SensorBytes(memory, start, i), 0)
      ensures ForcesIn(RegisterBytes(block), count)[i] == ForceAt(SensorBytes(memory, start, i), 0)
    {
      OneSensor(memory, start, block, padding, i);
      OneSensor(memory, start, block, [], i);
    }
    hide ForceAt;
    forall i | 0 <= i < count
      ensures IsForce(ForcesIn(RegisterBytes(block) + padding, count)[i], Value(ByteAt(memory, start, 3 * i)),
                      Value(ByteAt(memory, start, 3 * i + 1)), Value(ByteAt(memory, start, 3 * i + 2)))
    {
      ForceAtIs(SensorBytes(memory, start, i), 0);
    }
  }

  lemma OneSensor(memory: int -> u16, start: int, block: seq<u16>, padding: seq<byte>, i: nat)
    requires 3 * i + 2 < 2 * |block| && forall k :: 0 <= k < |block| ==> block[k] == memory(start + k)
    ensures ForceAt(RegisterBytes(block) + padding, i) == ForceAt(SensorBytes(memory, start, i), 0)
  {
    hide ByteAt, Value, Signed8, RegisterBytes;
    BlockByte(memory, start, block, padding, 3 * i);
    BlockByte(memory, start, block, padding, 3 * i + 1);
    BlockByte(memory, start, block, padding, 3 * i + 2);
  }
}
