/** What a Modbus device understands of a write request: MODBUS Application Protocol V1.1b,
    sections 6.6 (write single register) and 6.12 (write multiple registers). */
module RegisterWrites {
  import opened Bytes
  import opened ByteValues
  import opened CanFrame
  import opened ModbusCodec
  import opened ModbusTransport
  import opened ModbusReassembly
  import SerialDriver

  datatype Write = Write(addr: u16, registers: seq<u16>)

  const WRITE_SINGLE: bv32 := 0x06
  const WRITE_MULTIPLE: bv32 := 0x10
  const MAX_WRITE: nat := 123

  /** The write a request asks for; bytes past the end of the request are padding. */
  function DecodeWrite(funcCode: bv32, pdu: seq<byte>): Option<Write> {
    if funcCode == WRITE_SINGLE && |pdu| >= 4 then
      Some(Write(Word(pdu[0], pdu[1]), [Word(pdu[2], pdu[3])]))
    else if funcCode == WRITE_MULTIPLE && |pdu| >= 5 then
      DecodeBlock(Word(pdu[0], pdu[1]), Word(pdu[2], pdu[3]), Value(pdu[4]), pdu[5..])
    else None
  }

  function DecodeBlock(addr: u16, count: u16, byteCount: nat, data: seq<byte>): Option<Write> {
    if 1 <= count <= MAX_WRITE && byteCount == 2 * count <= |data|
    then Some(Write(addr, BytesAsRegisters(data[..2 * count])))
    else None
  }

  lemma WordOfAddress(x: int)
    ensures Word(Octet(x / 0x100), Octet(x)) == x % 0x1_0000
  {
    hide Octet, Value;
    OctetValue(x / 0x100);
    OctetValue(x);
    TwoOctets(x);
  }

  lemma TwoOctets(x: int)
    ensures x / 0x100 % 0x100 * 0x100 + x % 0x100 == x % 0x1_0000
  {
  }

  lemma OneRegister(registers: seq<u16>)
    requires |registers| == 1
    ensures var data := RegisterBytes(registers); Word(data[0], data[1]) == registers[0]
  {
    hide Octet, Word;
    RegisterBytesAt(registers, 0);
    WordOfOctets(registers[0]);
  }

  lemma SingleIsUnderstood(addr: int, registers: seq<u16>, received: seq<byte>)
    requires |registers| == 1 && WritePdu(addr, RegisterBytes(registers)) <= received
    ensures DecodeWrite(WRITE_SINGLE, received) == Some(Write(addr % 0x1_0000, registers))
  {
    hide Octet, Word, RegisterBytes, DecodeBlock;
    var data := RegisterBytes(registers);
    var pdu := WritePdu(addr, data);
    assert pdu[0] == Octet(addr / 0x100) && pdu[1] == Octet(addr) && pdu[2] == data[0] && pdu[3] == data[1];
    WordOfAddress(addr);
    OneRegister(registers);
    assert [registers[0]] == registers;
  }

  lemma BlockShape(addr: int, data: seq<byte>, n: nat, received: seq<byte>)
    requires |data| == 2 * n && n != 1 && WritePdu(addr, data) <= received
    ensures |received| >= 5 + 2 * n
    ensures received[0] == Octet(addr / 0x100) && received[1] == Octet(addr)
    ensures received[2] == Octet(n / 0x100) && received[3] == Octet(n) && received[4] == Octet(2 * n)
    ensures data <= received[5..]
  {
    hide Octet;
    var pdu := WritePdu(addr, data);
    assert pdu[0] == received[0] && pdu[1] == received[1] && pdu[2] == received[2];
    assert pdu[3] == received[3] && pdu[4] == received[4];
    assert data == pdu[5..];
    assert pdu[5..] == received[5..][..|data|];
  }

  lemma CountsFit(n: nat)
    requires n <= MAX_WRITE
    ensures Word(Octet(n / 0x100), Octet(n)) == n && Value(Octet(2 * n)) == 2 * n
  {
    hide Octet, Word, Value;
    WordOfAddress(n);
    OctetValue(2 * n);
  }

  lemma BlockIsUnderstood(addr: int, registers: seq<u16>, received: seq<byte>)
    requires 2 <= |registers| <= MAX_WRITE && WritePdu(addr, RegisterBytes(registers)) <= received
    ensures DecodeWrite(WRITE_MULTIPLE, received) == Some(Write(addr % 0x1_0000, registers))
  {
    hide Octet, Word, Value, RegisterBytes, DecodeBlock, WritePdu;
    var n := |registers|;
    BlockShape(addr, RegisterBytes(registers), n, received);
    WordOfAddress(addr);
    CountsFit(n);
    BlockDecodes(addr % 0x1_0000, registers, received[5..]);
  }

  lemma BlockDecodes(addr: u16, registers: seq<u16>, data: seq<byte>)
    requires 2 <= |registers| <= MAX_WRITE
    requires RegisterBytes(registers) <= data
    ensures DecodeBlock(addr, |registers|, 2 * |registers|, data) == Some(Write(addr, registers))
  {
    hide RegisterBytes, BytesAsRegisters;
    RegistersRoundTrip(registers, []);
    assert RegisterBytes(registers) + [] == RegisterBytes(registers) == data[..2 * |registers|];
  }

  /** A device decodes every request the SDK can build for up to 123 registers to the very
      registers it was given, at the address it was given, whatever padding follows. */
  lemma WriteIsUnderstood(addr: int, registers: seq<u16>, received: seq<byte>)
    requires 1 <= |registers| <= MAX_WRITE
    requires WritePdu(addr, RegisterBytes(registers)) <= received
    ensures DecodeWrite(WriteFunction(RegisterBytes(registers)), received) == Some(Write(addr % 0x1_0000, registers))
  {
    hide WritePdu, DecodeWrite, RegisterBytes;
    if |registers| == 1 {
      SingleIsUnderstood(addr, registers, received);
    } else {
      BlockIsUnderstood(addr, registers, received);
    }
  }

  /** End to end: the frames WriteRegisters emits for up to 123 registers, printed on the
      serial line, read back, joined by segment number from any order with repetitions,
      are understood by the device as exactly that write. */
  lemma WriteReachesTheDevice(src: bv32, dst: bv32, addr: int, registers: seq<u16>, canIndex: bv8)
    requires src <= 0x3F && dst <= 0x3F && 1 <= |registers| <= MAX_WRITE
    ensures var data := RegisterBytes(registers);
            var frames := Segments(src, dst, 0, WriteFunction(data), WritePdu(addr, data));
            var received := SerialDriver.Drain(SerialDriver.Arriving(Wire(frames, canIndex)));
            forall shuffled: seq<Packet> :: (forall p :: p in shuffled <==> p in received) ==>
              DecodeWrite(WriteFunction(data), Join(Collect(shuffled), SEGMENT_NUMBERS))
              == Some(Write(addr % 0x1_0000, registers))
  {
    hide Segments, SerialDriver.Drain, SerialDriver.Arriving, Wire, Join, Collect, DecodeWrite, UnpackArbitration,
         SegmentNumber;
    var data := RegisterBytes(registers);
    var pdu := WritePdu(addr, data);
    assert |pdu| <= 251 && SegmentCount(pdu) <= 4;
    WriteCrossesTheWire(src, dst, 0, WriteFunction(data), pdu, canIndex);
    var frames := Segments(src, dst, 0, WriteFunction(data), pdu);
    var received := SerialDriver.Drain(SerialDriver.Arriving(Wire(frames, canIndex)));
    forall shuffled: seq<Packet> | forall p :: p in shuffled <==> p in received
      ensures DecodeWrite(WriteFunction(data), Join(Collect(shuffled), SEGMENT_NUMBERS))
           == Some(Write(addr % 0x1_0000, registers))
    {
      WriteIsUnderstood(addr, registers, Join(Collect(shuffled), SEGMENT_NUMBERS));
    }
  }

  // ---- What the device hears ----

  /** What comes out of the serial line at the other end. */
  function Received(frames: seq<Frame>, canIndex: bv8): seq<Packet> {
    SerialDriver.Drain(SerialDriver.Arriving(Wire(frames, canIndex)))
  }

  /** The write a device takes from what it received, if it is meant for this device. */
  function Heard(received: seq<Packet>, address: bv32): Option<Write> {
    if received == [] || UnpackArbitration(received[0].id).dst != address then None
    else DecodeWrite(UnpackArbitration(received[0].id).funcCode, Join(Collect(received), SEGMENT_NUMBERS))
  }

  lemma FirstFields(src: bv32, dst: bv32, funcCode: bv32, pdu: seq<byte>, canIndex: bv8)
    requires src <= 0x3F && dst <= 0x3F && funcCode <= 0xFF && pdu != [] && SegmentCount(pdu) <= SEGMENT_NUMBERS
    ensures var received := Received(Segments(src, dst, 0, funcCode, pdu), canIndex);
            && received != []
            && UnpackArbitration(received[0].id).dst == dst && UnpackArbitration(received[0].id).funcCode == funcCode
  {
    hide Segments, SerialDriver.Drain, SerialDriver.Arriving, Wire, Join, Collect, UnpackArbitration, SegmentNumber;
    WriteCrossesTheWire(src, dst, 0, funcCode, pdu, canIndex);
  }

  lemma PduIsShort(addr: int, registers: seq<u16>)
    requires 1 <= |registers| <= MAX_WRITE
    ensures var data := RegisterBytes(registers);
            WritePdu(addr, data) != [] && SegmentCount(WritePdu(addr, data)) <= 4 && WriteFunction(data) <= 0x7F
  {
    hide AddressBytes, Octet;
  }

  /** A write of up to 123 registers is heard by the device it is addressed to as it was meant. */
  lemma WriteIsHeard(src: bv32, dst: bv32, addr: int, registers: seq<u16>, canIndex: bv8)
    requires src <= 0x3F && dst <= 0x3F && 1 <= |registers| <= MAX_WRITE
    ensures var data := RegisterBytes(registers);
            var frames := Segments(src, dst, 0, WriteFunction(data), WritePdu(addr, data));
            Heard(Received(frames, canIndex), dst) == Some(Write(addr % 0x1_0000, registers))
  {
    hide Segments, SerialDriver.Drain, SerialDriver.Arriving, Wire, Join, Collect, DecodeWrite, UnpackArbitration,
         WriteFunction, WritePdu, RegisterBytes, SegmentCount;
    var data := RegisterBytes(registers);
    PduIsShort(addr, registers);
    FirstFields(src, dst, WriteFunction(data), WritePdu(addr, data), canIndex);
    WriteReachesTheDevice(src, dst, addr, registers, canIndex);
  }

  lemma NothingIsHeard(canIndex: bv8, address: bv32)
    ensures Heard(Received([], canIndex), address).None?
  {
  }

  // ---- Part of a request ----

  /** The frames a write of `n` registers takes. */
  function FrameCount(n: nat): (count: nat)
    ensures 1 <= n <= 29 ==> count == 1
  {
    if n == 1 then 1 else (5 + 2 * n + SEGMENT_SIZE - 1) / SEGMENT_SIZE
  }

  lemma FramesOfAWrite(src: bv32, dst: bv32, addr: int, registers: seq<u16>)
    ensures var data := RegisterBytes(registers);
            |Segments(src, dst, 0, WriteFunction(data), WritePdu(addr, data))| == FrameCount(|registers|)
  {
    hide AddressBytes, Octet, PackArbitration;
  }

  /** The parts numbered below `k`, and no others, join to what they join to in the whole. */
  lemma {:induction false} JoinFirst(first: map<nat, seq<byte>>, all: map<nat, seq<byte>>, k: nat, m: nat)
    requires forall j: nat :: j in first <==> j < k
    requires forall j: nat :: j < k ==> j in all && first[j] == all[j]
    ensures Join(first, m) == Join(all, if m < k then m else k)
  {
    if m > 0 {
      JoinFirst(first, all, k, m - 1);
    }
  }

  function FirstChunks(pdu: seq<byte>, k: nat): map<nat, seq<byte>>
    requires k <= SegmentCount(pdu)
  {
    map j: nat | 0 <= j < k :: PaddedChunk(pdu, j)
  }

  /** What the first `k` frames of a request carry. */
  lemma FirstFramesJoin(src: bv32, dst: bv32, funcCode: bv32, pdu: seq<byte>, k: nat, canIndex: bv8)
    requires src <= 0x3F && dst <= 0x3F && funcCode <= 0xFF && pdu != []
    requires 0 < k < SegmentCount(pdu) <= SEGMENT_NUMBERS
    ensures var received := Received(Segments(src, dst, 0, funcCode, pdu)[..k], canIndex);
            && received != [] && UnpackArbitration(received[0].id).funcCode == funcCode
            && Join(Collect(received), SEGMENT_NUMBERS) == pdu[..SEGMENT_SIZE * k]
  {
    hide SerialDriver.Drain, UnpackArbitration, Segment, Id29, PaddedChunk, Join, Collect, IsLegalLength, Wire,
         SerialDriver.Arriving, NumberOf, SegmentNumber;
    var frames := Segments(src, dst, 0, funcCode, pdu)[..k];
    forall i | 0 <= i < k
      ensures IsLegalLength(frames[i].len) && Id29(frames[i].id) == frames[i].id
      ensures NumberOf(PacketOf(frames[i])) == i && PacketOf(frames[i]).payload == PaddedChunk(pdu, i)
      ensures UnpackArbitration(PacketOf(frames[i]).id).funcCode == funcCode
    {
      SegmentOnTheWire(src, dst, 0, funcCode, pdu, i);
    }
    WireDelivers(frames, canIndex);
    CollectInAnyOrder(Packets(frames), FirstChunks(pdu, k));
    forall j: nat
      ensures j in Collect(Packets(frames)) <==> j < k
    {
      if j < k {
        assert Packets(frames)[j] in Packets(frames);
      }
    }
    JoinFirst(Collect(Packets(frames)), AllChunks(pdu), k, SEGMENT_NUMBERS);
    JoinChunks(pdu, k);
  }

  lemma CutBlockIsNoWrite(addr: int, registers: seq<u16>, k: nat)
    requires 2 <= |registers| <= MAX_WRITE && 5 <= k < |WritePdu(addr, RegisterBytes(registers))|
    ensures DecodeWrite(WRITE_MULTIPLE, WritePdu(addr, RegisterBytes(registers))[..k]).None?
  {
    hide Octet, Word, Value, RegisterBytes, WritePdu;
    BlockShape(addr, RegisterBytes(registers), |registers|, WritePdu(addr, RegisterBytes(registers)));
    CountsFit(|registers|);
    BlockLength(addr, RegisterBytes(registers));
  }

  lemma BlockLength(addr: int, data: seq<byte>)
    requires |data| != 2
    ensures |WritePdu(addr, data)| == 5 + |data|
  {
  }

  /** A request that breaks off is no write to any device. */
  lemma PartOfAWriteIsNotHeard(src: bv32, dst: bv32, addr: int, registers: seq<u16>, k: nat, canIndex: bv8, address: bv32)
    requires src <= 0x3F && dst <= 0x3F && 1 <= |registers| <= MAX_WRITE && k < FrameCount(|registers|)
    ensures var data := RegisterBytes(registers);
            var frames := Segments(src, dst, 0, WriteFunction(data), WritePdu(addr, data));
            k < |frames| && Heard(Received(frames[..k], canIndex), address).None?
  {
    hide Segments, Received, Join, Collect, DecodeWrite, UnpackArbitration, WriteFunction, WritePdu, RegisterBytes,
         SegmentCount;
    var data := RegisterBytes(registers);
    FramesOfAWrite(src, dst, addr, registers);
    if k == 0 {
      assert Segments(src, dst, 0, WriteFunction(data), WritePdu(addr, data))[..0] == [];
      NothingIsHeard(canIndex, address);
    } else {
      PduIsShort(addr, registers);
      SegmentsCounted(src, dst, WriteFunction(data), WritePdu(addr, data), k);
      FirstFramesJoin(src, dst, WriteFunction(data), WritePdu(addr, data), k, canIndex);
      BlockFunction(data);
      CutBlockIsNoWrite(addr, registers, SEGMENT_SIZE * k);
    }
  }

  lemma SegmentsCounted(src: bv32, dst: bv32, funcCode: bv32, pdu: seq<byte>, k: nat)
    requires pdu != []
    ensures |Segments(src, dst, 0, funcCode, pdu)| == SegmentCount(pdu)
    ensures k < SegmentCount(pdu) ==> SEGMENT_SIZE * k < |pdu|
  {
  }

  lemma BlockFunction(data: seq<byte>)
    ensures |data| != 2 ==> WriteFunction(data) == WRITE_MULTIPLE
  {
  }

  /** Nor is a request to another device. */
  lemma OtherDeviceHearsNothing(src: bv32, dst: bv32, addr: int, registers: seq<u16>, canIndex: bv8, address: bv32)
    requires src <= 0x3F && dst <= 0x3F && 1 <= |registers| <= MAX_WRITE && address != dst
    ensures var data := RegisterBytes(registers);
            Heard(Received(Segments(src, dst, 0, WriteFunction(data), WritePdu(addr, data)), canIndex), address).None?
  {
    hide Segments, Received, Join, Collect, DecodeWrite, UnpackArbitration, WriteFunction, WritePdu, RegisterBytes,
         SegmentCount;
    var data := RegisterBytes(registers);
    PduIsShort(addr, registers);
    FirstFields(src, dst, WriteFunction(data), WritePdu(addr, data), canIndex);
  }
}
