/** What a Modbus device understands of a read request, and what it replies: MODBUS Application
    Protocol V1.1b, sections 6.3 (read holding registers) and 6.4 (read input registers). */
module RegisterReads {
  import opened Bytes
  import opened ByteValues
  import opened CanFrame
  import opened ModbusCodec
  import opened ModbusTransport
  import opened ModbusReassembly
  import opened RegisterWrites
  import SerialDriver

  const READ_HOLDING: bv32 := 0x03
  const READ_INPUT: bv32 := 0x04

  datatype Read = Read(funcCode: bv32, addr: u16, count: u16)

  /** The read a request asks for: the address, then the count, high bytes first; bytes past
      the end of the request are padding. */
  function DecodeRead(funcCode: bv32, pdu: seq<byte>): Option<Read> {
    if (funcCode == READ_HOLDING || funcCode == READ_INPUT) && |pdu| >= 4
    then Some(Read(funcCode, Value(pdu[0]) * 0x100 + Value(pdu[1]), Value(pdu[2]) * 0x100 + Value(pdu[3])))
    else None
  }

  /** A device decodes every read request to the address and the count it was made for. */
  lemma ReadIsUnderstood(funcCode: bv32, addr: int, count: int, received: seq<byte>)
    requires (funcCode == READ_HOLDING || funcCode == READ_INPUT) && ReadPdu(addr, count) <= received
    ensures DecodeRead(funcCode, received) == Some(Read(funcCode, addr % 0x1_0000, count % 0x1_0000))
  {
    hide Octet, Value;
    WordOfAddress(addr);
    WordOfAddress(count);
    var pdu := ReadPdu(addr, count);
    assert pdu[0] == received[0] && pdu[1] == received[1] && pdu[2] == received[2] && pdu[3] == received[3];
  }

  /** The read a device takes from what it received, if it is meant for this device. */
  function Asked(received: seq<Packet>, address: bv32): Option<Read> {
    if received == [] || UnpackArbitration(received[0].id).dst != address then None
    else DecodeRead(UnpackArbitration(received[0].id).funcCode, Join(Collect(received), SEGMENT_NUMBERS))
  }

  /** A read request, printed on the serial line and read back, asks the device it is addressed
      to for exactly the registers it was made for, and asks nothing of any other device. */
  lemma ReadIsHeard(src: bv32, dst: bv32, funcCode: bv32, addr: int, count: int, canIndex: bv8, address: bv32)
    requires src <= 0x3F && dst <= 0x3F && (funcCode == READ_HOLDING || funcCode == READ_INPUT)
    ensures Asked(Received(Segments(src, dst, 0, funcCode, ReadPdu(addr, count)), canIndex), address) ==
            if address == dst then Some(Read(funcCode, addr % 0x1_0000, count % 0x1_0000)) else None
  {
    hide Segments, Wire, Join, Collect, DecodeRead, UnpackArbitration, ReadPdu, SegmentNumber, Received;
    var pdu := ReadPdu(addr, count);
    FirstFields(src, dst, funcCode, pdu, canIndex);
    RequestArrives(src, dst, funcCode, pdu, canIndex);
    ReadIsUnderstood(funcCode, addr, count,
                     Join(Collect(Received(Segments(src, dst, 0, funcCode, pdu), canIndex)), SEGMENT_NUMBERS));
  }

  lemma RequestArrives(src: bv32, dst: bv32, funcCode: bv32, pdu: seq<byte>, canIndex: bv8)
    requires src <= 0x3F && dst <= 0x3F && funcCode <= 0xFF && |pdu| == 4
    ensures pdu <= Join(Collect(Received(Segments(src, dst, 0, funcCode, pdu), canIndex)), SEGMENT_NUMBERS)
  {
    hide Segments, SerialDriver.Drain, SerialDriver.Arriving, Wire, Join, Collect, UnpackArbitration, SegmentNumber;
    WriteCrossesTheWire(src, dst, 0, funcCode, pdu, canIndex);
  }

  /** The reply to a read of registers: their number of bytes, and the bytes. */
  function ReadReply(block: seq<u16>): (reply: seq<byte>)
    ensures |reply| == 1 + 2 * |block|
  {
    [Octet(2 * |block|)] + RegisterBytes(block)
  }

  /** What a device with this memory replies. */
  function AnswerTo(memory: int -> u16, read: Read): seq<byte> {
    ReadReply(RegistersAt(memory, read.addr, read.count))
  }

  function RegistersAt(memory: int -> u16, addr: int, count: nat): (block: seq<u16>)
    ensures |block| == count
    ensures forall i :: 0 <= i < count ==> block[i] == memory(addr + i)
  {
    seq(count, i requires 0 <= i => memory(addr + i))
  }
}
