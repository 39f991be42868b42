/** CAN-FD frames, the legal payload lengths, and the two arbitration-id layouts. */
module CanFrame {
  import opened Bytes
  import opened ByteValues

  const MAX_DATA: nat := 64

  /** The lengths a CAN-FD data field can have, in increasing order. */
  const LEGAL_LENGTHS: seq<nat> := [0, 1, 2, 3, 4, 5, 6, 7, 8, 12, 16, 20, 24, 32, 48, 64]

  predicate IsLegalLength(n: nat) {
    n in LEGAL_LENGTHS
  }

  /** A frame always carries the whole 64-byte data field; `len` says how much of it counts. */
  datatype RawFrame = Frame(id: bv32, data: seq<byte>, len: nat) {
    function Payload(): seq<byte>
      requires len <= |data|
    {
      data[..len]
    }
  }

  type Frame = f: RawFrame | |f.data| == MAX_DATA && f.len <= MAX_DATA
    witness RawFrame.Frame(0, Zeros(MAX_DATA), 0)

  /** What a receiver makes of a frame: its id and the bytes that count. */
  datatype RawPacket = Packet(id: bv32, payload: seq<byte>)

  type Packet = p: RawPacket | |p.payload| <= MAX_DATA
    witness RawPacket.Packet(0, [])

  function PacketOf(f: Frame): Packet {
    RawPacket.Packet(f.id, f.Payload())
  }

  /** The 29 bits of an extended CAN id. */
  function Id29(id: bv32): bv32 {
    id & 0x1FFF_FFFF
  }

  function FirstAtLeast(lengths: seq<nat>, len: nat): nat {
    if lengths == [] then MAX_DATA
    else if lengths[0] >= len then lengths[0]
    else FirstAtLeast(lengths[1..], len)
  }

  /** Both the transport (NearestCanfdLength) and the serial driver (DlcLength)
      look a length up in the same table this way. */
  function NearestLength(len: nat): (r: nat)
    ensures IsLegalLength(r) && r <= MAX_DATA
    ensures len <= MAX_DATA ==> len <= r
    ensures forall other :: IsLegalLength(other) && len <= other ==> r <= other
    ensures r == len <==> IsLegalLength(len)
  {
    NearestIsLeast(LEGAL_LENGTHS, len);
    FirstAtLeast(LEGAL_LENGTHS, len)
  }

  lemma {:induction false} NearestIsLeast(lengths: seq<nat>, len: nat)
    requires lengths != [] && lengths[|lengths| - 1] == MAX_DATA
    requires forall i, j :: 0 <= i < j < |lengths| ==> lengths[i] < lengths[j]
    ensures FirstAtLeast(lengths, len) in lengths
    ensures len <= MAX_DATA ==> len <= FirstAtLeast(lengths, len)
    ensures forall other :: other in lengths && len <= other ==> FirstAtLeast(lengths, len) <= other
  {
    if lengths[0] < len && |lengths| > 1 {
      NearestIsLeast(lengths[1..], len);
      assert forall other :: other in lengths ==> other == lengths[0] || other in lengths[1..];
    }
  }

  // ---- Arbitration id of the Modbus-over-CAN-FD transport ----

  datatype Arbitration = Arbitration(src: bv32, dst: bv32, ack: bv32, funcCode: bv32,
                                     start: bv32, end: bv32, toggle: bv32, seg: bv32)

  function PackArbitration(a: Arbitration): bv32 {
    ((a.src & 0x3F) << 23) | ((a.dst & 0x3F) << 17) | ((a.ack & 0x01) << 16) |
    ((a.funcCode & 0xFF) << 8) | ((a.start & 0x01) << 7) | ((a.end & 0x01) << 6) |
    ((a.toggle & 0x01) << 5) | (a.seg & 0x1F)
  }

  function UnpackArbitration(id: bv32): Arbitration {
    Arbitration((id >> 23) & 0x3F, (id >> 17) & 0x3F, (id >> 16) & 0x01, (id >> 8) & 0xFF,
                (id >> 7) & 0x01, (id >> 6) & 0x01, (id >> 5) & 0x01, id & 0x1F)
  }

  /** Every field fits the bits it is given. */
  predicate Fits(a: Arbitration) {
    && a.src <= 0x3F && a.dst <= 0x3F && a.ack <= 1 && a.funcCode <= 0xFF
    && a.start <= 1 && a.end <= 1 && a.toggle <= 1 && a.seg <= 0x1F
  }

  /** Packing keeps the low bits of every field. */
  lemma PackKeepsFields(a: Arbitration)
    ensures UnpackArbitration(PackArbitration(a)) ==
            Arbitration(a.src & 0x3F, a.dst & 0x3F, a.ack & 0x01, a.funcCode & 0xFF,
                        a.start & 0x01, a.end & 0x01, a.toggle & 0x01, a.seg & 0x1F)
    ensures PackArbitration(a) & 0x1FFF_FFFF == PackArbitration(a)
  {
    PackBits(a.src, a.dst, a.ack, a.funcCode, a.start, a.end, a.toggle, a.seg);
  }

  lemma PackBits(src: bv32, dst: bv32, ack: bv32, fc: bv32, st: bv32, en: bv32, tg: bv32, seg: bv32)
    ensures var id := ((src & 0x3F) << 23) | ((dst & 0x3F) << 17) | ((ack & 0x01) << 16) |
                      ((fc & 0xFF) << 8) | ((st & 0x01) << 7) | ((en & 0x01) << 6) |
                      ((tg & 0x01) << 5) | (seg & 0x1F);
            && (id >> 23) & 0x3F == src & 0x3F && (id >> 17) & 0x3F == dst & 0x3F
            && (id >> 16) & 0x01 == ack & 0x01 && (id >> 8) & 0xFF == fc & 0xFF
            && (id >> 7) & 0x01 == st & 0x01 && (id >> 6) & 0x01 == en & 0x01
            && (id >> 5) & 0x01 == tg & 0x01 && id & 0x1F == seg & 0x1F
            && id & 0x1FFF_FFFF == id
  {
  }

  /** Where each field is found in an id. */
  lemma ArbitrationLayout(id: bv32)
    ensures var a := UnpackArbitration(id);
            id & 0x1FFF_FFFF ==
            (a.src << 23) + (a.dst << 17) + (a.ack << 16) + (a.funcCode << 8) +
            (a.start << 7) + (a.end << 6) + (a.toggle << 5) + a.seg
  {
  }

  /** Packing and unpacking are inverse both ways: on fields that fit, through the
      driver's 29-bit mask, and on every id, up to that mask. */
  lemma ArbitrationRoundTrip(a: Arbitration, id: bv32)
    ensures Fits(a) ==> UnpackArbitration(PackArbitration(a) & 0x1FFF_FFFF) == a
    ensures Fits(UnpackArbitration(id))
    ensures PackArbitration(UnpackArbitration(id)) == id & 0x1FFF_FFFF
  {
    PackKeepsFields(a);
    if Fits(a) {
      SmallFields(a.src, a.dst, a.ack, a.funcCode, a.start, a.end, a.toggle, a.seg);
    }
  }

  lemma SmallFields(src: bv32, dst: bv32, ack: bv32, fc: bv32, st: bv32, en: bv32, tg: bv32, seg: bv32)
    requires src <= 0x3F && dst <= 0x3F && ack <= 1 && fc <= 0xFF && st <= 1 && en <= 1 && tg <= 1 && seg <= 0x1F
    ensures src & 0x3F == src && dst & 0x3F == dst && ack & 0x01 == ack && fc & 0xFF == fc
    ensures st & 0x01 == st && en & 0x01 == en && tg & 0x01 == tg && seg & 0x1F == seg
  {
  }

  // ---- Arbitration id of multi-frame packets ----

  function PackPacketId(frameType: bv32, deviceId: bv32, seqNo: bv32, total: bv32): bv32 {
    ((frameType & 0xF) << 25) | ((deviceId & 0xFF) << 17) | ((seqNo & 0xF) << 13) | ((total & 0xF) << 9)
  }

  function PacketSeq(id: bv32): bv32 { (id >> 13) & 0xF }

  function PacketTotal(id: bv32): bv32 { (id >> 9) & 0xF }

  function PacketType(id: bv32): bv32 { (id >> 25) & 0xF }

  function PacketDevice(id: bv32): bv32 { (id >> 17) & 0xFF }

  /** Where each field is found in an id. */
  lemma PacketIdLayout(id: bv32)
    ensures id & 0x1FFF_FE00 ==
            (PacketType(id) << 25) + (PacketDevice(id) << 17) + (PacketSeq(id) << 13) + (PacketTotal(id) << 9)
  {
  }

  lemma PacketIdRoundTrip(frameType: bv32, deviceId: bv32, seqNo: bv32, total: bv32)
    requires frameType <= 0xF && deviceId <= 0xFF && seqNo <= 0xF && total <= 0xF
    ensures var id := PackPacketId(frameType, deviceId, seqNo, total);
            PacketType(id) == frameType && PacketDevice(id) == deviceId &&
            PacketSeq(id) == seqNo && PacketTotal(id) == total
  {
    var id := PackPacketId(frameType, deviceId, seqNo, total);
    assert id & 0x1FFF_FE00 == id;
  }
}
