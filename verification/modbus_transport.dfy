/** Modbus requests over CAN-FD: a PDU is cut into 64-byte segments on the way out, and
    a reply is put together again from segments that come in any order. */
module ModbusTransport {
  import opened Bytes
  import opened ByteValues
  import opened CanFrame

  const SEGMENT_SIZE: nat := 64
  const SEGMENT_NUMBERS: nat := 32      // the segment field has five bits

  // ---- Segmentation ----

  function SegmentCount(pdu: seq<byte>): nat {
    (|pdu| + SEGMENT_SIZE - 1) / SEGMENT_SIZE
  }

  function Chunk(pdu: seq<byte>, idx: nat): (c: seq<byte>)
    requires idx < SegmentCount(pdu)
    ensures 0 < |c| <= SEGMENT_SIZE
    ensures idx < SegmentCount(pdu) - 1 ==> |c| == SEGMENT_SIZE
  {
    var rest := pdu[SEGMENT_SIZE * idx..];
    if |rest| <= SEGMENT_SIZE then rest else rest[..SEGMENT_SIZE]
  }

  /** The five bits the segment field keeps of a segment index. */
  function SegmentNumber(idx: nat): bv32 {
    ((idx % SEGMENT_NUMBERS) as bv8) as bv32
  }

  function Flag(b: bool): bv32 {
    if b then 1 else 0
  }

  function SegmentFields(src: bv32, dst: bv32, ack: bv32, funcCode: bv32, idx: nat, count: nat): Arbitration {
    Arbitration(src, dst, ack, funcCode, Flag(idx == 0), Flag(idx + 1 == count),
                Flag(idx % 2 == 1), SegmentNumber(idx))
  }

  /** SendFrame: the data is copied into a zeroed field and the length is rounded up. */
  function PaddedFrame(id: bv32, data: seq<byte>): Frame
    requires |data| <= MAX_DATA
  {
    RawFrame.Frame(id, data + Zeros(MAX_DATA - |data|), NearestLength(|data|))
  }

  /** Segment `idx` of a PDU, as the sender puts it on the bus. */
  function Segment(src: bv32, dst: bv32, ack: bv32, funcCode: bv32, pdu: seq<byte>, idx: nat): Frame
    requires idx < SegmentCount(pdu)
  {
    PaddedFrame(PackArbitration(SegmentFields(src, dst, ack, funcCode, idx, SegmentCount(pdu))), Chunk(pdu, idx))
  }

  function Segments(src: bv32, dst: bv32, ack: bv32, funcCode: bv32, pdu: seq<byte>): (s: seq<Frame>)
    ensures |s| == SegmentCount(pdu)
  {
    seq(SegmentCount(pdu), i requires 0 <= i < SegmentCount(pdu) => Segment(src, dst, ack, funcCode, pdu, i))
  }

  /** The bytes a receiver sees in a segment: the chunk, and zeros up to a legal length. */
  function PaddedChunk(pdu: seq<byte>, idx: nat): (c: seq<byte>)
    requires idx < SegmentCount(pdu)
    ensures |c| <= MAX_DATA
  {
    Chunk(pdu, idx) + Padding(|Chunk(pdu, idx)|)
  }

  function Padding(n: nat): seq<byte>
    requires n <= MAX_DATA
  {
    Zeros(NearestLength(n) - n)
  }

  lemma SegmentId(src: bv32, dst: bv32, ack: bv32, funcCode: bv32, idx: nat, count: nat)
    requires src <= 0x3F && dst <= 0x3F && ack <= 1 && funcCode <= 0xFF
    ensures var fields := SegmentFields(src, dst, ack, funcCode, idx, count);
            && UnpackArbitration(PackArbitration(fields)) == fields
            && Id29(PackArbitration(fields)) == PackArbitration(fields)
  {
    var fields := SegmentFields(src, dst, ack, funcCode, idx, count);
    SegmentNumberFits(idx);
    ArbitrationRoundTrip(fields, 0);
    PackKeepsFields(fields);
  }

  lemma SegmentPayload(id: bv32, chunk: seq<byte>)
    requires |chunk| <= MAX_DATA
    ensures PacketOf(PaddedFrame(id, chunk)) == RawPacket.Packet(id, chunk + Padding(|chunk|))
  {
  }

  lemma SegmentPacket(src: bv32, dst: bv32, ack: bv32, funcCode: bv32, pdu: seq<byte>, idx: nat)
    requires idx < SegmentCount(pdu) && src <= 0x3F && dst <= 0x3F && ack <= 1 && funcCode <= 0xFF
    ensures var p := PacketOf(Segment(src, dst, ack, funcCode, pdu, idx));
            && p.payload == PaddedChunk(pdu, idx)
            && UnpackArbitration(p.id) == SegmentFields(src, dst, ack, funcCode, idx, SegmentCount(pdu))
            && Id29(p.id) == p.id
  {
    hide PackArbitration, UnpackArbitration, Id29;
    SegmentId(src, dst, ack, funcCode, idx, SegmentCount(pdu));
    SegmentPayload(PackArbitration(SegmentFields(src, dst, ack, funcCode, idx, SegmentCount(pdu))), Chunk(pdu, idx));
  }

  lemma SegmentNumberFits(idx: nat)
    ensures SegmentNumber(idx) <= 0x1F
    ensures SegmentNumber(idx) as int == idx % SEGMENT_NUMBERS
  {
    FiveBits(idx % SEGMENT_NUMBERS);
  }

  lemma FiveBits(n: nat)
    requires n < 32
    ensures ((n as bv8) as bv32) <= 0x1F && ((n as bv8) as bv32) as int == n
  {
  }

  // ---- Reassembly ----

  /** One turn of a wait for a reply: the time since the wait began, and what came in. */
  datatype Turn = Turn(elapsedMs: int, got: Option<Packet>)

  datatype Peer = Peer(srcId: bv32, slaveId: bv32, funcCode: bv32, timeoutMs: int)

  datatype Reply =
    | Timeout
    | Exception
    | Unchanged              // a reply with no data: the caller's buffer keeps its contents
    | Answer(bytes: seq<byte>)

  datatype Reaction = Ignore | Keep(number: nat, bytes: seq<byte>, last: bool) | Final(reply: Reply)

  function ErrorCode(funcCode: bv32): bv32 {
    0x80 | funcCode
  }

  predicate FromPeer(peer: Peer, a: Arbitration) {
    a.ack == 1 && a.dst == peer.srcId && a.src == peer.slaveId
  }

  /** What one received frame means to a waiting read. */
  function React(peer: Peer, p: Packet): Reaction {
    var a := UnpackArbitration(p.id);
    if !FromPeer(peer, a) then Ignore
    else if a.funcCode == ErrorCode(peer.funcCode) then Final(Exception)
    else if a.funcCode != peer.funcCode then Ignore
    else if a.start == 1 && a.end == 1 then
      Final(if |p.payload| > 1 then Answer(p.payload[1..]) else Unchanged)
    else Keep(a.seg as int, Stripped(a.seg as int, p.payload), a.end == 1)
  }

  /** Segment zero loses the Modbus byte count. */
  function Stripped(number: nat, bytes: seq<byte>): seq<byte> {
    if number == 0 && |bytes| > 1 then bytes[1..] else bytes
  }

  /** The whole wait: what it returns, and the turns it leaves for the next one. Time is
      up when a turn begins too late, or when no turn is left. */
  function Gather(peer: Peer, segments: map<nat, seq<byte>>, turns: seq<Turn>): (Reply, seq<Turn>)
    decreases |turns|
  {
    if turns == [] || turns[0].elapsedMs >= peer.timeoutMs then (Timeout, turns)
    else
      var reaction := if turns[0].got.None? then Ignore else React(peer, turns[0].got.value);
      match reaction
      case Ignore => Gather(peer, segments, turns[1..])
      case Final(reply) => (reply, turns[1..])
      case Keep(number, bytes, last) =>
        var held := segments[number := bytes];
        if last then (Answer(Join(held, SEGMENT_NUMBERS)), turns[1..]) else Gather(peer, held, turns[1..])
  }

  /** The wait of a write for its echo. */
  function AwaitEcho(peer: Peer, echo: seq<byte>, turns: seq<Turn>): (bool, seq<Turn>)
    decreases |turns|
  {
    if turns == [] || turns[0].elapsedMs >= peer.timeoutMs then (false, turns)
    else
      var reaction := if turns[0].got.None? then Ignore else React(peer, turns[0].got.value);
      if reaction == Final(Exception) then (false, turns[1..])
      else if reaction.Final? then
        (|turns[0].got.value.payload| >= 4 && turns[0].got.value.payload[..4] == echo, turns[1..])
      else AwaitEcho(peer, echo, turns[1..])
  }

  // ---- PDUs ----

  function AddressBytes(x: int): (s: seq<byte>)
    ensures |s| == 2
  {
    [Octet(x / 0x100), Octet(x)]
  }

  function ReadPdu(addr: int, count: int): (pdu: seq<byte>)
    ensures |pdu| == 4
  {
    AddressBytes(addr) + AddressBytes(count)
  }

  function WriteFunction(data: seq<byte>): bv32 {
    if |data| == 2 then 0x06 else 0x10
  }

  function WritePdu(addr: int, data: seq<byte>): (pdu: seq<byte>)
    ensures |pdu| >= 4
  {
    if |data| == 2 then AddressBytes(addr) + data
    else AddressBytes(addr) + AddressBytes(|data| / 2) + [Octet(|data|)] + data
  }

  // ---- The transport ----

  /** How many of `n` frames in a row go out before one that does not. */
  function Taken(takes: nat -> bool, offered: nat, n: nat): (k: nat)
    ensures k <= n
    ensures forall i :: offered <= i < offered + k ==> takes(i)
    ensures k < n ==> !takes(offered + k)
    decreases n
  {
    if n == 0 || !takes(offered) then 0 else 1 + Taken(takes, offered + 1, n - 1)
  }

  predicate AllOut(takes: nat -> bool, offered: nat, frames: seq<Frame>) {
    Taken(takes, offered, |frames|) == |frames|
  }

  function FramesOut(takes: nat -> bool, offered: nat, frames: seq<Frame>): seq<Frame> {
    frames[..Taken(takes, offered, |frames|)]
  }

  /** How many frames there have been in the end: a frame that does not go out is the last. */
  function OfferedAfter(takes: nat -> bool, offered: nat, frames: seq<Frame>): nat {
    offered + Taken(takes, offered, |frames|) + (if AllOut(takes, offered, frames) then 0 else 1)
  }

  lemma OneFrameOut(takes: nat -> bool, offered: nat, frame: Frame, rest: seq<Frame>)
    ensures AllOut(takes, offered, [frame] + rest) <==> takes(offered) && AllOut(takes, offered + 1, rest)
    ensures FramesOut(takes, offered, [frame] + rest) ==
            if takes(offered) then [frame] + FramesOut(takes, offered + 1, rest) else []
    ensures OfferedAfter(takes, offered, [frame] + rest) ==
            if takes(offered) then OfferedAfter(takes, offered + 1, rest) else offered + 1
  {
  }

  lemma NoFrameOut(takes: nat -> bool, offered: nat)
    ensures AllOut(takes, offered, []) && FramesOut(takes, offered, []) == [] && OfferedAfter(takes, offered, []) == offered
  {
  }

  class CanfdComm {
    var srcId: bv32
    var slaveId: bv32
    const takes: nat -> bool    // whether the driver sends the frames it is offered, one by one
    var offered: nat            // how many there have been
    var sent: seq<Frame>        // every frame that went out
    var turns: seq<Turn>        // what the waits to come will bring

    constructor (slaveId: bv32, takes: nat -> bool, turns: seq<Turn>)
      ensures srcId == 0x0A && this.slaveId == slaveId && this.takes == takes && offered == 0 && sent == []
      ensures this.turns == turns
    {
      srcId, this.slaveId, this.takes, offered, sent, this.turns := 0x0A, slaveId, takes, 0, [], turns;
    }

    method SendFrame(id: bv32, data: seq<byte>) returns (ok: bool)
      requires |data| <= MAX_DATA
      modifies `sent, `offered
      ensures ok == takes(old(offered)) && offered == old(offered) + 1
      ensures sent == if ok then old(sent) + [PaddedFrame(id, data)] else old(sent)
    {
      var field := data + Zeros(MAX_DATA - |data|);
      var len := NearestLength(|data|);
      ok := takes(offered);
      offered := offered + 1;
      if !ok {
        return false;
      }
      sent := sent + [RawFrame.Frame(id, field, len)];
      return true;
    }

    method ReadRegisters(addr: int, count: int, outBytes: seq<byte>, funcCode: bv32, timeoutMs: int)
      returns (ok: bool, bytes: seq<byte>)
      modifies `sent, `offered, `turns
      ensures offered == old(offered) + 1
      ensures !takes(old(offered)) ==> !ok && sent == old(sent) && turns == old(turns)
      ensures takes(old(offered)) ==>
        sent == old(sent) + Segments(srcId, slaveId, 0, funcCode, ReadPdu(addr, count))
      ensures takes(old(offered)) ==>
        var (reply, rest) := Gather(Peer(srcId, slaveId, funcCode, timeoutMs), map[], old(turns));
        turns == rest && ok == (reply.Answer? || reply.Unchanged?) &&
        (reply.Answer? ==> bytes == reply.bytes) && (!reply.Answer? ==> bytes == outBytes)
      ensures !ok ==> bytes == outBytes
    {
      hide Gather, Segments, ReadPdu;
      bytes := outBytes;
      ok := SendCommand(funcCode, ReadPdu(addr, count));
      if !ok {
        return;
      }
      var reply := GatherReply(Peer(srcId, slaveId, funcCode, timeoutMs));
      match reply
      case Answer(b) => bytes := b;
      case Unchanged =>
      case _ => ok := false;
    }

    method SendCommand(funcCode: bv32, command: seq<byte>) returns (ok: bool)
      requires 0 < |command| <= SEGMENT_SIZE
      modifies `sent, `offered
      ensures ok == takes(old(offered)) && offered == old(offered) + 1
      ensures sent == if ok then old(sent) + Segments(srcId, slaveId, 0, funcCode, command) else old(sent)
    {
      hide PackArbitration, Segments, PaddedFrame;
      SegmentNumberZero();
      OneSegment(srcId, slaveId, 0, funcCode, command);
      ok := SendFrame(PackArbitration(Arbitration(srcId, slaveId, 0, funcCode, 1, 1, 0, 0)), command);
    }

    method GatherReply(peer: Peer) returns (reply: Reply)
      modifies `turns
      ensures (reply, turns) == Gather(peer, map[], old(turns))
    {
      var segments: map<nat, seq<byte>> := map[];
      while true
        invariant Gather(peer, segments, turns) == Gather(peer, map[], old(turns))
        decreases |turns|
      {
        if turns == [] || turns[0].elapsedMs >= peer.timeoutMs {
          return Timeout;
        }
        var got := turns[0].got;
        turns := turns[1..];
        if got.None? { continue; }
        match React(peer, got.value)
        case Ignore =>
        case Final(r) => return r;
        case Keep(number, data, last) =>
          segments := segments[number := data];
          if last {
            var joined := JoinAll(segments);
            return Answer(joined);
          }
      }
    }

    method WriteRegisters(addr: int, data: seq<byte>, timeoutMs: int) returns (ok: bool)
      modifies `sent, `offered, `turns
      ensures var frames := Segments(srcId, slaveId, 0, WriteFunction(data), WritePdu(addr, data));
              && sent == old(sent) + FramesOut(takes, old(offered), frames)
              && offered == OfferedAfter(takes, old(offered), frames)
              && (ok, turns) == if AllOut(takes, old(offered), frames)
                                then AwaitEcho(Peer(srcId, slaveId, WriteFunction(data), timeoutMs),
                                               WritePdu(addr, data)[..4], old(turns))
                                else (false, old(turns))
    {
      hide Segments, AwaitEcho, AllOut, FramesOut, OfferedAfter;
      var payload := AddressBytes(addr);
      if |data| == 2 {
        payload := payload + data;
      } else {
        payload := payload + AddressBytes(|data| / 2);
        payload := payload + [Octet(|data|)];
        payload := payload + data;
      }
      var funcCode := WriteFunction(data);
      ok := SendSegments(funcCode, payload);
      if ok {
        ok := WaitForEcho(Peer(srcId, slaveId, funcCode, timeoutMs), payload[..4]);
      }
    }

    method SendSegments(funcCode: bv32, payload: seq<byte>) returns (ok: bool)
      requires payload != []
      modifies `sent, `offered
      ensures var frames := Segments(srcId, slaveId, 0, funcCode, payload);
              && ok == AllOut(takes, old(offered), frames)
              && sent == old(sent) + FramesOut(takes, old(offered), frames)
              && offered == OfferedAfter(takes, old(offered), frames)
    {
      hide PackArbitration, SegmentNumber, Chunk, PaddedFrame, AllOut, FramesOut, OfferedAfter;
      var count := (|payload| + SEGMENT_SIZE - 1) / SEGMENT_SIZE;
      ghost var all := Segments(srcId, slaveId, 0, funcCode, payload);
      var idx := 0;
      while idx < count
        invariant 0 <= idx <= count == |all|
        invariant AllOut(takes, old(offered), all) == AllOut(takes, offered, all[idx..])
        invariant old(sent) + FramesOut(takes, old(offered), all) == sent + FramesOut(takes, offered, all[idx..])
        invariant OfferedAfter(takes, old(offered), all) == OfferedAfter(takes, offered, all[idx..])
      {
        assert all[idx..] == [all[idx]] + all[idx + 1..];
        OneFrameOut(takes, offered, all[idx], all[idx + 1..]);
        var fields := SegmentFields(srcId, slaveId, 0, funcCode, idx, count);
        ok := SendFrame(PackArbitration(fields), Chunk(payload, idx));
        if !ok {
          return;
        }
        assert all[idx] == Segment(srcId, slaveId, 0, funcCode, payload, idx);
        idx := idx + 1;
      }
      NoFrameOut(takes, offered);
      return true;
    }

    method WaitForEcho(peer: Peer, echo: seq<byte>) returns (ok: bool)
      modifies `turns
      ensures (ok, turns) == AwaitEcho(peer, echo, old(turns))
    {
      while true
        invariant AwaitEcho(peer, echo, turns) == AwaitEcho(peer, echo, old(turns))
        decreases |turns|
      {
        if turns == [] || turns[0].elapsedMs >= peer.timeoutMs {
          return false;
        }
        var got := turns[0].got;
        turns := turns[1..];
        if got.None? { continue; }
        match React(peer, got.value)
        case Ignore =>
        case Keep(_, _, _) =>
        case Final(reply) =>
          if reply == Exception || |got.value.payload| < 4 {
            return false;
          }
          return got.value.payload[..4] == echo;
      }
    }
  }

  lemma SegmentNumberZero()
    ensures SegmentNumber(0) == 0
  {
  }

  lemma OneSegment(src: bv32, dst: bv32, ack: bv32, funcCode: bv32, pdu: seq<byte>)
    requires 0 < |pdu| <= SEGMENT_SIZE
    ensures Segments(src, dst, ack, funcCode, pdu)
         == [PaddedFrame(PackArbitration(Arbitration(src, dst, ack, funcCode, 1, 1, 0, SegmentNumber(0))), pdu)]
  {
    assert Chunk(pdu, 0) == pdu;
  }

  method JoinAll(segments: map<nat, seq<byte>>) returns (bytes: seq<byte>)
    ensures bytes == Join(segments, SEGMENT_NUMBERS)
  {
    bytes := [];
    for k := 0 to SEGMENT_NUMBERS
      invariant bytes == Join(segments, k)
    {
      if k in segments {
        bytes := bytes + segments[k];
      }
    }
  }
}
