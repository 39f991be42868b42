/** A read of the joints from end to end: the device's registers, its reply in segments, the
    serial line with everything else that is on it, reassembly, parsing. */
module JointReads {
  import opened Bytes
  import opened ByteValues
  import opened CanFrame
  import opened HandTypes
  import opened ProductConfiguration
  import opened ModbusCodec
  import opened ModbusTransport
  import opened ModbusReassembly
  import opened RegisterReads
  import opened RegisterWrites
  import SerialDriver

  const READ_TIMEOUT_MS: int := 500

  lemma OneSpan(config: ProductConfig, start: int, end: int, otherStart: int, otherEnd: int)
    requires IsSpan(config, start, end) && IsSpan(config, otherStart, otherEnd)
    ensures start == otherStart && end == otherEnd
  {
  }

  /** What the caller makes of the outcome of a read. */
  function JointsOf(reply: Reply, config: ProductConfig, start: u16): seq<Joint> {
    match reply
    case Answer(bytes) => ParsedJoints(BytesAsRegisters(bytes), config.validJoints, config.jointInputRegisters, start)
    case _ => []
  }

  lemma NothingToParse(joints: seq<JointId>, bases: map<JointId, u16>, start: u16)
    ensures ParsedJoints([], joints, bases, start) == []
  {
  }

  /** One request for these registers, and what comes of it. */
  method ReadSpan(transport: CanfdComm, config: ProductConfig, start: u16, count: int) returns (joints: seq<Joint>)
    modifies transport`sent, transport`offered, transport`turns
    ensures !transport.takes(old(transport.offered)) ==> joints == [] && transport.sent == old(transport.sent)
    ensures transport.takes(old(transport.offered)) ==>
      && transport.sent == old(transport.sent) +
           Segments(transport.srcId, transport.slaveId, 0, 0x04, ReadPdu(start, count))
      && joints == JointsOf(Gather(Peer(transport.srcId, transport.slaveId, 0x04, 500), map[],
                                   old(transport.turns)).0, config, start)
  {
    hide Gather, Segments, ReadPdu, ParsedJoints, BytesAsRegisters;
    var ok, bytes := transport.ReadRegisters(start, count, [], READ_INPUT, READ_TIMEOUT_MS);
    if !ok {
      return [];
    }
    var registers := BytesToRegisters(bytes);
    joints := ParseJoints(registers, config, start);
    NothingToParse(config.validJoints, config.jointInputRegisters, start);
  }

  /** A read of all joints over CAN-FD: one request for their span, if there is one. */
  method GetJoints(transport: CanfdComm, config: ProductConfig, connected: bool) returns (joints: seq<Joint>)
    modifies transport`sent, transport`offered, transport`turns
    ensures !connected || (forall id :: !IsMapped(config, id)) ==> joints == [] && transport.sent == old(transport.sent)
    ensures forall start: u16, end :: connected && IsSpan(config, start, end) ==>
      if !transport.takes(old(transport.offered)) then joints == [] && transport.sent == old(transport.sent)
      else
        && transport.sent == old(transport.sent) +
             Segments(transport.srcId, transport.slaveId, 0, 0x04, ReadPdu(start, end - start + 1))
        && joints == JointsOf(Gather(Peer(transport.srcId, transport.slaveId, 0x04, 500), map[],
                                     old(transport.turns)).0, config, start)
  {
    hide Gather, Segments, ReadPdu, JointsOf, IsSpan;
    NoSpanIfUnmapped(config);
    if !connected || config.validJoints == [] {
      return [];
    }
    var span := GetJointInputSpan(config);
    if span.None? {
      return [];
    }
    var start, count := span.value.start, span.value.count;
    ghost var last := span.value.start + span.value.count - 1;
    assert IsSpan(config, start, last);
    forall other: u16, end | IsSpan(config, other, end)
      ensures other == start && end == last
    {
      OneSpan(config, start, last, other, end);
    }
    joints := ReadSpan(transport, config, start, count);
  }

  lemma NoSpanIfUnmapped(config: ProductConfig)
    ensures (forall id :: !IsMapped(config, id)) ==> forall start: u16, end :: !IsSpan(config, start, end)
  {
  }

  /** What arrives on the line, each frame with the time at which the wait for it began. */
  function TurnsOf(packets: seq<Packet>, elapsed: seq<int>): (turns: seq<Turn>)
    requires |elapsed| == |packets|
    ensures |turns| == |packets|
  {
    seq(|packets|, i requires 0 <= i < |packets| => Turn(elapsed[i], Some(packets[i])))
  }

  /** Up to frame `m` the line carries, in time, foreign frames and segments of the reply. */
  ghost predicate LineCarries(peer: Peer, reply: seq<byte>, packets: seq<Packet>, elapsed: seq<int>, m: nat)
    requires |elapsed| == |packets| && m < |packets|
  {
    forall i :: 0 <= i <= m ==>
      elapsed[i] < peer.timeoutMs && (Foreign(peer, packets[i]) || IsSomeSegment(peer, reply, packets[i]))
  }

  ghost predicate IsSomeSegment(peer: Peer, reply: seq<byte>, p: Packet) {
    exists j :: 0 <= j < SegmentCount(reply) && p == ReplySegment(peer, reply, j)
  }

  /** Every segment but the last is among the first `m` frames. */
  ghost predicate OthersCameBefore(peer: Peer, reply: seq<byte>, packets: seq<Packet>, m: nat)
    requires m <= |packets|
  {
    forall j :: 0 <= j < SegmentCount(reply) - 1 ==> ReplySegment(peer, reply, j) in packets[..m]
  }

  /** Whatever is on the line between them, the segments a slave prints, be it one or more,
      are put together to its reply iff all the others come before the end segment. */
  lemma ReplyCrossesTheLineIff(peer: Peer, reply: seq<byte>, items: seq<SerialDriver.Item>, elapsed: seq<int>, m: nat)
    requires IsModbusPeer(peer) && reply != [] && SegmentCount(reply) <= SEGMENT_NUMBERS
    requires forall i :: 0 <= i < |items| ==> SerialDriver.WellFormed(items[i])
    requires var packets := SerialDriver.FramesIn(items);
      && |elapsed| == |packets| && m < |packets| && LineCarries(peer, reply, packets, elapsed, m)
      && packets[m] == ReplySegment(peer, reply, SegmentCount(reply) - 1)
      && packets[m] !in packets[..m]
    ensures var packets := SerialDriver.Drain(SerialDriver.Stream(items));
            |packets| == |elapsed| && m < |packets| &&
            (Gather(peer, map[], TurnsOf(packets, elapsed)).0 == Whole(reply) <==>
             OthersCameBefore(peer, reply, packets, m))
  {
    hide Gather, Padded, ReplySegment, SerialDriver.Drain, SerialDriver.Stream, SerialDriver.FramesIn, Foreign,
         SerialDriver.WellFormed, LineCarries;
    SerialDriver.ResyncReadsExactlyThePrintedFrames(items);
    var packets := SerialDriver.FramesIn(items);
    if SegmentCount(reply) == 1 {
      OneFrameOnTheLine(peer, reply, packets, elapsed, m);
    } else {
      SegmentsOnTheLine(peer, reply, packets, elapsed, m);
    }
  }

  lemma OneFrameOnTheLine(peer: Peer, reply: seq<byte>, packets: seq<Packet>, elapsed: seq<int>, m: nat)
    requires IsModbusPeer(peer) && SegmentCount(reply) == 1
    requires |elapsed| == |packets| && m < |packets| && LineCarries(peer, reply, packets, elapsed, m)
    requires packets[m] == ReplySegment(peer, reply, 0) && packets[m] !in packets[..m]
    ensures Gather(peer, map[], TurnsOf(packets, elapsed)).0 == Whole(reply)
  {
    hide Gather, Padded, ReplySegment, Foreign;
    var turns := TurnsOf(packets, elapsed);
    forall i | 0 <= i < m
      ensures Foreign(peer, packets[i])
    {
      assert packets[i] in packets[..m];
    }
    SingleFrameReply(peer, reply, turns, m);
  }

  lemma SegmentsOnTheLine(peer: Peer, reply: seq<byte>, packets: seq<Packet>, elapsed: seq<int>, m: nat)
    requires IsModbusPeer(peer) && 1 < SegmentCount(reply) <= SEGMENT_NUMBERS
    requires |elapsed| == |packets| && m < |packets| && LineCarries(peer, reply, packets, elapsed, m)
    requires packets[m] == ReplySegment(peer, reply, SegmentCount(reply) - 1) && packets[m] !in packets[..m]
    ensures Gather(peer, map[], TurnsOf(packets, elapsed)).0 == Answer(Padded(reply)[1..]) <==>
            OthersCameBefore(peer, reply, packets, m)
  {
    hide Gather, Padded, ReplySegment, SegmentCount, Foreign;
    var n, turns := SegmentCount(reply), TurnsOf(packets, elapsed);
    forall i | 0 <= i <= m
      ensures Plain(peer, reply, turns[i])
    {
      if !Foreign(peer, packets[i]) {
        var j :| 0 <= j < n && packets[i] == ReplySegment(peer, reply, j);
        assert Carries(peer, reply, turns[i], j);
      }
    }
    forall i | 0 <= i < m
      ensures !Carries(peer, reply, turns[i], n - 1)
    {
      assert packets[i] in packets[..m];
    }
    ReadReturnsTheReplyIffTheEndCameLast(peer, reply, turns, m);
    forall j | 0 <= j < n - 1
      ensures SomeTurnCarries(peer, reply, turns[..m], j) <==> ReplySegment(peer, reply, j) in packets[..m]
    {
      CarriedIffPresent(peer, reply, packets, elapsed, m, j);
    }
  }

  lemma CarriedIffPresent(peer: Peer, reply: seq<byte>, packets: seq<Packet>, elapsed: seq<int>, m: nat, j: nat)
    requires |elapsed| == |packets| && m < |packets| && j < SegmentCount(reply)
    ensures SomeTurnCarries(peer, reply, TurnsOf(packets, elapsed)[..m], j) <==> ReplySegment(peer, reply, j) in packets[..m]
  {
    hide ReplySegment, SegmentCount;
    var turns := TurnsOf(packets, elapsed)[..m];
    if ReplySegment(peer, reply, j) in packets[..m] {
      var i :| 0 <= i < m && packets[..m][i] == ReplySegment(peer, reply, j);
      assert Carries(peer, reply, turns[i], j);
    }
    if SomeTurnCarries(peer, reply, turns, j) {
      var i :| 0 <= i < |turns| && Carries(peer, reply, turns[i], j);
      assert packets[..m][i] == ReplySegment(peer, reply, j);
    }
  }

  lemma StrippedReply(block: seq<u16>) returns (padding: seq<byte>)
    ensures Padded(ReadReply(block)) != [] && Padded(ReadReply(block))[1..] == RegisterBytes(block) + padding
  {
    hide Padding, RegisterBytes, Octet, Chunk;
    var reply := ReadReply(block);
    padding := Padding(|Chunk(reply, SegmentCount(reply) - 1)|);
    assert Padded(reply)[1..] == RegisterBytes(block) + padding;
  }

  /** The reply of the device to the read for the span, as it took it from the request. */
  function SpanReply(memory: int -> u16, peer: Peer, start: u16, end: int, canIndex: bv8): seq<byte> {
    var request := Segments(peer.srcId, peer.slaveId, 0, peer.funcCode, ReadPdu(start, end - start + 1));
    var asked := Asked(Received(request, canIndex), peer.slaveId);
    if asked.Some? then AnswerTo(memory, asked.value) else []
  }

  lemma SpanReplyIs(memory: int -> u16, peer: Peer, start: u16, end: int, canIndex: bv8)
    requires IsModbusPeer(peer) && peer.funcCode == READ_INPUT && start as int <= end < start as int + 0xFFFF
    ensures SpanReply(memory, peer, start, end, canIndex) == ReadReply(seq(end - start + 1, i requires 0 <= i => memory(start + i)))
  {
    hide Asked, Received, Segments, ReadPdu, ReadReply;
    ReadIsHeard(peer.srcId, peer.slaveId, peer.funcCode, start, end - start + 1, canIndex, peer.slaveId);
    assert RegistersAt(memory, start, end - start + 1) == seq(end - start + 1, i requires 0 <= i => memory(start + i));
  }

  /** A read of the joints, there and back: the request for their span asks the device for that
      span; its reply comes back whole; and what the caller parses out of it is every mapped
      joint, in the product's order, as its own three registers of the device show it. */
  lemma JointsCrossTheLine(config: ProductConfig, start: u16, end: int, memory: int -> u16, peer: Peer,
                           canIndex: bv8, items: seq<SerialDriver.Item>, elapsed: seq<int>, m: nat)
    requires IsSpan(config, start, end) && FitsBelowWrap(config) && start as int <= end
    requires IsModbusPeer(peer) && forall i :: 0 <= i < |items| ==> SerialDriver.WellFormed(items[i])
    requires peer.funcCode == READ_INPUT && end < start as int + 0xFFFF
    requires var reply := SpanReply(memory, peer, start, end, canIndex);
      var packets := SerialDriver.FramesIn(items);
      && 0 < SegmentCount(reply) <= SEGMENT_NUMBERS
      && |elapsed| == |packets| && m < |packets| && LineCarries(peer, reply, packets, elapsed, m)
      && packets[m] == ReplySegment(peer, reply, SegmentCount(reply) - 1)
      && packets[m] !in packets[..m] && OthersCameBefore(peer, reply, packets, m)
    ensures var packets := SerialDriver.Drain(SerialDriver.Stream(items));
            && |packets| == |elapsed|
            && Gather(peer, map[], TurnsOf(packets, elapsed)).0.Answer?
            && ReadFrom(memory, config.validJoints, config.jointInputRegisters,
                        JointsOf(Gather(peer, map[], TurnsOf(packets, elapsed)).0, config, start))
  {
    hide Gather, Padded, ReplySegment, SerialDriver.Drain, SerialDriver.Stream, SerialDriver.FramesIn, SegmentCount,
         LineCarries, ReadReply, SpanReply, ParsedJoints, JointsInMemory, ReadFrom, IsSpan, FitsBelowWrap, BytesAsRegisters, SerialDriver.WellFormed;
    var block := seq(end - start + 1, i requires 0 <= i => memory(start + i));
    SpanReplyIs(memory, peer, start, end, canIndex);
    SerialDriver.ResyncReadsExactlyThePrintedFrames(items);
    ReplyCrossesTheLineIff(peer, ReadReply(block), items, elapsed, m);
    var padding := StrippedReply(block);
    SpanAndParseAgree(config, start, end, memory, padding);
  }

  /** What a slave that answers at once puts on the line. */
  function PrintedReply(peer: Peer, reply: seq<byte>, canIndex: bv8): (items: seq<SerialDriver.Item>)
    ensures |items| == SegmentCount(reply)
  {
    seq(SegmentCount(reply), i requires 0 <= i < SegmentCount(reply) =>
      SerialDriver.Printed(Segment(peer.slaveId, peer.srcId, 1, peer.funcCode, reply, i), canIndex))
  }

  lemma {:induction false} FramesOfPrinted(items: seq<SerialDriver.Item>, packets: seq<Packet>)
    requires |items| == |packets|
    requires forall i :: 0 <= i < |items| ==> items[i].Printed? && SerialDriver.FrameIn(items[i]) == [packets[i]]
    ensures SerialDriver.FramesIn(items) == packets
  {
    hide SerialDriver.FrameIn;
    if items != [] {
      FramesOfPrinted(items[1..], packets[1..]);
      assert packets == [packets[0]] + packets[1..];
    }
  }

  lemma PrintedSegment(peer: Peer, reply: seq<byte>, canIndex: bv8, i: nat)
    requires IsModbusPeer(peer) && i < SegmentCount(reply) <= SEGMENT_NUMBERS
    ensures SerialDriver.WellFormed(PrintedReply(peer, reply, canIndex)[i])
    ensures SerialDriver.FrameIn(PrintedReply(peer, reply, canIndex)[i]) == [ReplySegment(peer, reply, i)]
  {
    hide Segment, IsLegalLength, Id29, UnpackArbitration, NumberOf, PaddedChunk, SegmentCount;
    SegmentOnTheWire(peer.slaveId, peer.srcId, 1, peer.funcCode, reply, i);
  }

  /** So a reply that is printed in order and in time crosses the line whole, and the
      hypotheses above can be met for every peer and every reply. */
  lemma PrintedReplyIsReturned(peer: Peer, reply: seq<byte>, canIndex: bv8)
    requires IsModbusPeer(peer) && reply != [] && SegmentCount(reply) <= SEGMENT_NUMBERS && peer.timeoutMs > 0
    ensures var packets := SerialDriver.Drain(SerialDriver.Stream(PrintedReply(peer, reply, canIndex)));
            Gather(peer, map[], TurnsOf(packets, seq(|packets|, _ => 0))).0 == Whole(reply)
  {
    hide Gather, Padded, ReplySegment, SerialDriver.Drain, SerialDriver.Stream, SerialDriver.FramesIn, SegmentCount,
         PrintedReply, SerialDriver.WellFormed, SerialDriver.FrameIn;
    var n, items := SegmentCount(reply), PrintedReply(peer, reply, canIndex);
    var packets := seq(n, i requires 0 <= i < n => ReplySegment(peer, reply, i));
    forall i | 0 <= i < n
      ensures SerialDriver.WellFormed(items[i]) && SerialDriver.FrameIn(items[i]) == [packets[i]]
    {
      PrintedSegment(peer, reply, canIndex, i);
    }
    ArePrinted(peer, reply, canIndex);
    FramesOfPrinted(items, packets);
    SerialDriver.ResyncReadsExactlyThePrintedFrames(items);
    InOrderReplyIsReturned(peer, reply);
    assert TurnsOf(packets, seq(|packets|, _ => 0)) == InOrder(peer, reply);
  }

  lemma ArePrinted(peer: Peer, reply: seq<byte>, canIndex: bv8)
    ensures forall i :: 0 <= i < SegmentCount(reply) ==> PrintedReply(peer, reply, canIndex)[i].Printed?
  {
  }
}
