/** The answer to a write over CAN-FD: what comes back while the sender waits for the echo. */
module CanfdLink {
  import opened Bytes
  import opened ByteValues
  import opened CanFrame
  import opened ModbusCodec
  import opened ModbusDevice
  import opened ModbusReassembly
  import opened ModbusTransport
  import opened RegisterWrites

  // ---- What comes back ----

  /** In time, and nothing or something that is no answer to this request. */
  predicate IsBackground(peer: Peer, turns: seq<Turn>) {
    forall i :: 0 <= i < |turns| ==>
      turns[i].elapsedMs < peer.timeoutMs && (turns[i].got.Some? ==> Foreign(peer, turns[i].got.value))
  }

  lemma {:induction false} BackgroundPasses(peer: Peer, echo: seq<byte>, background: seq<Turn>, rest: seq<Turn>)
    requires IsBackground(peer, background)
    ensures AwaitEcho(peer, echo, background + rest) == AwaitEcho(peer, echo, rest)
    decreases |background|
  {
    hide React;
    if background == [] {
      assert background + rest == rest;
    } else {
      assert (background + rest)[1..] == background[1..] + rest;
      ForeignIsIgnored(peer, background[0]);
      BackgroundPasses(peer, echo, background[1..], rest);
    }
  }

  lemma ForeignIsIgnored(peer: Peer, t: Turn)
    requires t.got.Some? ==> Foreign(peer, t.got.value)
    ensures ReactionTo(peer, t) == Ignore
  {
    hide UnpackArbitration;
  }

  /** The exception a device answers with: the function code with its high bit set, by section 7
      of the MODBUS Application Protocol V1.1b, and what was wrong. */
  function ExceptionPacket(peer: Peer, code: byte): Packet {
    PacketOf(Segment(peer.slaveId, peer.srcId, 1, peer.funcCode + 0x80, [code], 0))
  }

  lemma ExceptionIsTaken(peer: Peer, code: byte)
    requires IsModbusPeer(peer)
    ensures React(peer, ExceptionPacket(peer, code)) == Final(Exception)
  {
    hide Segment, UnpackArbitration, PackArbitration, PaddedChunk, SegmentNumber;
    ErrorCodeFits(peer.funcCode);
    SegmentPacket(peer.slaveId, peer.srcId, 1, peer.funcCode + 0x80, [code], 0);
  }

  lemma ErrorCodeFits(funcCode: bv32)
    requires funcCode <= 0x7F
    ensures ErrorCode(funcCode) == funcCode + 0x80 <= 0xFF
  {
  }

  lemma WriteFunctionFits(data: seq<byte>)
    ensures WriteFunction(data) <= 0x7F
  {
  }

  /** What the line brings during the wait: the background, and then what the device says. */
  function LineBrings(peer: Peer, echo: seq<byte>, answers: seq<Answer>, background: seq<Turn>, at: int): seq<Turn>
    requires |echo| == 4
  {
    if answers == [] || answers[0].Unacknowledged? then background
    else if answers[0].Acknowledged? then background + [Turn(at, Some(ReplySegment(peer, echo, 0)))]
    else background + [Turn(at, Some(ExceptionPacket(peer, 0x04)))]
  }

  /** The wait of a write succeeds iff the device acknowledges: a refusal is an exception, and
      an acknowledgement that is lost is a timeout. */
  lemma WaitSucceedsIffAcknowledged(peer: Peer, echo: seq<byte>, answers: seq<Answer>, background: seq<Turn>, at: int)
    requires IsModbusPeer(peer) && |echo| == 4 && IsBackground(peer, background) && at < peer.timeoutMs
    ensures AwaitEcho(peer, echo, LineBrings(peer, echo, answers, background, at)).0 <==>
            answers != [] && answers[0].Acknowledged?
  {
    hide React, ReplySegment, ExceptionPacket, IsBackground;
    assert background + [] == background;
    if answers == [] || answers[0].Unacknowledged? {
      BackgroundPasses(peer, echo, background, []);
    } else if answers[0].Acknowledged? {
      var t := Turn(at, Some(ReplySegment(peer, echo, 0)));
      BackgroundPasses(peer, echo, background, [t]);
      EchoIsTaken(peer, echo, t);
      EchoEndsTheWait(peer, echo, [t], 0);
    } else {
      var t := Turn(at, Some(ExceptionPacket(peer, 0x04)));
      BackgroundPasses(peer, echo, background, [t]);
      ExceptionIsTaken(peer, 0x04);
    }
  }

  /** Nothing but background is a failure, whatever the addresses. */
  lemma BackgroundIsNoEcho(peer: Peer, echo: seq<byte>, background: seq<Turn>)
    requires IsBackground(peer, background)
    ensures !AwaitEcho(peer, echo, background).0
  {
    hide IsBackground;
    BackgroundPasses(peer, echo, background, []);
    assert background + [] == background;
  }

  // ---- One write over the line ----

  /** What the line brings to the wait for the echo. */
  function TurnsOfWait(reaches: bool, peer: Peer, echo: seq<byte>, answers: seq<Answer>, others: seq<Turn>, at: int): seq<Turn>
    requires |echo| == 4
  {
    if reaches then LineBrings(peer, echo, answers, others, at) else others
  }

  /** On a line that leads to the device the wait succeeds iff the device acknowledges. */
  lemma ReachedDeviceAnswers(peer: Peer, addr: int, registers: seq<u16>, answers: seq<Answer>, others: seq<Turn>, at: int)
    requires peer.srcId <= 0x3F && peer.slaveId <= 0x3F && 1 <= |registers| <= MAX_WRITE
    requires peer.funcCode == WriteFunction(RegisterBytes(registers))
    requires IsBackground(peer, others) && at < peer.timeoutMs
    ensures var pdu := WritePdu(addr, RegisterBytes(registers));
            AwaitEcho(peer, pdu[..4], TurnsOfWait(true, peer, pdu[..4], answers, others, at)).0 <==>
            answers != [] && answers[0].Acknowledged?
  {
    hide RegisterBytes, AwaitEcho, LineBrings, IsBackground, WriteFunction, WritePdu;
    WriteFunctionFits(RegisterBytes(registers));
    WaitSucceedsIffAcknowledged(peer, WritePdu(addr, RegisterBytes(registers))[..4], answers, others, at);
  }

  /** What a device hears of a write of which `k` frames went out: all of it, if it is the one
      it is for and no frame is missing, and otherwise nothing. */
  lemma WhatIsHeard(peer: Peer, address: bv32, addr: int, registers: seq<u16>, canIndex: bv8, k: nat)
    requires 1 <= |registers| <= MAX_WRITE && k <= FrameCount(|registers|)
    requires peer.funcCode == WriteFunction(RegisterBytes(registers))
    ensures var frames := Segments(peer.srcId, peer.slaveId, 0, peer.funcCode, WritePdu(addr, RegisterBytes(registers)));
            && |frames| == FrameCount(|registers|)
            && (peer.srcId <= 0x3F && peer.slaveId <= 0x3F ==>
                  Heard(Received(frames[..k], canIndex), address) ==
                  if k == |frames| && address == peer.slaveId then Some(Write(addr % 0x1_0000, registers)) else None)
            && (k == 0 ==> Heard(Received(frames[..k], canIndex), address).None?)
  {
    hide RegisterBytes, Segments, Received, Heard, WriteFunction, WritePdu, FrameCount;
    FramesOfAWrite(peer.srcId, peer.slaveId, addr, registers);
    var frames := Segments(peer.srcId, peer.slaveId, 0, peer.funcCode, WritePdu(addr, RegisterBytes(registers)));
    NothingIsHeard(canIndex, address);
    assert frames[..0] == [] && frames[..|frames|] == frames;
    if peer.srcId <= 0x3F && peer.slaveId <= 0x3F {
      if k < |frames| {
        PartOfAWriteIsNotHeard(peer.srcId, peer.slaveId, addr, registers, k, canIndex, address);
      } else if address == peer.slaveId {
        WriteIsHeard(peer.srcId, peer.slaveId, addr, registers, canIndex);
      } else {
        OtherDeviceHearsNothing(peer.srcId, peer.slaveId, addr, registers, canIndex, address);
      }
    }
  }

  lemma UnreachedDeviceIsSilent(peer: Peer, echo: seq<byte>, answers: seq<Answer>, others: seq<Turn>, at: int)
    requires IsBackground(peer, others) && |echo| == 4
    ensures !AwaitEcho(peer, echo, TurnsOfWait(false, peer, echo, answers, others, at)).0
  {
    BackgroundIsNoEcho(peer, echo, others);
  }
}
