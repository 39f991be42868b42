/** The serial CAN-FD adapter: frames are printed onto a byte stream, and read back
    from a stream that also carries noise, heartbeats, foreign envelopes and gaps. */
module SerialDriver {
  import opened Bytes
  import opened ByteValues
  import opened CanFrame

  const HEAD: byte := 0x5A
  const TAIL: byte := 0xA5
  const HEARTBEAT_12_CHANNEL: byte := 0xFF
  const HEARTBEAT_4_CHANNEL: byte := 0xFE
  const REST_OF_HEADER: nat := 5    // the second info byte and the id

  /** What one wait for a byte brings: the byte, or nothing before the wait runs out. */
  datatype Rx = Got(b: byte) | Quiet

  // ---- Printing ----

  function IdBytes(id: bv32): (s: seq<byte>)
    ensures |s| == 4
  {
    [((id >> 24) & 0xFF) as bv8, ((id >> 16) & 0xFF) as bv8, ((id >> 8) & 0xFF) as bv8, (id & 0xFF) as bv8]
  }

  /** The id as the adapter wants it: 29 bits, and the CAN-FD mark. */
  function FdId(id: bv32): bv32 {
    (id & 0x1FFF_FFFF) | 0x8000_0000
  }

  function Info1(len: nat, canIndex: bv8): byte {
    ((NearestLength(len) as bv8) & 0x7F) | ((canIndex & 0x01) << 7)
  }

  function Info2(canIndex: bv8): byte {
    0x01 | (((canIndex >> 1) & 0x03) << 3) | 0x04
  }

  /** The second info byte and the id, marked as CAN-FD. */
  function RestOfHeader(id: bv32, canIndex: bv8): (h: seq<byte>)
    ensures |h| == REST_OF_HEADER
  {
    [Info2(canIndex)] + IdBytes(FdId(id))
  }

  function Print(f: Frame, canIndex: bv8): seq<byte> {
    [HEAD, Info1(f.len, canIndex)] + RestOfHeader(f.id, canIndex) + f.Payload() + [TAIL]
  }

  /** The channel an envelope is for: bit 7 of its first info byte, then bits 3 and 4 of its second. */
  function ChannelOf(info1: byte, info2: byte): bv8 {
    (info1 >> 7) | (((info2 >> 3) & 0x03) << 1)
  }

  /** A frame as the adapter has to find it: its marks and its channel, the bit-rate switch and
      the extended format on, its length rounded up to a legal one, the 29-bit id with the CAN-FD
      mark, high byte first, and its bytes. */
  predicate IsEnvelopeFor(s: seq<byte>, f: RawFrame, canIndex: bv8)
    requires f.len <= |f.data|
  {
    && |s| == f.len + 8 && s[0] == 0x5A && s[f.len + 7] == 0xA5
    && ChannelOf(s[1], s[2]) == canIndex & 0x07 && s[2] & 0xE7 == 0x05
    && (s[1] & 0x7F) as int == NearestLength(f.len)
    && IsIdOf(s[3], s[4], s[5], s[6], f.id)
    && s[7..f.len + 7] == f.data[..f.len]
  }

  predicate IsIdOf(b3: byte, b2: byte, b1: byte, b0: byte, id: bv32) {
    && b3 == (((id >> 24) & 0x1F) | 0x80) as bv8 && b2 == ((id >> 16) & 0xFF) as bv8
    && b1 == ((id >> 8) & 0xFF) as bv8 && b0 == (id & 0xFF) as bv8
  }

  lemma ChannelIsPrinted(dlc: bv8, canIndex: bv8)
    requires dlc <= 0x7F
    ensures ChannelOf((dlc & 0x7F) | ((canIndex & 0x01) << 7), Info2(canIndex)) == canIndex & 0x07
    ensures Info2(canIndex) & 0xE7 == 0x05
  {
  }

  lemma IdIsPrinted(id: bv32)
    ensures var s := IdBytes(FdId(id)); IsIdOf(s[0], s[1], s[2], s[3], id)
  {
  }

  lemma FirstInfoByte(len: nat, canIndex: bv8)
    requires len <= MAX_DATA
    ensures ChannelOf(Info1(len, canIndex), Info2(canIndex)) == canIndex & 0x07
    ensures (Info1(len, canIndex) & 0x7F) as int == NearestLength(len)
  {
    hide NearestLength, Info2, ChannelOf;
    LengthBits(NearestLength(len), canIndex);
    ByteOfSmall(NearestLength(len));
    ChannelIsPrinted(NearestLength(len) as bv8, canIndex);
  }

  /** Every printed frame is such an envelope. */
  lemma PrintedIsEnvelopeFor(f: Frame, canIndex: bv8)
    ensures IsEnvelopeFor(Print(f, canIndex), f, canIndex)
  {
    hide NearestLength, Info1, Info2, ChannelOf, IdBytes, FdId, IsIdOf;
    FirstInfoByte(f.len, canIndex);
    IdIsPrinted(f.id);
    ChannelIsPrinted(0, canIndex);
    var s := Print(f, canIndex);
    var header := RestOfHeader(f.id, canIndex);
    assert s[2] == header[0] && s[3] == header[1] && s[4] == header[2] && s[5] == header[3] && s[6] == header[4];
    assert s[7..f.len + 7] == f.Payload();
  }

  // ---- Parsing ----

  function PayloadLength(info1: byte): (r: Option<nat>)
    ensures r.Some? ==> IsLegalLength(r.value) && r.value <= MAX_DATA
  {
    var dlc := (info1 & 0x7F) as int;
    if dlc <= 8 || dlc in [12, 16, 20, 24, 32, 48, 64] then Some(dlc) else None
  }

  function JoinId(b3: byte, b2: byte, b1: byte, b0: byte): bv32 {
    ((b3 as bv32) << 24) | ((b2 as bv32) << 16) | ((b1 as bv32) << 8) | (b0 as bv32)
  }

  function HeaderId(h: seq<byte>): bv32
    requires |h| == REST_OF_HEADER
  {
    JoinId(h[1], h[2], h[3], h[4])
  }

  predicate IsExtendedFd(id: bv32, info2: byte) {
    id & 0x8000_0000 != 0 && info2 & 0x04 != 0
  }

  /** Reading exactly `n` bytes: what was read before a gap is lost with the gap. */
  function Take(s: seq<Rx>, n: nat): (r: (Option<seq<byte>>, seq<Rx>))
    ensures |r.1| <= |s|
    ensures n > 0 && s != [] ==> |r.1| < |s|
    ensures r.0.Some? ==> |r.0.value| == n
    decreases n
  {
    if n == 0 then (Some([]), s)
    else if s == [] then (None, [])
    else match s[0]
      case Quiet => (None, s[1..])
      case Got(b) =>
        var (got, rest) := Take(s[1..], n - 1);
        (if got.Some? then Some([b] + got.value) else None, rest)
  }

  /** The same read, when `data` had already been read before it. */
  function Prepend(data: seq<byte>, read: (Option<seq<byte>>, seq<Rx>)): (Option<seq<byte>>, seq<Rx>) {
    (if read.0.Some? then Some(data + read.0.value) else None, read.1)
  }

  datatype Outcome = GaveUp | Skipped | Parsed(packet: Packet)

  /** One turn of the receive loop. */
  function Turn(s: seq<Rx>): (r: (Outcome, seq<Rx>))
    ensures |r.1| <= |s|
    ensures s != [] ==> |r.1| < |s|
    ensures s == [] ==> r.0.GaveUp?
  {
    var (first, s1) := Take(s, 1);
    if first.None? then (GaveUp, s1)
    else if first.value[0] != HEAD then (Skipped, s1)
    else
      var (info, s2) := Take(s1, 1);
      if info.None? then (Skipped, s2)
      else AfterInfo(info.value[0], s2)
  }

  function AfterInfo(info1: byte, s: seq<Rx>): (r: (Outcome, seq<Rx>))
    ensures |r.1| <= |s| && !r.0.GaveUp?
  {
    if info1 == HEARTBEAT_12_CHANNEL || info1 == HEARTBEAT_4_CHANNEL then
      (Skipped, Take(s, HeartbeatLength(info1)).1)
    else
      var (header, s1) := Take(s, REST_OF_HEADER);
      if header.None? || PayloadLength(info1).None? then (Skipped, s1)
      else
        var (payload, s2) := Take(s1, PayloadLength(info1).value + 1);
        (if payload.None? then Skipped else Judge(header.value, payload.value), s2)
  }

  function HeartbeatLength(info1: byte): nat {
    if info1 == HEARTBEAT_12_CHANNEL then 15 else 30
  }

  function Judge(header: seq<byte>, payload: seq<byte>): Outcome
    requires |header| == REST_OF_HEADER && 0 < |payload| <= MAX_DATA + 1
  {
    var n := |payload| - 1;
    if payload[n] != TAIL || !IsExtendedFd(HeaderId(header), header[0]) then Skipped
    else Parsed(RawPacket.Packet(Id29(HeaderId(header)), payload[..n]))
  }

  /** One call of Receive: turns are taken until one yields a frame or the line is quiet. */
  function Receive(s: seq<Rx>): (r: (Option<Packet>, seq<Rx>))
    ensures |r.1| <= |s|
    ensures s != [] ==> |r.1| < |s|
    decreases |s|
  {
    var (outcome, rest) := Turn(s);
    match outcome
    case GaveUp => (None, rest)
    case Parsed(p) => (Some(p), rest)
    case Skipped => Receive(rest)
  }

  /** Calling Receive until everything that arrived has been read. */
  function Drain(s: seq<Rx>): seq<Packet>
    decreases |s|
  {
    if s == [] then []
    else
      var (got, rest) := Receive(s);
      (if got.Some? then [got.value] else []) + Drain(rest)
  }

  /** A parsed packet written over a frame: the data field keeps what lies past the payload. */
  function Filled(frame: Frame, p: Packet): Frame
    requires |p.payload| <= MAX_DATA
  {
    RawFrame.Frame(p.id, p.payload + frame.data[|p.payload|..], |p.payload|)
  }

  // ---- The driver ----

  class ZqwlDriver {
    var isOpen: bool
    var canIndex: bv8
    var room: nat           // how many bytes the port will take before it fails
    var input: seq<Rx>      // what is still to come from the port
    var output: seq<byte>   // everything written to the port

    constructor (canIndex: bv8, room: nat, arrivals: seq<Rx>)
      ensures isOpen && this.room == room && this.canIndex == canIndex && input == arrivals && output == []
    {
      isOpen, this.room, this.canIndex, input, output := true, room, canIndex, arrivals, [];
    }

    /** A frame is printed whole, or as far as the port takes it. */
    method Send(frame: RawFrame) returns (rc: int)
      requires |frame.data| == MAX_DATA
      modifies `output, `room
      ensures !isOpen || frame.len > MAX_DATA ==> rc == -1 && output == old(output) && room == old(room)
      ensures isOpen && frame.len <= MAX_DATA ==>
        var printed := Print(frame, canIndex);
        && rc == (if |printed| <= old(room) then 0 else -1)
        && output == old(output) + (if rc == 0 then printed else printed[..old(room)])
        && room == old(room) - (if rc == 0 then |printed| else old(room))
      ensures rc == 0 ==> frame.len <= MAX_DATA && IsEnvelopeFor(output[|old(output)|..], frame, canIndex)
    {
      hide Info1, RestOfHeader, IsEnvelopeFor;
      if !isOpen || frame.len > 64 {
        return -1;
      }
      var raw := [HEAD, Info1(frame.len, canIndex)];
      raw := raw + RestOfHeader(frame.id, canIndex);
      raw := raw + frame.data[..frame.len];
      raw := raw + [TAIL];
      PrintedIsEnvelopeFor(frame, canIndex);
      var ok := WriteAll(raw);
      assert ok ==> output[|old(output)|..] == Print(frame, canIndex);
      return if ok then 0 else -1;
    }

    method WriteAll(data: seq<byte>) returns (ok: bool)
      modifies `output, `room
      ensures ok == (|data| <= old(room))
      ensures output == old(output) + (if ok then data else data[..old(room)])
      ensures room == old(room) - (if ok then |data| else old(room))
    {
      var written := 0;
      while written < |data|
        invariant written <= |data| && written <= old(room) && room == old(room) - written
        invariant output == old(output) + data[..written]
      {
        if room == 0 {
          return false;
        }
        output := output + [data[written]];
        room := room - 1;
        written := written + 1;
      }
      assert data[..|data|] == data;
      return true;
    }

    method ReadBytes(size: nat) returns (ok: bool, data: seq<byte>)
      modifies `input
      ensures (if ok then Some(data) else None, input) == Take(old(input), size)
    {
      data := [];
      assert Take(input, size) == Prepend(data, Take(input, size)) by {
        var read := Take(input, size);
        assert read.0.Some? ==> [] + read.0.value == read.0.value;
      }
      while |data| < size
        invariant |data| <= size
        invariant Take(old(input), size) == Prepend(data, Take(input, size - |data|))
        decreases size - |data|
      {
        if input == [] {
          return false, data;
        }
        var next := input[0];
        input := input[1..];
        if next.Quiet? {
          return false, data;
        }
        ghost var tail := Take(input, size - |data| - 1).0;
        assert tail.Some? ==> data + ([next.b] + tail.value) == (data + [next.b]) + tail.value;
        data := data + [next.b];
      }

      assert data + [] == data;
      return true, data;
    }

    /** The body of the receive loop. */
    method ReadTurn() returns (outcome: Outcome)
      modifies `input
      ensures (outcome, input) == Turn(old(input))
    {
      var ok, first := ReadBytes(1);
      if !ok { return GaveUp; }
      if first[0] != HEAD { return Skipped; }
      var gotInfo, info := ReadBytes(1);
      if !gotInfo { return Skipped; }
      outcome := ReadAfterInfo(info[0]);
    }

    method ReadAfterInfo(info1: byte) returns (outcome: Outcome)
      modifies `input
      ensures (outcome, input) == AfterInfo(info1, old(input))
    {
      hide PayloadLength, Judge, Take, IsLegalLength;
      if info1 == HEARTBEAT_12_CHANNEL || info1 == HEARTBEAT_4_CHANNEL {
        var _, _ := ReadBytes(HeartbeatLength(info1));
        return Skipped;
      }
      var gotHeader, header := ReadBytes(REST_OF_HEADER);
      if !gotHeader { return Skipped; }
      var payloadLen := PayloadLength(info1);
      if payloadLen.None? { return Skipped; }
      var gotPayload, payload := ReadBytes(payloadLen.value + 1);
      if !gotPayload { return Skipped; }
      return Judge(header, payload);
    }

    method ReadFrame(frame: Frame) returns (rc: int, out: Frame)
      modifies `input
      ensures !isOpen ==> rc == -1 && input == old(input)
      ensures isOpen ==> input == Receive(old(input)).1
      ensures isOpen ==> rc == if Receive(old(input)).0.Some? then 0 else -1
      ensures rc == -1 ==> out == frame
      ensures isOpen && rc == 0 ==> out == Filled(frame, Receive(old(input)).0.value)
      ensures isOpen && rc == 0 ==>
        var got := Receive(old(input)).0.value;
        out.id == got.id && out.Payload() == got.payload && out.data[out.len..] == frame.data[out.len..]
    {
      out := frame;
      if !isOpen {
        return -1, out;
      }
      while true
        invariant out == frame
        invariant Receive(input) == Receive(old(input))
        decreases |input|
      {
        var outcome := ReadTurn();
        match outcome
        case GaveUp => return -1, out;
        case Skipped =>
        case Parsed(p) => return 0, Filled(frame, p);
      }
    }
  }

  // ---- What a stream can carry ----

  datatype Item =
    | Noise(junk: seq<byte>)                                            // anything without the head byte
    | Pause                                                             // a wait that runs out
    | Heartbeat(kind: byte, body: seq<byte>)
    | Printed(frame: Frame, canIndex: bv8)
    | Rejected(info1: byte, header: seq<byte>, rest: seq<byte>)         // well sized, but not an extended FD frame
    | BadLength(info1: byte, header: seq<byte>)                         // announces a length CAN-FD does not have
    | Cut(whole: Item, keep: nat)                                       // breaks off, then a pause

  predicate IsEnvelope(item: Item) {
    match item
    case Heartbeat(kind, body) =>
      (kind == 0xFF && |body| == 15) || (kind == 0xFE && |body| == 30)
    case Printed(f, _) => IsLegalLength(f.len)
    case Rejected(info1, header, rest) =>
      && info1 != HEARTBEAT_12_CHANNEL && info1 != HEARTBEAT_4_CHANNEL && |header| == REST_OF_HEADER
      && PayloadLength(info1).Some? && |rest| == PayloadLength(info1).value + 1
      && (rest[|rest| - 1] != TAIL || header[0] & 0x04 == 0 || header[1] & 0x80 == 0)
    case BadLength(info1, header) =>
      && info1 != HEARTBEAT_12_CHANNEL && info1 != HEARTBEAT_4_CHANNEL && |header| == REST_OF_HEADER
      && PayloadLength(info1).None?
    case _ => false
  }

  predicate WellFormed(item: Item) {
    match item
    case Noise(junk) => HEAD !in junk
    case Pause => true
    case Cut(whole, keep) => IsEnvelope(whole) && 1 <= keep < |Octets(whole)|
    case _ => IsEnvelope(item)
  }

  function Octets(item: Item): seq<byte> {
    match item
    case Noise(junk) => junk
    case Pause => []
    case Heartbeat(kind, body) => [HEAD, kind] + body
    case Printed(f, canIndex) => Print(f, canIndex)
    case Rejected(info1, header, rest) => [HEAD, info1] + header + rest
    case BadLength(info1, header) => [HEAD, info1] + header
    case Cut(whole, keep) => if keep <= |Octets(whole)| then Octets(whole)[..keep] else []
  }

  function Arriving(bytes: seq<byte>): (s: seq<Rx>)
    ensures |s| == |bytes|
  {
    seq(|bytes|, i requires 0 <= i < |bytes| => Got(bytes[i]))
  }

  function Stream(items: seq<Item>): seq<Rx> {
    if items == [] then [] else ItemStream(items[0]) + Stream(items[1..])
  }

  function ItemStream(item: Item): seq<Rx> {
    Arriving(Octets(item)) + (if item.Pause? || item.Cut? then [Quiet] else [])
  }

  /** The frames that were printed whole, in order. */
  function FramesIn(items: seq<Item>): seq<Packet> {
    if items == [] then [] else FrameIn(items[0]) + FramesIn(items[1..])
  }

  function FrameIn(item: Item): seq<Packet> {
    if item.Printed? then [RawPacket.Packet(Id29(item.frame.id), item.frame.Payload())] else []
  }

  // ---- Reading back what was printed ----

  lemma {:induction false} TakeAll(bytes: seq<byte>, t: seq<Rx>)
    ensures Take(Arriving(bytes) + t, |bytes|) == (Some(bytes), t)
  {
    var s := Arriving(bytes) + t;
    if bytes == [] {
      assert s == t;
    } else {
      assert s[1..] == Arriving(bytes[1..]) + t;
      TakeAll(bytes[1..], t);
      assert [bytes[0]] + bytes[1..] == bytes;
    }
  }

  /** A read that meets a gap, or the end of the stream, loses what came before it. */
  lemma {:induction false} TakeShort(bytes: seq<byte>, t: seq<Rx>, n: nat)
    requires |bytes| < n && (t == [] || t[0].Quiet?)
    ensures Take(Arriving(bytes) + t, n) == (None, if t == [] then [] else t[1..])
  {
    var s := Arriving(bytes) + t;
    if bytes == [] {
      assert s == t;
    } else {
      assert s[1..] == Arriving(bytes[1..]) + t;
      TakeShort(bytes[1..], t, n - 1);
    }
  }

  lemma ArrivingConcat(a: seq<byte>, b: seq<byte>)
    ensures Arriving(a + b) == Arriving(a) + Arriving(b)
  {
  }

  lemma LengthBits(n: nat, canIndex: bv8)
    requires n <= MAX_DATA
    ensures ((((n as bv8) & 0x7F) | ((canIndex & 0x01) << 7)) & 0x7F) as int == n
    ensures var i := ((n as bv8) & 0x7F) | ((canIndex & 0x01) << 7); i != 0xFF && i != 0xFE
  {
    ByteOfSmall(n);
    InfoBits(n as bv8, canIndex);
  }

  lemma ByteOfSmall(n: nat)
    requires n <= MAX_DATA
    ensures (n as bv8) as int == n && (n as bv8) <= 64
  {
  }

  lemma InfoBits(n: bv8, canIndex: bv8)
    requires n <= 64
    ensures var i := (n & 0x7F) | ((canIndex & 0x01) << 7);
            i & 0x7F == n && i != 0xFF && i != 0xFE
  {
  }

  /** The info byte of a printed frame gives its length back and is never a heartbeat mark. */
  lemma InfoByte(len: nat, canIndex: bv8)
    requires len <= MAX_DATA
    ensures var info1 := Info1(len, canIndex);
            && PayloadLength(info1) == Some(NearestLength(len))
            && info1 != HEARTBEAT_12_CHANNEL && info1 != HEARTBEAT_4_CHANNEL
  {
    hide NearestLength;
    LengthBits(NearestLength(len), canIndex);
  }

  lemma IdBits(id: bv32)
    ensures JoinId(((id >> 24) & 0xFF) as bv8, ((id >> 16) & 0xFF) as bv8,
                   ((id >> 8) & 0xFF) as bv8, (id & 0xFF) as bv8) == id
  {
  }

  lemma SentIdBits(id: bv32, canIndex: bv8)
    ensures Id29(FdId(id)) == Id29(id) && IsExtendedFd(FdId(id), Info2(canIndex))
  {
  }

  lemma HeaderBits(id: bv32, canIndex: bv8)
    ensures var h := [Info2(canIndex)] + IdBytes(id);
            h[0] == Info2(canIndex) && HeaderId(h) == id
  {
    IdBits(id);
    var h, bytes := [Info2(canIndex)] + IdBytes(id), IdBytes(id);
    assert h[1] == bytes[0] && h[2] == bytes[1] && h[3] == bytes[2] && h[4] == bytes[3];
  }

  /** The header of a printed frame is that of an extended FD frame with the same 29-bit id. */
  lemma PrintedHeader(id: bv32, canIndex: bv8, h: seq<byte>)
    requires h == RestOfHeader(id, canIndex)
    ensures Id29(HeaderId(h)) == Id29(id) && IsExtendedFd(HeaderId(h), h[0])
  {
    HeaderBits(FdId(id), canIndex);
    SentIdBits(id, canIndex);
  }

  // ---- One turn on each kind of item ----

  lemma TurnAfterHead(info1: byte, rest: seq<Rx>)
    ensures Turn([Got(HEAD), Got(info1)] + rest) == AfterInfo(info1, rest)
  {
    var s := [Got(HEAD), Got(info1)] + rest;
    assert s == [Got(HEAD)] + ([Got(info1)] + rest);
    TakeOne(HEAD, [Got(info1)] + rest);
    TakeOne(info1, rest);
  }

  lemma TakeOne(b: byte, t: seq<Rx>)
    ensures Take([Got(b)] + t, 1) == (Some([b]), t)
  {
    assert Arriving([b]) == [Got(b)];
    TakeAll([b], t);
  }

  /** How many bytes an envelope has after its info byte. */
  function BodyLength(info1: byte): nat {
    if info1 == HEARTBEAT_12_CHANNEL || info1 == HEARTBEAT_4_CHANNEL then HeartbeatLength(info1)
    else if PayloadLength(info1).None? then REST_OF_HEADER
    else REST_OF_HEADER + PayloadLength(info1).value + 1
  }

  /** An envelope that breaks off is dropped together with the gap that broke it off. */
  lemma CutBody(info1: byte, part: seq<byte>, t: seq<Rx>)
    requires |part| < BodyLength(info1) && (t == [] || t[0].Quiet?)
    ensures AfterInfo(info1, Arriving(part) + t) == (Skipped, if t == [] then [] else t[1..])
  {
    hide Take, PayloadLength, IsLegalLength, Judge, HeartbeatLength;
    var s := Arriving(part) + t;
    if info1 == HEARTBEAT_12_CHANNEL || info1 == HEARTBEAT_4_CHANNEL {
      TakeShort(part, t, HeartbeatLength(info1));
    } else if |part| < REST_OF_HEADER {
      TakeShort(part, t, REST_OF_HEADER);
    } else {
      SplitTake(part, REST_OF_HEADER, t);
      TakeShort(part[REST_OF_HEADER..], t, PayloadLength(info1).value + 1);
    }
  }

  lemma SplitTake(bytes: seq<byte>, n: nat, t: seq<Rx>)
    requires n <= |bytes|
    ensures Take(Arriving(bytes) + t, n) == (Some(bytes[..n]), Arriving(bytes[n..]) + t)
  {
    ArrivingConcat(bytes[..n], bytes[n..]);
    assert bytes[..n] + bytes[n..] == bytes;
    assert Arriving(bytes) + t == Arriving(bytes[..n]) + (Arriving(bytes[n..]) + t);
    TakeAll(bytes[..n], Arriving(bytes[n..]) + t);
  }

  lemma WholeBody(info1: byte, header: seq<byte>, payload: seq<byte>, t: seq<Rx>)
    requires info1 != HEARTBEAT_12_CHANNEL && info1 != HEARTBEAT_4_CHANNEL
    requires |header| == REST_OF_HEADER
    requires PayloadLength(info1).Some? && |payload| == PayloadLength(info1).value + 1
    ensures AfterInfo(info1, Arriving(header + payload) + t) == (Judge(header, payload), t)
  {
    var body := header + payload;
    SplitTake(body, REST_OF_HEADER, t);
    assert body[..REST_OF_HEADER] == header && body[REST_OF_HEADER..] == payload;
    TakeAll(payload, t);
  }

  lemma ShortBody(info1: byte, body: seq<byte>, t: seq<Rx>)
    requires |body| == BodyLength(info1)
    requires info1 == HEARTBEAT_12_CHANNEL || info1 == HEARTBEAT_4_CHANNEL || PayloadLength(info1).None?
    ensures AfterInfo(info1, Arriving(body) + t) == (Skipped, t)
  {
    TakeAll(body, t);
  }

  lemma RejectedIsSkipped(item: Item)
    requires IsEnvelope(item) && item.Rejected?
    ensures Judge(item.header, item.rest) == Skipped
  {
    MarkBits(item.header[0], item.header[1], item.header[2], item.header[3], item.header[4]);
    hide JoinId, IsExtendedFd;
  }

  /** Extended FD is bit 2 of the second info byte and the first bit of the id. */
  lemma MarkBits(info2: byte, b3: byte, b2: byte, b1: byte, b0: byte)
    ensures IsExtendedFd(JoinId(b3, b2, b1, b0), info2) <==> info2 & 0x04 != 0 && b3 & 0x80 != 0
  {
  }

  /** An envelope is its head, its info byte, and a body of the announced length. */
  function Body(item: Item): (byte, seq<byte>)
    requires IsEnvelope(item)
  {
    match item
    case Heartbeat(kind, body) => (kind, body)
    case Printed(f, canIndex) => (Info1(f.len, canIndex), PrintedBody(f, canIndex))
    case Rejected(info1, header, rest) => (info1, header + rest)
    case BadLength(info1, header) => (info1, header)
  }

  function PrintedBody(f: Frame, canIndex: bv8): (body: seq<byte>)
    ensures |body| == REST_OF_HEADER + f.len + 1
  {
    RestOfHeader(f.id, canIndex) + (f.Payload() + [TAIL])
  }

  lemma PrintShape(f: Frame, canIndex: bv8)
    ensures Print(f, canIndex) == [HEAD, Info1(f.len, canIndex)] + PrintedBody(f, canIndex)
  {
  }

  lemma EnvelopeShape(item: Item)
    requires IsEnvelope(item)
    ensures var (info1, body) := Body(item);
            Octets(item) == [HEAD, info1] + body && |body| == BodyLength(info1)
  {
    hide Print, PrintedBody, RestOfHeader, Info1, NearestLength, PayloadLength;
    match item
    case Printed(f, canIndex) =>
      InfoByte(f.len, canIndex);
      PrintShape(f, canIndex);
    case Heartbeat(_, _) =>
    case BadLength(_, _) =>
    case Rejected(_, _, _) =>
  }

  lemma AfterInfoOnPrinted(f: Frame, canIndex: bv8, t: seq<Rx>)
    requires IsLegalLength(f.len)
    ensures AfterInfo(Info1(f.len, canIndex), Arriving(PrintedBody(f, canIndex)) + t)
         == (Parsed(RawPacket.Packet(Id29(f.id), f.Payload())), t)
  {
    var header, payload := RestOfHeader(f.id, canIndex), f.Payload() + [TAIL];
    InfoByte(f.len, canIndex);
    WholeBody(Info1(f.len, canIndex), header, payload, t);
    PrintedHeader(f.id, canIndex, header);
    assert payload[..f.len] == f.Payload();
  }

  lemma TurnOnEnvelope(item: Item, t: seq<Rx>)
    requires IsEnvelope(item)
    ensures Turn(Arriving(Octets(item)) + t)
         == (if item.Printed? then Parsed(FrameIn(item)[0]) else Skipped, t)
  {
    hide Print, Info1, RestOfHeader, AfterInfo, Octets, Turn, Judge, IsLegalLength;
    var (info1, body) := Body(item);
    EnvelopeShape(item);
    assert Arriving(Octets(item)) + t == [Got(HEAD), Got(info1)] + (Arriving(body) + t);
    TurnAfterHead(info1, Arriving(body) + t);
    match item
    case Heartbeat(_, _) => ShortBody(info1, body, t);
    case BadLength(_, _) => ShortBody(info1, body, t);
    case Rejected(_, header, rest) =>
      WholeBody(info1, header, rest, t);
      RejectedIsSkipped(item);
    case Printed(f, canIndex) => AfterInfoOnPrinted(f, canIndex, t);
  }

  lemma TurnOnLoneHead(t: seq<Rx>)
    ensures Turn([Got(HEAD)] + ([Quiet] + t)) == (Skipped, t)
  {
    TakeOne(HEAD, [Quiet] + t);
    assert ([Quiet] + t)[1..] == t;
  }

  lemma TurnOnCutBody(info1: byte, part: seq<byte>, t: seq<Rx>)
    requires |part| < BodyLength(info1)
    ensures Turn(Arriving([HEAD, info1] + part) + ([Quiet] + t)) == (Skipped, t)
  {
    hide AfterInfo, BodyLength, Turn;
    var q := [Quiet] + t;
    assert q[1..] == t;
    assert Arriving([HEAD, info1] + part) + q == [Got(HEAD), Got(info1)] + (Arriving(part) + q);
    TurnAfterHead(info1, Arriving(part) + q);
    CutBody(info1, part, q);
  }

  lemma CutShape(item: Item)
    requires WellFormed(item) && item.Cut?
    ensures var (info1, body) := Body(item.whole);
            if item.keep == 1 then Octets(item) == [HEAD]
            else 0 <= item.keep - 2 < |body| == BodyLength(info1) && Octets(item) == [HEAD, info1] + body[..item.keep - 2]
  {
    hide Print, Info1, RestOfHeader, Body, BodyLength, PayloadLength;
    EnvelopeShape(item.whole);
  }

  lemma TurnOnCut(item: Item, t: seq<Rx>)
    requires WellFormed(item) && item.Cut?
    ensures Turn(ItemStream(item) + t) == (Skipped, t)
  {
    hide Body, BodyLength, Turn, Octets, IsEnvelope;
    var (info1, body) := Body(item.whole);
    CutShape(item);
    if item.keep == 1 {
      assert ItemStream(item) + t == [Got(HEAD)] + ([Quiet] + t);
      TurnOnLoneHead(t);
    } else {
      var part := body[..item.keep - 2];
      assert ItemStream(item) + t == Arriving([HEAD, info1] + part) + ([Quiet] + t);
      TurnOnCutBody(info1, part, t);
    }
  }

  // ---- Whole streams ----

  lemma DrainByTurns(s: seq<Rx>)
    requires s != []
    ensures var (outcome, rest) := Turn(s);
            Drain(s) == (if outcome.Parsed? then [outcome.packet] else []) + Drain(rest)
  {
    var (outcome, rest) := Turn(s);
    if outcome.Skipped? && rest != [] {
      assert Drain(rest) == (if Receive(rest).0.Some? then [Receive(rest).0.value] else []) + Drain(Receive(rest).1);
    }
  }

  lemma {:induction false} DrainNoise(junk: seq<byte>, t: seq<Rx>)
    requires HEAD !in junk
    ensures Drain(Arriving(junk) + t) == Drain(t)
  {
    var s := Arriving(junk) + t;
    if junk == [] {
      assert s == t;
    } else {
      assert s[1..] == Arriving(junk[1..]) + t;
      assert s == [Got(junk[0])] + s[1..];
      TakeOne(junk[0], s[1..]);
      DrainByTurns(s);
      DrainNoise(junk[1..], t);
    }
  }

  lemma DrainItem(item: Item, t: seq<Rx>)
    requires WellFormed(item)
    ensures Drain(ItemStream(item) + t) == FrameIn(item) + Drain(t)
  {
    hide Print, Info1, AfterInfo, Drain, IsLegalLength, PayloadLength;
    var s := ItemStream(item) + t;
    match item
    case Noise(junk) =>
      assert s == Arriving(junk) + t;
      DrainNoise(junk, t);
    case Pause =>
      assert s == [Quiet] + t && s[1..] == t;
      assert Take(s, 1) == (None, t);
      DrainByTurns(s);
    case Cut(_, _) =>
      TurnOnCut(item, t);
      DrainByTurns(s);
    case _ =>
      assert s == Arriving(Octets(item)) + t;
      TurnOnEnvelope(item, t);
      EnvelopeShape(item);
      DrainByTurns(s);
  }

  /** Repeated Receive yields exactly the frames that were printed whole, in order,
      whatever stands between them and whatever their payloads contain. */
  lemma {:induction false} ResyncReadsExactlyThePrintedFrames(items: seq<Item>)
    requires forall i :: 0 <= i < |items| ==> WellFormed(items[i])
    ensures Drain(Stream(items)) == FramesIn(items)
  {
    if items != [] {
      DrainItem(items[0], Stream(items[1..]));
      ResyncReadsExactlyThePrintedFrames(items[1..]);
    }
  }

  // ---- One call of Receive ----

  lemma ReceiveByTurns(s: seq<Rx>)
    ensures var (outcome, rest) := Turn(s);
            Receive(s) == match outcome
                          case GaveUp => (None, rest)
                          case Parsed(p) => (Some(p), rest)
                          case Skipped => Receive(rest)
  {
    hide Turn;
  }

  lemma {:induction false} ReceivePassesNoise(junk: seq<byte>, t: seq<Rx>)
    requires HEAD !in junk
    ensures Receive(Arriving(junk) + t) == Receive(t)
  {
    var s := Arriving(junk) + t;
    if junk == [] {
      assert s == t;
    } else {
      assert s[1..] == Arriving(junk[1..]) + t;
      assert s == [Got(junk[0])] + s[1..];
      TakeOne(junk[0], s[1..]);
      ReceiveByTurns(s);
      ReceivePassesNoise(junk[1..], t);
    }
  }

  /** Something a call of Receive reads past: neither a frame nor a wait that runs out between
      two envelopes. */
  predicate IsPassed(item: Item) {
    WellFormed(item) && !item.Printed? && !item.Pause?
  }

  lemma ReceivePasses(item: Item, t: seq<Rx>)
    requires IsPassed(item)
    ensures Receive(ItemStream(item) + t) == Receive(t)
  {
    hide Print, Info1, AfterInfo, Receive, Turn, IsLegalLength, PayloadLength;
    var s := ItemStream(item) + t;
    ReceiveByTurns(s);
    if item.Noise? {
      assert s == Arriving(item.junk) + t;
      ReceivePassesNoise(item.junk, t);
    } else if item.Cut? {
      TurnOnCut(item, t);
    } else {
      assert s == Arriving(Octets(item)) + t;
      TurnOnEnvelope(item, t);
    }
  }

  /** One call reads past all of that to the next frame, which it returns, or to a wait that runs
      out, with which it returns nothing; what comes after is left for the next call. */
  lemma {:induction false} ReceiveStopsAt(passed: seq<Item>, f: Frame, canIndex: bv8, rest: seq<Rx>)
    requires (forall i :: 0 <= i < |passed| ==> IsPassed(passed[i])) && IsLegalLength(f.len)
    ensures Receive(Stream(passed) + (Arriving(Print(f, canIndex)) + rest)) ==
            (Some(RawPacket.Packet(Id29(f.id), f.Payload())), rest)
    ensures Receive(Stream(passed) + ([Quiet] + rest)) == (None, rest)
  {
    hide Print, Turn, IsLegalLength, IsPassed, ItemStream, Receive;
    var frame, quiet := Arriving(Print(f, canIndex)) + rest, [Quiet] + rest;
    if passed == [] {
      assert Stream(passed) + frame == frame && Stream(passed) + quiet == quiet;
      TurnOnEnvelope(Printed(f, canIndex), rest);
      ReceiveByTurns(frame);
      TurnOnQuiet(rest);
      ReceiveByTurns(quiet);
    } else {
      var others := Stream(passed[1..]);
      ReceiveStopsAt(passed[1..], f, canIndex, rest);
      ReceivePasses(passed[0], others + frame);
      ReceivePasses(passed[0], others + quiet);
      assert Stream(passed) + frame == ItemStream(passed[0]) + (others + frame);
      assert Stream(passed) + quiet == ItemStream(passed[0]) + (others + quiet);
    }
  }

  lemma TurnOnQuiet(rest: seq<Rx>)
    ensures Turn([Quiet] + rest) == (GaveUp, rest)
  {
    assert ([Quiet] + rest)[1..] == rest;
  }

  // ---- A pause recovers from anything ----

  predicate EndsInPause(s: seq<Rx>) {
    s != [] && s[|s| - 1].Quiet?
  }

  /** Nothing is left, or what is left ends in a pause again. */
  predicate PauseAtMost(s: seq<Rx>) {
    s == [] || EndsInPause(s)
  }

  /** No read goes past a pause. */
  lemma {:induction false} TakeStopsAtPause(s: seq<Rx>, t: seq<Rx>, n: nat)
    requires EndsInPause(s)
    ensures Take(s + t, n) == (Take(s, n).0, Take(s, n).1 + t)
    ensures if Take(s, n).0.Some? then EndsInPause(Take(s, n).1) else PauseAtMost(Take(s, n).1)
    decreases n
  {
    assert (s + t)[1..] == s[1..] + t && (s + t)[0] == s[0];
    if n > 0 && s[0].Got? {
      TakeStopsAtPause(s[1..], t, n - 1);
    }
  }

  lemma AfterInfoStopsAtPause(info1: byte, s: seq<Rx>, t: seq<Rx>)
    requires EndsInPause(s)
    ensures AfterInfo(info1, s + t) == (AfterInfo(info1, s).0, AfterInfo(info1, s).1 + t)
    ensures PauseAtMost(AfterInfo(info1, s).1)
  {
    hide Take, PayloadLength, Judge, EndsInPause, IsLegalLength;
    TakeStopsAtPause(s, t, HeartbeatLength(info1));
    TakeStopsAtPause(s, t, REST_OF_HEADER);
    var (header, rest) := Take(s, REST_OF_HEADER);
    if header.Some? && PayloadLength(info1).Some? {
      TakeStopsAtPause(rest, t, PayloadLength(info1).value + 1);
    }
  }

  lemma TurnStopsAtPause(s: seq<Rx>, t: seq<Rx>)
    requires EndsInPause(s)
    ensures Turn(s + t) == (Turn(s).0, Turn(s).1 + t)
    ensures PauseAtMost(Turn(s).1)
  {
    hide Take, AfterInfo, EndsInPause;
    TakeStopsAtPause(s, t, 1);
    var (first, rest) := Take(s, 1);
    if first.Some? {
      TakeStopsAtPause(rest, t, 1);
      var (info, after) := Take(rest, 1);
      if info.Some? {
        AfterInfoStopsAtPause(info.value[0], after, t);
      }
    }
  }

  /** Whatever came before a pause, head bytes and broken envelopes included: what comes after
      it is read as if it came first. */
  lemma {:induction false} PauseRecoversFromAnything(s: seq<Rx>, t: seq<Rx>)
    requires PauseAtMost(s)
    ensures Drain(s + t) == Drain(s) + Drain(t)
    decreases |s|
  {
    hide Turn, Drain, EndsInPause;
    NothingToDrain();
    if s == [] {
      assert s + t == t;
    } else {
      var (outcome, rest) := Turn(s);
      TurnStopsAtPause(s, t);
      DrainByTurns(s);
      DrainByTurns(s + t);
      PauseRecoversFromAnything(rest, t);
    }
  }

  lemma NothingToDrain()
    ensures Drain([]) == []
  {
  }

  /** So frames printed after a pause are read whole and in order, after whatever can be read
      of any bytes before it. */
  lemma ResyncAfterAnyBytes(before: seq<byte>, items: seq<Item>)
    requires forall i :: 0 <= i < |items| ==> WellFormed(items[i])
    ensures Drain(Arriving(before) + [Quiet] + Stream(items)) == Drain(Arriving(before) + [Quiet]) + FramesIn(items)
  {
    hide Drain, Stream, FramesIn, WellFormed;
    PauseRecoversFromAnything(Arriving(before) + [Quiet], Stream(items));
    ResyncReadsExactlyThePrintedFrames(items);
  }

  lemma IllegalLengthIsLost(f: Frame, canIndex: bv8)
    requires !IsLegalLength(f.len)
    ensures Drain(Arriving(Print(f, canIndex))) == []
  {
    hide Print, Info1, AfterInfo, RestOfHeader, NearestLength, PrintedBody, PayloadLength;
    var body, info1 := PrintedBody(f, canIndex), Info1(f.len, canIndex);
    InfoByte(f.len, canIndex);
    PrintShape(f, canIndex);
    var s := Arriving(Print(f, canIndex));
    assert s == [Got(HEAD), Got(info1)] + (Arriving(body) + []);
    TurnAfterHead(info1, Arriving(body) + []);
    CutBody(info1, body, []);
    DrainByTurns(s);
  }

  /** Send alone is read back iff the frame has a length CAN-FD knows: any other length
      is announced longer than it is, and nothing at all comes back. */
  lemma SendIsReadBackIffLegal(f: Frame, canIndex: bv8)
    ensures Drain(Arriving(Print(f, canIndex)))
         == if IsLegalLength(f.len) then [RawPacket.Packet(Id29(f.id), f.Payload())] else []
  {
    hide Print, IsLegalLength, Receive;
    if IsLegalLength(f.len) {
      var item := Printed(f, canIndex);
      DrainItem(item, []);
      assert ItemStream(item) + [] == Arriving(Print(f, canIndex));
    } else {
      IllegalLengthIsLost(f, canIndex);
    }
  }
}
