/** What the segmentation and the reassembly of Modbus PDUs promise together. */
module ModbusReassembly {
  import opened Bytes
  import opened ByteValues
  import opened CanFrame
  import opened ModbusTransport
  import SerialDriver

  // ---- Joining segments ----

  /** Everything a complete set of segments holds, last padding included. */
  function Padded(pdu: seq<byte>): seq<byte>
    requires pdu != []
  {
    pdu + Padding(|Chunk(pdu, SegmentCount(pdu) - 1)|)
  }

  /** What a read returns for a reply that arrives whole. */
  function Whole(reply: seq<byte>): Reply
    requires reply != []
  {
    if |reply| > 1 then Answer(Padded(reply)[1..]) else Unchanged
  }

  function AllChunks(pdu: seq<byte>): map<nat, seq<byte>> {
    map j: nat | 0 <= j < SegmentCount(pdu) :: PaddedChunk(pdu, j)
  }

  /** The segments of a reply, as a read stores them: without the byte count. */
  function AllStripped(reply: seq<byte>): map<nat, seq<byte>> {
    map j: nat | 0 <= j < SegmentCount(reply) :: Stripped(j, PaddedChunk(reply, j))
  }

  lemma NoInnerPadding(pdu: seq<byte>, j: nat)
    requires j + 1 < SegmentCount(pdu)
    ensures PaddedChunk(pdu, j) == pdu[SEGMENT_SIZE * j..SEGMENT_SIZE * (j + 1)]
  {
    hide Padding;
    FullChunkPadding();
    var chunk := Chunk(pdu, j);
    assert |chunk| == SEGMENT_SIZE;
    assert PaddedChunk(pdu, j) == chunk + Padding(SEGMENT_SIZE) == chunk;
    assert chunk == pdu[SEGMENT_SIZE * j..][..SEGMENT_SIZE];
  }

  lemma FullChunkPadding()
    ensures Padding(SEGMENT_SIZE) == []
  {
    assert SEGMENT_SIZE in LEGAL_LENGTHS;
  }

  lemma {:induction false} JoinChunks(pdu: seq<byte>, k: nat)
    requires pdu != []
    ensures k < SegmentCount(pdu) ==> Join(AllChunks(pdu), k) == pdu[..SEGMENT_SIZE * k]
    ensures k >= SegmentCount(pdu) ==> Join(AllChunks(pdu), k) == Padded(pdu)
  {
    hide PaddedChunk, Padded;
    if k > 0 {
      JoinChunks(pdu, k - 1);
      if k < SegmentCount(pdu) {
        NoInnerPadding(pdu, k - 1);
      } else if k == SegmentCount(pdu) {
        LastChunk(pdu);
      }
    }
  }

  lemma LastChunk(pdu: seq<byte>)
    requires pdu != []
    ensures var n := SegmentCount(pdu);
            pdu[..SEGMENT_SIZE * (n - 1)] + PaddedChunk(pdu, n - 1) == Padded(pdu)
  {
    hide Padding;
    var n := SegmentCount(pdu);
    assert pdu[..SEGMENT_SIZE * (n - 1)] + Chunk(pdu, n - 1) == pdu;
  }

  lemma StrippedChunk(reply: seq<byte>, j: nat)
    requires 2 <= SegmentCount(reply) && j < SegmentCount(reply)
    ensures PaddedChunk(reply, j) != [] && Stripped(j, PaddedChunk(reply, j)) != []
    ensures Stripped(j, PaddedChunk(reply, j)) == if j == 0 then PaddedChunk(reply, 0)[1..] else PaddedChunk(reply, j)
  {
  }

  /** Stripping segment zero strips the whole. */
  lemma {:induction false} JoinStripped(reply: seq<byte>, k: nat)
    requires SegmentCount(reply) >= 2
    ensures k > 0 ==> Join(AllChunks(reply), k) != []
    ensures Join(AllStripped(reply), k) == if k == 0 then [] else Join(AllChunks(reply), k)[1..]
  {
    hide PaddedChunk, Stripped;
    if k > 0 {
      JoinStripped(reply, k - 1);
      if k <= SegmentCount(reply) {
        StrippedChunk(reply, k - 1);
      }
    }
  }

  /** A set of segments that lacks one joins to something shorter. */
  lemma {:induction false} JoinPart(part: map<nat, seq<byte>>, full: map<nat, seq<byte>>, k: nat)
    requires forall j :: j in part ==> j in full && part[j] == full[j]
    ensures |Join(part, k)| <= |Join(full, k)|
    ensures (exists j :: j in full && j !in part && j < k && full[j] != []) ==> |Join(part, k)| < |Join(full, k)|
  {
    if k > 0 {
      JoinPart(part, full, k - 1);
    }
  }

  // ---- Reading ----

  predicate IsModbusPeer(peer: Peer) {
    peer.srcId <= 0x3F && peer.slaveId <= 0x3F && peer.funcCode <= 0x7F
  }

  /** Segment `j` of the slave's reply. */
  function ReplySegment(peer: Peer, reply: seq<byte>, j: nat): Packet
    requires j < SegmentCount(reply)
  {
    PacketOf(Segment(peer.slaveId, peer.srcId, 1, peer.funcCode, reply, j))
  }

  /** A frame that is not an answer to this request. */
  predicate Foreign(peer: Peer, p: Packet) {
    var a := UnpackArbitration(p.id);
    || a.ack != 1 || a.dst != peer.srcId || a.src != peer.slaveId
    || (a.funcCode != peer.funcCode && a.funcCode != ErrorCode(peer.funcCode))
  }

  predicate Carries(peer: Peer, reply: seq<byte>, t: Turn, j: nat)
    requires j < SegmentCount(reply)
  {
    t.got == Some(ReplySegment(peer, reply, j))
  }

  /** A turn within the time limit that brings nothing, something foreign, or a segment of the reply. */
  ghost predicate Plain(peer: Peer, reply: seq<byte>, t: Turn) {
    && t.elapsedMs < peer.timeoutMs
    && (t.got.Some? && !Foreign(peer, t.got.value) ==>
        exists j :: 0 <= j < SegmentCount(reply) && Carries(peer, reply, t, j))
  }

  ghost predicate SomeTurnCarries(peer: Peer, reply: seq<byte>, turns: seq<Turn>, j: nat)
    requires j < SegmentCount(reply)
  {
    exists i :: 0 <= i < |turns| && Carries(peer, reply, turns[i], j)
  }

  lemma ReactToSegment(peer: Peer, reply: seq<byte>, j: nat)
    requires IsModbusPeer(peer) && j < SegmentCount(reply) <= SEGMENT_NUMBERS
    ensures var p := ReplySegment(peer, reply, j);
            && p.payload == PaddedChunk(reply, j)
            && React(peer, p) ==
               if SegmentCount(reply) > 1
               then Keep(j, Stripped(j, PaddedChunk(reply, j)), j == SegmentCount(reply) - 1)
               else Final(if |PaddedChunk(reply, j)| > 1 then Answer(PaddedChunk(reply, j)[1..]) else Unchanged)
  {
    hide UnpackArbitration, PackArbitration, Segment, Id29, ErrorCode, SegmentNumber, PaddedChunk, React, Stripped;
    var p := ReplySegment(peer, reply, j);
    SegmentPacket(peer.slaveId, peer.srcId, 1, peer.funcCode, reply, j);
    SegmentNumberBelow(j);
    ReactByFields(peer, p, UnpackArbitration(p.id));
  }

  /** How a frame of the awaited kind is taken. */
  lemma ReactByFields(peer: Peer, p: Packet, a: Arbitration)
    requires IsModbusPeer(peer) && UnpackArbitration(p.id) == a && FromPeer(peer, a) && a.funcCode == peer.funcCode
    ensures React(peer, p) ==
            if a.start == 1 && a.end == 1
            then Final(if |p.payload| > 1 then Answer(p.payload[1..]) else Unchanged)
            else Keep(a.seg as int, Stripped(a.seg as int, p.payload), a.end == 1)
  {
    hide UnpackArbitration, ErrorCode, Stripped;
    ErrorBit(peer.funcCode);
  }

  lemma ErrorBit(funcCode: bv32)
    requires funcCode <= 0x7F
    ensures funcCode != ErrorCode(funcCode)
  {
  }

  function ReactionTo(peer: Peer, t: Turn): Reaction {
    if t.got.None? then Ignore else React(peer, t.got.value)
  }

  /** What a run of turns adds to the segments held. */
  function Held(peer: Peer, turns: seq<Turn>): map<nat, seq<byte>> {
    if turns == [] then map[]
    else
      var before := Held(peer, turns[..|turns| - 1]);
      match ReactionTo(peer, turns[|turns| - 1])
      case Keep(number, bytes, _) => before[number := bytes]
      case _ => before
  }

  /** Turns that do not end the wait only add what they carry. */
  lemma {:induction false} GatherPasses(peer: Peer, turns: seq<Turn>, m: nat)
    requires m <= |turns|
    requires forall i :: 0 <= i < m ==>
      && turns[i].elapsedMs < peer.timeoutMs
      && !ReactionTo(peer, turns[i]).Final?
      && (ReactionTo(peer, turns[i]).Keep? ==> !ReactionTo(peer, turns[i]).last)
    ensures Gather(peer, map[], turns) == Gather(peer, Held(peer, turns[..m]), turns[m..])
  {
    if m == 0 {
      assert turns[0..] == turns;
    } else {
      GatherPasses(peer, turns, m - 1);
      assert turns[..m][..m - 1] == turns[..m - 1];
      assert turns[m - 1..][1..] == turns[m..];
    }
  }

  lemma PlainReaction(peer: Peer, reply: seq<byte>, t: Turn)
    requires IsModbusPeer(peer) && 1 < SegmentCount(reply) <= SEGMENT_NUMBERS && Plain(peer, reply, t)
    ensures ReactionTo(peer, t).Ignore? ||
            exists j :: 0 <= j < SegmentCount(reply) && Carries(peer, reply, t, j)
    ensures forall j :: 0 <= j < SegmentCount(reply) && Carries(peer, reply, t, j) ==>
            ReactionTo(peer, t) == Keep(j, Stripped(j, PaddedChunk(reply, j)), j == SegmentCount(reply) - 1)
  {
    hide UnpackArbitration, ErrorCode, ReplySegment, Stripped, PaddedChunk;
    forall j | 0 <= j < SegmentCount(reply) && Carries(peer, reply, t, j)
      ensures ReactionTo(peer, t) == Keep(j, Stripped(j, PaddedChunk(reply, j)), j == SegmentCount(reply) - 1)
    {
      ReactToSegment(peer, reply, j);
    }
  }

  lemma {:induction false} HeldIsWhatWasCarried(peer: Peer, reply: seq<byte>, turns: seq<Turn>)
    requires IsModbusPeer(peer) && 1 < SegmentCount(reply) <= SEGMENT_NUMBERS
    requires forall i :: 0 <= i < |turns| ==> Plain(peer, reply, turns[i])
    ensures var held, full := Held(peer, turns), AllStripped(reply);
            && (forall j :: j in held ==> j in full && held[j] == full[j])
            && (forall j :: 0 <= j < SegmentCount(reply) ==>
                  (j in held <==> SomeTurnCarries(peer, reply, turns, j)))
  {
    hide React, Stripped, PaddedChunk, ReplySegment, Foreign;
    if turns != [] {
      var last := |turns| - 1;
      var before := turns[..last];
      HeldIsWhatWasCarried(peer, reply, before);
      PlainReaction(peer, reply, turns[last]);
      forall j | 0 <= j < SegmentCount(reply)
        ensures SomeTurnCarries(peer, reply, turns, j) <==>
                SomeTurnCarries(peer, reply, before, j) || Carries(peer, reply, turns[last], j)
      {
        if SomeTurnCarries(peer, reply, before, j) {
          var i :| 0 <= i < |before| && Carries(peer, reply, before[i], j);
          assert Carries(peer, reply, turns[i], j);
        }
        if SomeTurnCarries(peer, reply, turns, j) && !Carries(peer, reply, turns[last], j) {
          var i :| 0 <= i < |turns| && Carries(peer, reply, turns[i], j);
          assert Carries(peer, reply, before[i], j);
        }
      }
    }
  }

  /** A read returns when the end segment arrives, at turn `m`; what it returns is the whole
      reply, without its byte count and followed only by the last frame's padding, iff every
      other segment came before that: in any order, any number of times, between any
      frames that belong to something else. */
  lemma ReadReturnsTheReplyIffTheEndCameLast(peer: Peer, reply: seq<byte>, turns: seq<Turn>, m: nat)
    requires IsModbusPeer(peer) && 1 < SegmentCount(reply) <= SEGMENT_NUMBERS
    requires m < |turns| && forall i :: 0 <= i <= m ==> Plain(peer, reply, turns[i])
    requires Carries(peer, reply, turns[m], SegmentCount(reply) - 1)
    requires forall i :: 0 <= i < m ==> !Carries(peer, reply, turns[i], SegmentCount(reply) - 1)
    ensures var (answer, rest) := Gather(peer, map[], turns);
            && answer.Answer? && rest == turns[m + 1..]
            && (answer.bytes == Padded(reply)[1..] <==>
                forall j :: 0 <= j < SegmentCount(reply) - 1 ==> SomeTurnCarries(peer, reply, turns[..m], j))
  {
    hide React, Stripped, PaddedChunk, ReplySegment, Foreign, Carries, Join, Held, AllStripped, Padded;
    var n := SegmentCount(reply);
    forall i | 0 <= i <= m
      ensures turns[i].elapsedMs < peer.timeoutMs && !ReactionTo(peer, turns[i]).Final?
      ensures i < m && ReactionTo(peer, turns[i]).Keep? ==> !ReactionTo(peer, turns[i]).last
    {
      PlainReaction(peer, reply, turns[i]);
    }
    GatherPasses(peer, turns, m);
    PlainReaction(peer, reply, turns[m]);
    assert turns[m..][0] == turns[m] && turns[m..][1..] == turns[m + 1..];
    HeldIsWhatWasCarried(peer, reply, turns[..m]);
    JoinIsWholeIffNoneLacks(reply, Held(peer, turns[..m]));
  }

  /** The segments of a reply, in order and without delay. */
  function InOrder(peer: Peer, reply: seq<byte>): (turns: seq<Turn>)
    ensures |turns| == SegmentCount(reply)
  {
    seq(SegmentCount(reply), i requires 0 <= i < SegmentCount(reply) => Turn(0, Some(ReplySegment(peer, reply, i))))
  }

  lemma SegmentsDiffer(peer: Peer, reply: seq<byte>, i: nat, j: nat)
    requires IsModbusPeer(peer) && i < SegmentCount(reply) <= SEGMENT_NUMBERS && j < SegmentCount(reply) && i != j
    ensures ReplySegment(peer, reply, i) != ReplySegment(peer, reply, j)
  {
    hide ReplySegment, React, Stripped, PaddedChunk;
    ReactToSegment(peer, reply, i);
    ReactToSegment(peer, reply, j);
  }

  /** Such a reply is always returned. */
  lemma InOrderReplyIsReturned(peer: Peer, reply: seq<byte>)
    requires IsModbusPeer(peer) && reply != [] && SegmentCount(reply) <= SEGMENT_NUMBERS && peer.timeoutMs > 0
    ensures Gather(peer, map[], InOrder(peer, reply)) == (Whole(reply), [])
  {
    hide Gather, Padded, ReplySegment, Foreign;
    var n, turns := SegmentCount(reply), InOrder(peer, reply);
    if n == 1 {
      SingleFrameReply(peer, reply, turns, 0);
      assert turns[1..] == [];
    } else {
      InOrderSegmentsAreJoined(peer, reply);
    }
  }

  lemma InOrderSegmentsAreJoined(peer: Peer, reply: seq<byte>)
    requires IsModbusPeer(peer) && 1 < SegmentCount(reply) <= SEGMENT_NUMBERS && peer.timeoutMs > 0
    ensures Gather(peer, map[], InOrder(peer, reply)) == (Answer(Padded(reply)[1..]), [])
  {
    hide Gather, Padded, ReplySegment, SegmentCount, Foreign;
    var n, turns := SegmentCount(reply), InOrder(peer, reply);
    forall i | 0 <= i < n
      ensures Carries(peer, reply, turns[i], i) && Plain(peer, reply, turns[i])
      ensures i < n - 1 ==> !Carries(peer, reply, turns[i], n - 1)
    {
      if i < n - 1 { SegmentsDiffer(peer, reply, i, n - 1); }
    }
    var before := turns[..n - 1];
    forall j | 0 <= j < n - 1
      ensures SomeTurnCarries(peer, reply, before, j)
    {
      assert Carries(peer, reply, before[j], j);
    }
    ReadReturnsTheReplyIffTheEndCameLast(peer, reply, turns, n - 1);
  }

  /** The end segment alone is returned as a success, and is not the reply. */
  lemma EndAloneIsNotTheReply(peer: Peer, reply: seq<byte>)
    requires IsModbusPeer(peer) && 1 < SegmentCount(reply) <= SEGMENT_NUMBERS && peer.timeoutMs > 0
    ensures var end := Turn(0, Some(ReplySegment(peer, reply, SegmentCount(reply) - 1)));
            var answer := Gather(peer, map[], [end]).0;
            answer.Answer? && answer.bytes != Padded(reply)[1..]
  {
    hide Gather, Padded, ReplySegment, SegmentCount, Foreign;
    var n := SegmentCount(reply);
    var turns := [Turn(0, Some(ReplySegment(peer, reply, n - 1)))];
    assert Carries(peer, reply, turns[0], n - 1);
    ReadReturnsTheReplyIffTheEndCameLast(peer, reply, turns, 0);
    assert turns[..0] == [] && !SomeTurnCarries(peer, reply, turns[..0], 0);
  }

  lemma JoinIsWholeIffNoneLacks(reply: seq<byte>, held: map<nat, seq<byte>>)
    requires 1 < SegmentCount(reply) <= SEGMENT_NUMBERS
    requires forall j :: j in held ==> j in AllStripped(reply) && held[j] == AllStripped(reply)[j]
    ensures var n := SegmentCount(reply);
            Join(held[n - 1 := Stripped(n - 1, PaddedChunk(reply, n - 1))], SEGMENT_NUMBERS) == Padded(reply)[1..]
            <==> forall j :: 0 <= j < n - 1 ==> j in held
  {
    hide PaddedChunk, Stripped, Padded;
    var n, full := SegmentCount(reply), AllStripped(reply);
    var part := held[n - 1 := Stripped(n - 1, PaddedChunk(reply, n - 1))];
    JoinChunks(reply, SEGMENT_NUMBERS);
    JoinStripped(reply, SEGMENT_NUMBERS);
    if j: nat :| j < n - 1 && j !in held {
      StrippedChunk(reply, j);
      assert j in full && j !in part && full[j] != [];
      JoinPart(part, full, SEGMENT_NUMBERS);
      assert |Join(part, SEGMENT_NUMBERS)| < |Join(full, SEGMENT_NUMBERS)|;
    } else {
      assert forall j: nat :: j < n - 1 ==> j in held;
      assert part == full;
    }
  }

  /** A reply that fits one frame is returned as soon as it arrives; one that holds no
      data beside its byte count leaves the caller's buffer alone. */
  lemma SingleFrameReply(peer: Peer, reply: seq<byte>, turns: seq<Turn>, m: nat)
    requires IsModbusPeer(peer) && SegmentCount(reply) == 1
    requires m < |turns| && forall i :: 0 <= i <= m ==> turns[i].elapsedMs < peer.timeoutMs
    requires forall i :: 0 <= i < m ==> turns[i].got.None? || Foreign(peer, turns[i].got.value)
    requires Carries(peer, reply, turns[m], 0)
    ensures Gather(peer, map[], turns) ==
            (if |reply| > 1 then Answer(Padded(reply)[1..]) else Unchanged, turns[m + 1..])
  {
    hide Stripped, ReplySegment, PaddedChunk, Padded;
    GatherPasses(peer, turns, m);
    ReactToSegment(peer, reply, 0);
    assert turns[m..][0] == turns[m] && turns[m..][1..] == turns[m + 1..];
    SoleChunk(reply);
  }

  lemma SoleChunk(reply: seq<byte>)
    requires SegmentCount(reply) == 1
    ensures PaddedChunk(reply, 0) == Padded(reply)
    ensures |Padded(reply)| > 1 <==> |reply| > 1
  {
    assert Chunk(reply, 0) == reply;
    assert IsLegalLength(1);
  }

  predicate Ends(r: Reaction) {
    r.Final? || (r.Keep? && r.last)
  }

  /** Turn `i` is the first to end the wait, and it is in time. */
  ghost predicate EndsAt(peer: Peer, turns: seq<Turn>, i: nat) {
    && i < |turns| && Ends(ReactionTo(peer, turns[i]))
    && (forall k :: 0 <= k <= i ==> turns[k].elapsedMs < peer.timeoutMs)
    && (forall k :: 0 <= k < i ==> !Ends(ReactionTo(peer, turns[k])))
  }

  lemma {:induction false} GatherEndsAt(peer: Peer, segments: map<nat, seq<byte>>, turns: seq<Turn>, i: nat)
    requires EndsAt(peer, turns, i)
    ensures Gather(peer, segments, turns).1 == turns[i + 1..]
    ensures var reaction := ReactionTo(peer, turns[i]);
            if reaction.Final? then Gather(peer, segments, turns).0 == reaction.reply
            else Gather(peer, segments, turns).0.Answer?
    decreases i
  {
    hide React;
    if i > 0 {
      assert forall k :: 0 <= k < i ==> turns[1..][k] == turns[k + 1];
      var reaction := ReactionTo(peer, turns[0]);
      var held := if reaction.Keep? then segments[reaction.number := reaction.bytes] else segments;
      GatherEndsAt(peer, held, turns[1..], i - 1);
    }
  }

  // ---- What a successful read promises ----

  /** What a read returns, from what ends its wait and what came before. */
  lemma AnswerIs(peer: Peer, turns: seq<Turn>, i: nat)
    requires EndsAt(peer, turns, i)
    ensures var reaction := ReactionTo(peer, turns[i]);
            Gather(peer, map[], turns).0 ==
            if reaction.Final? then reaction.reply else Answer(Join(Held(peer, turns[..i + 1]), SEGMENT_NUMBERS))
  {
    hide React, Join;
    GatherPasses(peer, turns, i);
    assert turns[i..][0] == turns[i] && turns[..i + 1][..i] == turns[..i];
  }

  /** The bytes of data a wait that ends at turn `i` has brought: those of the single frame, or
      of the last segment of each number. */
  function Brought(peer: Peer, turns: seq<Turn>, i: nat): nat
    requires i < |turns|
  {
    match ReactionTo(peer, turns[i])
    case Final(Answer(bytes)) => |bytes|
    case Keep(_, _, _) => |Join(Held(peer, turns[..i + 1]), SEGMENT_NUMBERS)|
    case _ => 0
  }

  predicate IsLongEnough(reply: Reply, count: nat) {
    reply.Answer? && |reply.bytes| >= 2 * count
  }

  /** A read succeeds with data for `count` registers iff that much has come when its wait
      ends; the code does not ask. */
  lemma ReadIsLongEnoughIff(peer: Peer, turns: seq<Turn>, count: nat)
    requires count > 0
    ensures IsLongEnough(Gather(peer, map[], turns).0, count) <==>
            exists i: nat :: EndsAt(peer, turns, i) && Brought(peer, turns, i) >= 2 * count
  {
    hide Gather, Held, Join, React, EndsAt;
    if i: nat :| EndsAt(peer, turns, i) {
      EndsInTime(peer, turns, i);
      AnswerIs(peer, turns, i);
      forall j: nat | EndsAt(peer, turns, j)
        ensures j == i
      {
        EndsOnce(peer, turns, i, j);
      }
    } else {
      GatherNeverEnds(peer, map[], turns);
    }
  }

  lemma EndsInTime(peer: Peer, turns: seq<Turn>, i: nat)
    requires EndsAt(peer, turns, i)
    ensures i < |turns| && Ends(ReactionTo(peer, turns[i]))
  {
  }

  /** Nothing ties an answer to the request: whatever reply with its function code comes in
      order is returned, to this read, to an earlier one or of another length, and it holds
      data for `count` registers iff its frames do. */
  lemma AnyReplyIsTaken(peer: Peer, reply: seq<byte>, count: nat)
    requires IsModbusPeer(peer) && |reply| > 1 && SegmentCount(reply) <= SEGMENT_NUMBERS && peer.timeoutMs > 0
    ensures var answer := Gather(peer, map[], InOrder(peer, reply)).0;
            && answer == Answer(Padded(reply)[1..])
            && (IsLongEnough(answer, count) <==> 2 * count < |Padded(reply)|)
  {
    hide Gather, InOrder, Padded;
    InOrderReplyIsReturned(peer, reply);
    WholeOf(reply);
  }

  lemma WholeOf(reply: seq<byte>)
    requires |reply| > 1
    ensures Whole(reply) == Answer(Padded(reply)[1..]) && |Padded(reply)| >= |reply|
  {
    hide Padding;
  }

  /** So a success guarantees data for as many registers as were asked for, whatever arrives,
      iff none were asked for or nothing can answer. */
  lemma SuccessIsLongEnoughIff(peer: Peer, count: nat)
    requires peer.funcCode <= 0x7F && peer.timeoutMs > 0
    ensures (forall turns :: Gather(peer, map[], turns).0.Answer? ==> IsLongEnough(Gather(peer, map[], turns).0, count))
            <==> count == 0 || peer.slaveId > 0x3F || peer.srcId > 0x3F
  {
    hide Gather, Padded, InOrder;
    if peer.slaveId > 0x3F || peer.srcId > 0x3F {
      forall turns
        ensures !Gather(peer, map[], turns).0.Answer?
      {
        NeverAnswered(peer, turns);
      }
    } else if count > 0 {
      ShortReply();
      AnyReplyIsTaken(peer, [0, 0], count);
      assert !IsLongEnough(Gather(peer, map[], InOrder(peer, [0, 0])).0, count);
    }
  }

  lemma ShortReply()
    ensures |Padded([0, 0])| == 2
  {
    hide FirstAtLeast, LEGAL_LENGTHS;
    var reply: seq<byte> := [0, 0];
    assert SegmentCount(reply) == 1;
    assert Chunk(reply, 0) == reply;
    assert NearestLength(2) == 2 by {
      TwoIsLegal();
    }
  }

  lemma TwoIsLegal()
    ensures IsLegalLength(2)
  {
  }

  /** An exception reply ends the wait wherever it comes, whatever segments were already held. */
  lemma ExceptionEndsTheWait(peer: Peer, segments: map<nat, seq<byte>>, turns: seq<Turn>, i: nat)
    requires EndsAt(peer, turns, i) && turns[i].got.Some?
    requires var a := UnpackArbitration(turns[i].got.value.id);
             FromPeer(peer, a) && a.funcCode == ErrorCode(peer.funcCode)
    ensures Gather(peer, segments, turns) == (Exception, turns[i + 1..])
  {
    hide Gather;
    GatherEndsAt(peer, segments, turns, i);
  }

  lemma EndsLater(peer: Peer, turns: seq<Turn>, i: nat)
    requires turns != [] && turns[0].elapsedMs < peer.timeoutMs && !Ends(ReactionTo(peer, turns[0]))
    requires EndsAt(peer, turns[1..], i)
    ensures EndsAt(peer, turns, i + 1)
  {
    hide ReactionTo;
    assert forall k :: 1 <= k <= i + 1 ==> turns[k] == turns[1..][k - 1];
  }

  lemma {:induction false} GatherNeverEnds(peer: Peer, segments: map<nat, seq<byte>>, turns: seq<Turn>)
    requires forall i: nat :: !EndsAt(peer, turns, i)
    ensures Gather(peer, segments, turns).0 == Timeout
    decreases |turns|
  {
    hide React;
    if turns != [] && turns[0].elapsedMs < peer.timeoutMs {
      assert !EndsAt(peer, turns, 0);
      var rest := turns[1..];
      forall i: nat
        ensures !EndsAt(peer, rest, i)
      {
        if EndsAt(peer, rest, i) { EndsLater(peer, turns, i); }
      }
      var reaction := ReactionTo(peer, turns[0]);
      var held := if reaction.Keep? then segments[reaction.number := reaction.bytes] else segments;
      GatherNeverEnds(peer, held, turns[1..]);
    }
  }

  lemma ReactionsAreNoTimeout(peer: Peer, t: Turn)
    ensures ReactionTo(peer, t).Final? ==> ReactionTo(peer, t).reply != Timeout
  {
  }

  /** A read fails with an exception iff what ends the wait is one, in time and whatever
      segments were held, and with a timeout iff nothing ends the wait in time. */
  lemma ReadFailsIff(peer: Peer, segments: map<nat, seq<byte>>, turns: seq<Turn>)
    ensures Gather(peer, segments, turns).0 == Exception <==>
            exists i: nat :: EndsAt(peer, turns, i) && ReactionTo(peer, turns[i]) == Final(Exception)
    ensures Gather(peer, segments, turns).0 == Timeout <==> forall i: nat :: !EndsAt(peer, turns, i)
  {
    hide React, Gather, ReactionTo;
    if i: nat :| EndsAt(peer, turns, i) {
      GatherEndsAt(peer, segments, turns, i);
      ReactionsAreNoTimeout(peer, turns[i]);
      forall j: nat | EndsAt(peer, turns, j)
        ensures j == i
      {
        EndsOnce(peer, turns, i, j);
      }
    } else {
      GatherNeverEnds(peer, segments, turns);
    }
  }

  lemma EndsOnce(peer: Peer, turns: seq<Turn>, i: nat, j: nat)
    requires EndsAt(peer, turns, i) && EndsAt(peer, turns, j)
    ensures i == j
  {
  }

  /** Whatever comes after the first turn that begins too late makes no difference. */
  lemma {:induction false} LateTurnsDoNotMatter(peer: Peer, segments: map<nat, seq<byte>>, turns: seq<Turn>, k: nat)
    requires k < |turns| && turns[k].elapsedMs >= peer.timeoutMs
    ensures Gather(peer, segments, turns).0 == Gather(peer, segments, turns[..k]).0
    decreases k
  {
    hide React;
    if k > 0 && turns[0].elapsedMs < peer.timeoutMs {
      assert turns[1..][..k - 1] == turns[..k][1..];
      var reaction := ReactionTo(peer, turns[0]);
      var held := if reaction.Keep? then segments[reaction.number := reaction.bytes] else segments;
      LateTurnsDoNotMatter(peer, held, turns[1..], k - 1);
    }
  }

  lemma SomeAnswer(peer: Peer) returns (turns: seq<Turn>)
    requires IsModbusPeer(peer)
    ensures Gather(peer, map[], turns).0 != Timeout
  {
    hide Gather, ReplySegment, React;
    var reply := [0, 0];
    turns := [Turn(peer.timeoutMs - 1, Some(ReplySegment(peer, reply, 0)))];
    SingleFrameReply(peer, reply, turns, 0);
  }

  lemma SomeEcho(peer: Peer) returns (echo: seq<byte>, turns: seq<Turn>)
    requires IsModbusPeer(peer)
    ensures AwaitEcho(peer, echo, turns).0
  {
    hide AwaitEcho, ReplySegment, React;
    echo := [0, 0, 0, 0];
    turns := [Turn(peer.timeoutMs - 1, Some(ReplySegment(peer, echo, 0)))];
    EchoIsTaken(peer, echo, turns[0]);
    EchoEndsTheWait(peer, echo, turns, 0);
  }

  /** SetSlaveId takes any byte, but an id keeps six bits of it: a request can be answered
      at all iff both addresses fit, and beyond that every read runs into its timeout and
      every write is reported failed. */
  lemma AnswerableIffAddressesFit(peer: Peer)
    requires peer.funcCode <= 0x7F
    ensures (forall turns :: Gather(peer, map[], turns).0 == Timeout) <==>
            (peer.slaveId > 0x3F || peer.srcId > 0x3F)
    ensures (forall echo, turns :: !AwaitEcho(peer, echo, turns).0) <==>
            (peer.slaveId > 0x3F || peer.srcId > 0x3F)
  {
    hide Gather, AwaitEcho, ReplySegment, React;
    if peer.slaveId > 0x3F || peer.srcId > 0x3F {
      forall turns
        ensures Gather(peer, map[], turns).0 == Timeout
      {
        NeverAnswered(peer, turns);
      }
      forall echo, turns
        ensures !AwaitEcho(peer, echo, turns).0
      {
        NeverEchoed(peer, echo, turns);
      }
    } else {
      var turns := SomeAnswer(peer);
      var echo, echoes := SomeEcho(peer);
    }
  }

  /** A device's echo of a write, as a waiting write takes it. */
  lemma EchoIsTaken(peer: Peer, echo: seq<byte>, t: Turn)
    requires IsModbusPeer(peer) && |echo| == 4
    requires t.elapsedMs < peer.timeoutMs && t.got == Some(ReplySegment(peer, echo, 0))
    ensures ReactionTo(peer, t).Final? && ReactionTo(peer, t) != Final(Exception)
    ensures EchoedAt(peer, echo, [t], 0)
  {
    hide ReplySegment, React, Padded, PaddedChunk;
    ReactToSegment(peer, echo, 0);
    SoleChunk(echo);
    assert echo <= Padded(echo) by { FourBytes(echo); }
  }

  lemma FourBytes(echo: seq<byte>)
    requires |echo| == 4
    ensures SegmentCount(echo) == 1 && echo <= Padded(echo)
  {
  }

  lemma {:induction false} NeverEchoed(peer: Peer, echo: seq<byte>, turns: seq<Turn>)
    requires peer.slaveId > 0x3F || peer.srcId > 0x3F
    ensures !AwaitEcho(peer, echo, turns).0
    decreases |turns|
  {
    if turns != [] {
      if turns[0].got.Some? {
        ArbitrationRoundTrip(UnpackArbitration(turns[0].got.value.id), turns[0].got.value.id);
      }
      NeverEchoed(peer, echo, turns[1..]);
    }
  }

  lemma {:induction false} NeverAnswered(peer: Peer, turns: seq<Turn>)
    requires peer.slaveId > 0x3F || peer.srcId > 0x3F
    ensures Gather(peer, map[], turns).0 == Timeout
    decreases |turns|
  {
    if turns != [] {
      if turns[0].got.Some? {
        ArbitrationRoundTrip(UnpackArbitration(turns[0].got.value.id), turns[0].got.value.id);
      }
      NeverAnswered(peer, turns[1..]);
    }
  }

  // ---- Writing ----

  /** A write is reported done iff, in time, the first final answer is no exception and
      repeats the first four bytes of the request. */
  lemma WriteSucceedsIffEchoed(peer: Peer, echo: seq<byte>, turns: seq<Turn>)
    requires |echo| == 4
    ensures AwaitEcho(peer, echo, turns).0 <==>
            exists i :: 0 <= i < |turns| && EchoedAt(peer, echo, turns, i)
  {
    hide EchoedAt, AwaitEcho;
    if AwaitEcho(peer, echo, turns).0 {
      var i := EchoOf(peer, echo, turns);
    }
    forall i | 0 <= i < |turns| && EchoedAt(peer, echo, turns, i)
      ensures AwaitEcho(peer, echo, turns).0
    {
      EchoEndsTheWait(peer, echo, turns, i);
    }
  }

  /** The first final answer in time ends the wait, and what comes after it is left for the next. */
  lemma {:induction false} EchoWaitEndsAt(peer: Peer, echo: seq<byte>, turns: seq<Turn>, i: nat)
    requires i < |turns| && ReactionTo(peer, turns[i]).Final?
    requires forall k :: 0 <= k <= i ==> turns[k].elapsedMs < peer.timeoutMs
    requires forall k :: 0 <= k < i ==> !ReactionTo(peer, turns[k]).Final?
    ensures AwaitEcho(peer, echo, turns).1 == turns[i + 1..]
    decreases i
  {
    hide React;
    if i > 0 {
      assert forall k :: 0 <= k < i ==> turns[1..][k] == turns[k + 1];
      EchoWaitEndsAt(peer, echo, turns[1..], i - 1);
    }
  }

  lemma {:induction false} EchoOf(peer: Peer, echo: seq<byte>, turns: seq<Turn>) returns (i: nat)
    requires |echo| == 4 && AwaitEcho(peer, echo, turns).0
    ensures i < |turns| && EchoedAt(peer, echo, turns, i)
    decreases |turns|
  {
    hide React;
    i := 0;
    if !ReactionTo(peer, turns[0]).Final? {
      i := EchoOf(peer, echo, turns[1..]);
      i := i + 1;
      assert forall k :: 1 <= k <= i ==> turns[k] == turns[1..][k - 1];
    }
  }

  lemma {:induction false} EchoEndsTheWait(peer: Peer, echo: seq<byte>, turns: seq<Turn>, i: nat)
    requires |echo| == 4 && i < |turns| && EchoedAt(peer, echo, turns, i)
    ensures AwaitEcho(peer, echo, turns).0
    decreases i
  {
    hide React;
    if i > 0 {
      assert forall k :: 0 <= k < i ==> turns[1..][k] == turns[k + 1];
      EchoEndsTheWait(peer, echo, turns[1..], i - 1);
    }
  }

  ghost predicate EchoedAt(peer: Peer, echo: seq<byte>, turns: seq<Turn>, i: nat)
    requires i < |turns|
  {
    && (forall k :: 0 <= k <= i ==> turns[k].elapsedMs < peer.timeoutMs)
    && (forall k :: 0 <= k < i ==> !ReactionTo(peer, turns[k]).Final?)
    && ReactionTo(peer, turns[i]).Final? && ReactionTo(peer, turns[i]) != Final(Exception)
    && echo <= turns[i].got.value.payload
  }

  function Wire(frames: seq<Frame>, canIndex: bv8): seq<byte> {
    if frames == [] then [] else SerialDriver.Print(frames[0], canIndex) + Wire(frames[1..], canIndex)
  }

  function Packets(frames: seq<Frame>): (s: seq<Packet>)
    ensures |s| == |frames|
  {
    seq(|frames|, i requires 0 <= i < |frames| => PacketOf(frames[i]))
  }

  /** Frames of legal length and a 29-bit id cross the serial line unchanged. */
  lemma {:induction false} WireDelivers(frames: seq<Frame>, canIndex: bv8)
    requires forall i :: 0 <= i < |frames| ==> IsLegalLength(frames[i].len) && Id29(frames[i].id) == frames[i].id
    ensures SerialDriver.Drain(SerialDriver.Arriving(Wire(frames, canIndex))) == Packets(frames)
  {
    hide SerialDriver.Print, IsLegalLength, Id29, SerialDriver.Receive;
    if frames != [] {
      var item := SerialDriver.Printed(frames[0], canIndex);
      var rest := Wire(frames[1..], canIndex);
      WireDelivers(frames[1..], canIndex);
      SerialDriver.ArrivingConcat(SerialDriver.Print(frames[0], canIndex), rest);
      SerialDriver.DrainItem(item, SerialDriver.Arriving(rest));
      assert Packets(frames) == [PacketOf(frames[0])] + Packets(frames[1..]);
      assert SerialDriver.Arriving(Wire(frames, canIndex))
          == SerialDriver.ItemStream(item) + SerialDriver.Arriving(rest);
    }
  }

  function NumberOf(p: Packet): nat {
    UnpackArbitration(p.id).seg as int
  }

  /** Segments collected by their number, later ones over earlier ones. */
  function Collect(packets: seq<Packet>): map<nat, seq<byte>> {
    if packets == [] then map[]
    else
      var last := packets[|packets| - 1];
      Collect(packets[..|packets| - 1])[NumberOf(last) := last.payload]
  }

  lemma {:induction false} CollectInAnyOrder(packets: seq<Packet>, chunks: map<nat, seq<byte>>)
    requires forall p :: p in packets ==> NumberOf(p) in chunks && chunks[NumberOf(p)] == p.payload
    ensures forall k :: k in Collect(packets) ==> k in chunks && Collect(packets)[k] == chunks[k]
    ensures forall p :: p in packets ==> NumberOf(p) in Collect(packets)
  {
    hide NumberOf;
    if packets != [] {
      CollectInAnyOrder(packets[..|packets| - 1], chunks);
      assert packets == packets[..|packets| - 1] + [packets[|packets| - 1]];
    }
  }

  /** One segment, as it reaches the wire. */
  lemma SegmentOnTheWire(src: bv32, dst: bv32, ack: bv32, funcCode: bv32, pdu: seq<byte>, i: nat)
    requires src <= 0x3F && dst <= 0x3F && ack <= 1 && funcCode <= 0xFF
    requires i < SegmentCount(pdu) <= SEGMENT_NUMBERS
    ensures var frame := Segment(src, dst, ack, funcCode, pdu, i);
            && IsLegalLength(frame.len) && Id29(frame.id) == frame.id
            && UnpackArbitration(PacketOf(frame).id) == SegmentFields(src, dst, ack, funcCode, i, SegmentCount(pdu))
            && NumberOf(PacketOf(frame)) == i
            && PacketOf(frame).payload == PaddedChunk(pdu, i)
            && (i < SegmentCount(pdu) - 1 ==> PaddedChunk(pdu, i) == pdu[SEGMENT_SIZE * i..SEGMENT_SIZE * (i + 1)])
  {
    hide IsLegalLength, Id29, UnpackArbitration, PackArbitration, PaddedChunk, Segment, SegmentNumber, SegmentCount;
    SegmentPacket(src, dst, ack, funcCode, pdu, i);
    SegmentLength(src, dst, ack, funcCode, pdu, i);
    SegmentNumberBelow(i);
    assert PacketOf(Segment(src, dst, ack, funcCode, pdu, i)).id == Segment(src, dst, ack, funcCode, pdu, i).id;
    if i < SegmentCount(pdu) - 1 { NoInnerPadding(pdu, i); }
  }

  lemma SegmentNumberBelow(i: nat)
    requires i < SEGMENT_NUMBERS
    ensures SegmentNumber(i) as int == i
  {
    hide SegmentNumber;
    SegmentNumberFits(i);
  }

  /** Every PDU of up to 32 segments reaches the other end of the serial line: the frames
      come back in order with every arbitration field they were given, only the last is
      padded, and joining the segments by number, received in any order and with
      repetitions, then cutting to length, gives the PDU. */
  lemma WriteCrossesTheWire(src: bv32, dst: bv32, ack: bv32, funcCode: bv32, pdu: seq<byte>, canIndex: bv8)
    requires src <= 0x3F && dst <= 0x3F && ack <= 1 && funcCode <= 0xFF
    requires pdu != [] && SegmentCount(pdu) <= SEGMENT_NUMBERS
    ensures var n := SegmentCount(pdu);
            var frames := Segments(src, dst, ack, funcCode, pdu);
            var received := SerialDriver.Drain(SerialDriver.Arriving(Wire(frames, canIndex)));
            && |received| == n
            && (forall i :: 0 <= i < n ==>
                  && UnpackArbitration(received[i].id) ==
                     Arbitration(src, dst, ack, funcCode, Flag(i == 0), Flag(i == n - 1), Flag(i % 2 == 1), SegmentNumber(i))
                  && (i < n - 1 ==> received[i].payload == pdu[SEGMENT_SIZE * i..SEGMENT_SIZE * (i + 1)]))
            && (forall shuffled: seq<Packet> :: (forall p :: p in shuffled <==> p in received) ==>
                  pdu <= Join(Collect(shuffled), SEGMENT_NUMBERS))
  {
    hide SerialDriver.Drain, UnpackArbitration, Segment, Id29, PaddedChunk, Join, Collect, IsLegalLength, Wire,
         SerialDriver.Arriving, SegmentNumber;
    var n := SegmentCount(pdu);
    var frames := Segments(src, dst, ack, funcCode, pdu);
    forall i | 0 <= i < n
      ensures IsLegalLength(frames[i].len) && Id29(frames[i].id) == frames[i].id
      ensures UnpackArbitration(PacketOf(frames[i]).id) == SegmentFields(src, dst, ack, funcCode, i, n)
      ensures i < n - 1 ==> PacketOf(frames[i]).payload == pdu[SEGMENT_SIZE * i..SEGMENT_SIZE * (i + 1)]
    {
      SegmentOnTheWire(src, dst, ack, funcCode, pdu, i);
    }
    WireDelivers(frames, canIndex);
    forall shuffled: seq<Packet> | forall p :: p in shuffled <==> p in Packets(frames)
      ensures pdu <= Join(Collect(shuffled), SEGMENT_NUMBERS)
    {
      ShuffledSegmentsJoin(src, dst, ack, funcCode, pdu, shuffled);
    }
  }

  lemma SegmentLength(src: bv32, dst: bv32, ack: bv32, funcCode: bv32, pdu: seq<byte>, idx: nat)
    requires idx < SegmentCount(pdu)
    ensures IsLegalLength(Segment(src, dst, ack, funcCode, pdu, idx).len)
  {
    hide IsLegalLength, PackArbitration;
  }

  lemma ShuffledSegmentsJoin(src: bv32, dst: bv32, ack: bv32, funcCode: bv32, pdu: seq<byte>, shuffled: seq<Packet>)
    requires src <= 0x3F && dst <= 0x3F && ack <= 1 && funcCode <= 0xFF
    requires pdu != [] && SegmentCount(pdu) <= SEGMENT_NUMBERS
    requires forall p :: p in shuffled <==> p in Packets(Segments(src, dst, ack, funcCode, pdu))
    ensures Join(Collect(shuffled), SEGMENT_NUMBERS) == Padded(pdu)
  {
    hide NumberOf, UnpackArbitration, Segment, PaddedChunk, Join, Collect, SegmentNumber;
    var n, packets := SegmentCount(pdu), Packets(Segments(src, dst, ack, funcCode, pdu));
    forall i | 0 <= i < n
      ensures NumberOf(packets[i]) == i && packets[i].payload == PaddedChunk(pdu, i)
    {
      SegmentOnTheWire(src, dst, ack, funcCode, pdu, i);
    }
    CollectInAnyOrder(shuffled, AllChunks(pdu));
    forall i | 0 <= i < n
      ensures i in Collect(shuffled)
    {
      assert packets[i] in shuffled;
    }
    assert Collect(shuffled) == AllChunks(pdu);
    JoinChunks(pdu, SEGMENT_NUMBERS);
  }

  /** Past 32 segments the numbers repeat and no collection of received segments is as
      long as the PDU: the bound above is exact. */
  lemma LongerPdusAreLost(pdu: seq<byte>, packets: seq<Packet>)
    requires SegmentCount(pdu) > SEGMENT_NUMBERS
    ensures |Join(Collect(packets), SEGMENT_NUMBERS)| < |pdu|
  {
    CollectedFit(packets);
    JoinBound(Collect(packets), SEGMENT_NUMBERS);
  }

  lemma {:induction false} CollectedFit(packets: seq<Packet>)
    ensures forall k :: k in Collect(packets) ==> |Collect(packets)[k]| <= MAX_DATA
  {
    if packets != [] {
      CollectedFit(packets[..|packets| - 1]);
    }
  }

  lemma {:induction false} JoinBound(segments: map<nat, seq<byte>>, n: nat)
    requires forall k :: k in segments ==> |segments[k]| <= MAX_DATA
    ensures |Join(segments, n)| <= MAX_DATA * n
  {
    if n > 0 {
      JoinBound(segments, n - 1);
    }
  }
}
