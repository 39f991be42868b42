/** Whole runs of the packet assembler: when it forgets what came before, packets in a row,
    and what late repetitions do to the next packet. */
module PacketRuns {
  import opened Bytes
  import opened ByteValues
  import opened CanFrame
  import opened PacketAssembly

  // ---- Forgetting ----

  /** Nothing is open, or what is open has timed out, or is of another size than the arrival. */
  predicate Forgets(a: Assembly, x: Arrival) {
    || a.Idle?
    || x.at - a.since > ASSEMBLY_TIMEOUT
    || (TotalOf(x.packet) > 1 && TotalOf(x.packet) != a.total)
  }

  lemma StepForgets(a: Assembly, x: Arrival)
    requires Forgets(a, x)
    ensures FeedStep(a, x.packet, x.at) == FeedStep(Idle, x.packet, x.at)
  {
    BehavesAsNew(a, x.packet, x.at);
  }

  lemma AfterOneMore(run: seq<Arrival>, x: Arrival)
    ensures After(run + [x]) == FeedStep(After(run), x.packet, x.at).0
  {
    assert (run + [x])[..|run|] == run;
  }

  lemma {:induction false} AfterAsNew(a: seq<Arrival>, b: seq<Arrival>)
    requires b != [] && Forgets(After(a), b[0])
    ensures After(a + b) == After(b)
  {
    hide FeedStep, Forgets;
    var n := |b| - 1;
    var before, x := b[..n], b[n];
    assert b == before + [x] && a + b == (a + before) + [x];
    AfterOneMore(a + before, x);
    AfterOneMore(before, x);
    if n == 0 {
      assert a + before == a;
      StepForgets(After(a), x);
    } else {
      AfterAsNew(a, before);
    }
  }

  /** From such a point on, for the whole rest of a run, the assembler holds and puts out what
      a new one would. */
  lemma BehavesAsNewFromThereOn(a: seq<Arrival>, b: seq<Arrival>)
    requires if b == [] then After(a) == Idle else Forgets(After(a), b[0])
    ensures After(a + b) == After(b)
    ensures forall i :: 0 <= i < |b| ==> Output(a + b, |a| + i) == Output(b, i)
  {
    hide FeedStep, Forgets, After;
    if b == [] {
      assert a + b == a;
      AfterNothing();
    } else {
      AfterAsNew(a, b);
    }
    forall i | 0 <= i < |b|
      ensures Output(a + b, |a| + i) == Output(b, i)
    {
      assert (a + b)[..|a| + i] == a + b[..i];
      if i == 0 {
        assert a + b[..0] == a && b[..0] == [];
        AfterNothing();
        StepForgets(After(a), b[0]);
      } else {
        AfterAsNew(a, b[..i]);
      }
    }
  }

  lemma AfterNothing()
    ensures After([]) == Idle
  {
  }

  // ---- Packets in a row ----

  /** What a run puts out for multi-frame packets. */
  function Deliveries(run: seq<Arrival>): seq<seq<byte>> {
    if run == [] then []
    else
      var n := |run| - 1;
      Deliveries(run[..n]) +
      (if TotalOf(run[n].packet) > 1 && Output(run, n).Some? then [Output(run, n).value] else [])
  }

  /** What a run delivers after one that left nothing open is what it would deliver alone. */
  lemma {:induction false} DeliveriesConcat(a: seq<Arrival>, b: seq<Arrival>)
    requires After(a) == Idle
    ensures Deliveries(a + b) == Deliveries(a) + Deliveries(b)
  {
    hide After, Output, TotalOf;
    if b == [] {
      assert a + b == a;
    } else {
      var n := |b| - 1;
      assert (a + b)[..|a| + n] == a + b[..n] && (a + b)[|a| + n] == b[n];
      DeliveriesConcat(a, b[..n]);
      BehavesAsNewFromThereOn(a, b);
    }
  }

  /** The arrivals of one packet, ending with the one that completes it. */
  ghost predicate Completes(run: seq<Arrival>, parts: seq<seq<byte>>) {
    && run != [] && OnePacket(run, |parts|, parts)
    && AllSeen(run, |parts|) && !AllSeen(run[..|run| - 1], |parts|)
  }

  lemma {:induction false} NothingDelivered(run: seq<Arrival>, i: nat)
    requires i <= |run|
    requires forall k :: 0 <= k < i && TotalOf(run[k].packet) > 1 ==> Output(run, k).None?
    ensures Deliveries(run[..i]) == []
  {
    hide After, FeedStep, TotalOf;
    if i > 0 {
      NothingDelivered(run, i - 1);
      assert run[..i][..i - 1] == run[..i - 1];
    }
  }

  lemma OneDelivery(run: seq<Arrival>, parts: seq<seq<byte>>)
    requires Completes(run, parts)
    ensures After(run) == Idle && Deliveries(run) == [Concat(parts)]
  {
    hide OnePacket, AllSeen, TotalOf, After, Output;
    var n, m := |parts|, |run| - 1;
    assert run[..m + 1] == run;
    PacketIsDeliveredOnceComplete(run, n, parts, m);
    NothingDelivered(run, m);
    LastIsOfThePacket(run, parts);
  }

  lemma LastIsOfThePacket(run: seq<Arrival>, parts: seq<seq<byte>>)
    requires Completes(run, parts)
    ensures TotalOf(run[|run| - 1].packet) > 1
  {
    hide TotalOf, AllSeen;
    OnePacketSize(run, |parts|, parts);
    if TotalOf(run[|run| - 1].packet) <= 1 {
      SinglePacketCompletesNothing(run, |parts|);
    }
  }

  /** Packets in a row are put out once each, in order, if the frames of each begin and end
      between the completions of its neighbours: nothing of a finished packet comes again
      before its counterpart in the next. */
  lemma {:induction false} PacketsInARow(runs: seq<seq<Arrival>>, packets: seq<seq<seq<byte>>>)
    requires |runs| == |packets|
    requires forall i :: 0 <= i < |runs| ==> Completes(runs[i], packets[i])
    ensures After(Concat(runs)) == Idle
    ensures Deliveries(Concat(runs)) == seq(|packets|, i requires 0 <= i < |packets| => Concat(packets[i]))
  {
    hide Completes, After, Deliveries;
    AfterNothing();
    NoDeliveries();
    if runs != [] {
      var rest := Concat(runs[1..]);
      PacketsInARow(runs[1..], packets[1..]);
      OneDelivery(runs[0], packets[0]);
      DeliveriesConcat(runs[0], rest);
      BehavesAsNewAfterIdle(runs[0], rest);
    }
  }

  lemma BehavesAsNewAfterIdle(a: seq<Arrival>, b: seq<Arrival>)
    requires After(a) == Idle
    ensures After(a + b) == After(b)
  {
    hide After;
    BehavesAsNewFromThereOn(a, b);
  }

  lemma NoDeliveries()
    ensures Deliveries([]) == []
  {
  }

  // ---- Packets as they are sent ----

  type Part = s: seq<byte> | |s| <= MAX_DATA

  /** A number below 16 in the four bits it has in an id. */
  function Nibble(k: nat): bv32 {
    ((k % 16) as bv8) as bv32
  }

  lemma NibbleIs(k: nat)
    requires k < 16
    ensures Nibble(k) <= 0xF && Nibble(k) as int == k
  {
  }

  /** Frame `k` of a packet with these parts. */
  function FrameOf(frameType: bv32, device: bv32, parts: seq<Part>, k: nat): Packet
    requires k < |parts|
  {
    RawPacket.Packet(PackPacketId(frameType, device, Nibble(k), Nibble(|parts|)), parts[k])
  }

  lemma FrameIsNumbered(frameType: bv32, device: bv32, parts: seq<Part>, k: nat)
    requires frameType <= 0xF && device <= 0xFF && k < |parts| <= MAX_FRAMES
    ensures TotalOf(FrameOf(frameType, device, parts, k)) == |parts| && SeqOf(FrameOf(frameType, device, parts, k)) == k
  {
    hide PackPacketId, PacketSeq, PacketTotal, PacketType, PacketDevice, Nibble;
    NibbleIs(k);
    NibbleIs(|parts|);
    PacketIdRoundTrip(frameType, device, Nibble(k), Nibble(|parts|));
  }

  /** The frames of a packet, sent in this order at these times. */
  function SentRun(frameType: bv32, device: bv32, parts: seq<Part>, order: seq<nat>, times: seq<int>): (run: seq<Arrival>)
    requires |order| == |times| && forall i :: 0 <= i < |order| ==> order[i] < |parts|
    ensures |run| == |order|
  {
    seq(|order|, i requires 0 <= i < |order| => Arrival(FrameOf(frameType, device, parts, order[i]), times[i]))
  }

  /** Every packet of 2 to 15 frames, of every type and for every device, is put out whole: its
      frames sent with the ids of that packet, in any order, some of them more than once, within
      half a second, up to the last that is missing. */
  lemma SentPacketIsDelivered(frameType: bv32, device: bv32, parts: seq<Part>, order: seq<nat>, times: seq<int>)
    requires frameType <= 0xF && device <= 0xFF && 2 <= |parts| <= MAX_FRAMES
    requires order != [] && |order| == |times| && forall i :: 0 <= i < |order| ==> order[i] < |parts|
    requires forall i, j :: 0 <= i < |times| && 0 <= j < |times| ==> times[j] - times[i] <= 500_000_000
    requires (forall k: nat :: k < |parts| ==> k in order) && order[|order| - 1] !in order[..|order| - 1]
    ensures Deliveries(SentRun(frameType, device, parts, order, times)) == [Concat(parts)]
  {
    hide Completes, Deliveries;
    SentRunCompletes(frameType, device, parts, order, times);
    OneDelivery(SentRun(frameType, device, parts, order, times), parts);
  }

  lemma SentRunCompletes(frameType: bv32, device: bv32, parts: seq<Part>, order: seq<nat>, times: seq<int>)
    requires frameType <= 0xF && device <= 0xFF && 2 <= |parts| <= MAX_FRAMES
    requires order != [] && |order| == |times| && forall i :: 0 <= i < |order| ==> order[i] < |parts|
    requires forall i, j :: 0 <= i < |times| && 0 <= j < |times| ==> times[j] - times[i] <= 500_000_000
    requires (forall k: nat :: k < |parts| ==> k in order) && order[|order| - 1] !in order[..|order| - 1]
    ensures Completes(SentRun(frameType, device, parts, order, times), parts)
  {
    hide TotalOf, SeqOf, FrameOf;
    var run, n, last := SentRun(frameType, device, parts, order, times), |parts|, order[|order| - 1];
    forall i | 0 <= i < |run|
      ensures TotalOf(run[i].packet) == n && SeqOf(run[i].packet) == order[i] && run[i].packet.payload == parts[order[i]]
    {
      FrameIsNumbered(frameType, device, parts, order[i]);
      FrameCarries(frameType, device, parts, order[i]);
    }
    forall k: nat | k < n
      ensures Seen(run, n, k)
    {
      assert k in order;
      var i :| 0 <= i < |order| && order[i] == k;
      assert IsPiece(run[i], n, k);
    }
    var before := run[..|run| - 1];
    forall i | 0 <= i < |before|
      ensures !IsPiece(before[i], n, last)
    {
      assert before[i] == run[i] && order[i] in order[..|order| - 1];
    }
    assert !Seen(before, n, last);
  }

  lemma FrameCarries(frameType: bv32, device: bv32, parts: seq<Part>, k: nat)
    requires k < |parts|
    ensures FrameOf(frameType, device, parts, k).payload == parts[k]
  {
  }

  // ---- Rounds ----

  /** Frames of packets of `n` frames among single-frame packets, within the timeout. */
  ghost predicate OneSize(run: seq<Arrival>, n: nat) {
    && 2 <= n <= MAX_FRAMES
    && (forall i :: 0 <= i < |run| ==> TotalOf(run[i].packet) <= 1 || TotalOf(run[i].packet) == n)
    && (forall i, j :: 0 <= i < |run| && 0 <= j < |run| ==> run[j].at - run[i].at <= ASSEMBLY_TIMEOUT)
  }

  /** The payload of the first frame numbered `k`. */
  function FirstPayload(run: seq<Arrival>, n: nat, k: nat): (payload: seq<byte>)
    ensures Seen(run, n, k) ==> exists i :: 0 <= i < |run| && IsPiece(run[i], n, k) && run[i].packet.payload == payload
  {
    if run == [] then []
    else if IsPiece(run[0], n, k) then run[0].packet.payload
    else
      assert forall i :: 0 <= i < |run| && IsPiece(run[i], n, k) ==> i > 0 && run[i] == run[1..][i - 1];
      assert forall i :: 0 <= i < |run[1..]| ==> run[1..][i] == run[i + 1];
      FirstPayload(run[1..], n, k)
  }

  function FirstPayloads(run: seq<Arrival>, n: nat): (parts: seq<seq<byte>>)
    ensures |parts| == n
  {
    seq(n, k requires 0 <= k < n => FirstPayload(run, n, k))
  }

  lemma {:induction false} FirstPayloadIs(run: seq<Arrival>, n: nat, i: nat)
    requires i < |run| && !Seen(run[..i], n, SeqOf(run[i].packet)) && TotalOf(run[i].packet) == n
    ensures FirstPayload(run, n, SeqOf(run[i].packet)) == run[i].packet.payload
  {
    hide TotalOf, SeqOf;
    if i > 0 {
      var k, rest := SeqOf(run[i].packet), run[1..];
      assert run[..i][0] == run[0];
      var before := rest[..i - 1];
      forall j | 0 <= j < |before|
        ensures !IsPiece(before[j], n, k)
      {
        assert run[..i][j + 1] == before[j];
      }
      FirstPayloadIs(rest, n, i - 1);
    }
  }

  lemma FirstPayloadsMakeOnePacket(run: seq<Arrival>, n: nat)
    requires OneSize(run, n)
    ensures OnePacket(run, n, FirstPayloads(run, n))
  {
    hide TotalOf, SeqOf, Seen, IsPiece;
    forall i | 0 <= i < |run|
      ensures FirstIsGenuine(run, n, FirstPayloads(run, n), i)
    {
      if TotalOf(run[i].packet) == n && !Seen(run[..i], n, SeqOf(run[i].packet)) {
        FirstPayloadIs(run, n, i);
      }
    }
  }

  /** The arrival at which the last missing frame comes. */
  ghost function Completion(run: seq<Arrival>, n: nat): (m: nat)
    requires n > 0 && AllSeen(run, n)
    ensures m < |run| && AllSeen(run[..m + 1], n) && !AllSeen(run[..m], n)
  {
    var last := |run| - 1;
    assert Seen(run, n, 0);
    assert !Seen([], n, 0);
    assert run[..last + 1] == run;
    if AllSeen(run[..last], n) then
      var m := Completion(run[..last], n);
      assert run[..last][..m + 1] == run[..m + 1] && run[..last][..m] == run[..m];
      m
    else last
  }

  /** What the rounds of a run carry: a round ends where the last missing frame comes, and the
      first frame of each number counts. */
  ghost function Rounds(run: seq<Arrival>, n: nat): seq<seq<byte>>
    requires n > 0
    decreases |run|
  {
    if !AllSeen(run, n) then []
    else
      var m := Completion(run, n);
      [Concat(FirstPayloads(run[..m + 1], n))] + Rounds(run[m + 1..], n)
  }

  lemma OneSizePart(run: seq<Arrival>, n: nat, i: nat, j: nat)
    requires OneSize(run, n) && i <= j <= |run|
    ensures OneSize(run[i..j], n)
  {
    hide TotalOf;
  }

  /** Nothing is put out while a frame is missing. */
  lemma NothingWhileIncomplete(run: seq<Arrival>, n: nat)
    requires OneSize(run, n) && !AllSeen(run, n)
    ensures Deliveries(run) == []
  {
    hide FeedStep, OneSize, OnePacket, Collecting, TotalOf, AllSeen, FirstPayloads, After;
    var parts := FirstPayloads(run, n);
    FirstPayloadsMakeOnePacket(run, n);
    OnePacketSize(run, n, parts);
    forall i | 0 <= i < |run|
      ensures TotalOf(run[i].packet) > 1 ==> Output(run, i).None?
    {
      var upTo := run[..i + 1];
      assert upTo[..|upTo| - 1] == run[..i] && upTo[|upTo| - 1] == run[i] && run[..|run|] == run;
      NotAllSeenInPrefix(run, n, i, |run|);
      NotAllSeenInPrefix(run, n, i + 1, |run|);
      OnePacketPrefix(run, n, parts, i);
      OnePacketPrefix(run, n, parts, i + 1);
      CollectingHolds(run[..i], n, parts);
      CollectOneMore(upTo, n, parts, After(run[..i]));
    }
    NothingDelivered(run, |run|);
    assert run[..|run|] == run;
  }

  /** What the assembler puts out for frames of one size is, over every run in time, what the
      rounds carry. */
  lemma {:induction false} DeliveriesAreRounds(run: seq<Arrival>, n: nat)
    requires OneSize(run, n)
    ensures Deliveries(run) == Rounds(run, n)
    decreases |run|
  {
    hide OneSize, OnePacket, AllSeen, Deliveries, After, FirstPayloads;
    OneSizeBounds(run, n);
    if !AllSeen(run, n) {
      NothingWhileIncomplete(run, n);
    } else {
      var m := Completion(run, n);
      var round, rest := run[..m + 1], run[m + 1..];
      OneSizePart(run, n, 0, m + 1);
      OneSizePart(run, n, m + 1, |run|);
      assert run[0..m + 1] == round && run[m + 1..|run|] == rest && round[..|round| - 1] == run[..m] && run == round + rest;
      FirstPayloadsMakeOnePacket(round, n);
      OneDelivery(round, FirstPayloads(round, n));
      DeliveriesConcat(round, rest);
      DeliveriesAreRounds(rest, n);
    }
  }

  lemma OneSizeBounds(run: seq<Arrival>, n: nat)
    requires OneSize(run, n)
    ensures n >= 2
  {
  }

  lemma OnePacketIsOneSize(run: seq<Arrival>, n: nat, parts: seq<seq<byte>>)
    requires OnePacket(run, n, parts)
    ensures OneSize(run, n)
  {
    hide TotalOf;
  }

  /** A packet is delivered once over the whole run, and not again, iff its frames do not all
      come once more after the one that completed it. */
  lemma PacketIsDeliveredOnceIff(run: seq<Arrival>, n: nat, parts: seq<seq<byte>>, m: nat)
    requires OnePacket(run, n, parts) && m < |run|
    requires !AllSeen(run[..m], n) && AllSeen(run[..m + 1], n)
    ensures Deliveries(run) == [Concat(parts)] <==> !AllSeen(run[m + 1..], n)
  {
    hide OneSize, OnePacket, AllSeen, Deliveries, After;
    var upTo, rest := run[..m + 1], run[m + 1..];
    OnePacketSize(run, n, parts);
    OnePacketPrefix(run, n, parts, m + 1);
    assert upTo[..|upTo| - 1] == run[..m] && run == upTo + rest;
    OneDelivery(upTo, parts);
    DeliveriesConcat(upTo, rest);
    OnePacketIsOneSize(run, n, parts);
    OneSizePart(run, n, m + 1, |run|);
    assert run[m + 1..|run|] == rest;
    DeliveriesAreRounds(rest, n);
  }

  // ---- Late repetitions ----

  /** A frame that arrives while a packet of the same size as the last is assembled: of the
      new packet, or a late repetition from the finished one. */
  datatype Mark = Mark(id: bv32, stale: bool, at: int)

  function Head(m: Mark): Packet {
    RawPacket.Packet(m.id, [])
  }

  predicate IsFrameOf(m: Mark, n: nat, k: nat) {
    TotalOf(Head(m)) == n && SeqOf(Head(m)) == k
  }

  /** The first frame numbered `k`. */
  function FirstOf(marks: seq<Mark>, n: nat, k: nat): (i: nat)
    ensures i <= |marks|
    ensures i < |marks| ==> IsFrameOf(marks[i], n, k)
    ensures forall j :: 0 <= j < i ==> !IsFrameOf(marks[j], n, k)
  {
    if marks == [] || IsFrameOf(marks[0], n, k) then 0 else 1 + FirstOf(marks[1..], n, k)
  }

  /** Frames of packets of `n` frames, in time, until one of each number has come. */
  ghost predicate IsSchedule(marks: seq<Mark>, n: nat) {
    && 2 <= n <= MAX_FRAMES && marks != []
    && (forall i :: 0 <= i < |marks| ==> TotalOf(Head(marks[i])) == n && SeqOf(Head(marks[i])) < n)
    && (forall i, j :: 0 <= i < |marks| && 0 <= j < |marks| ==> marks[j].at - marks[i].at <= ASSEMBLY_TIMEOUT)
    && (forall k :: 0 <= k < n ==> FirstOf(marks, n, k) < |marks|)
    && (exists k :: 0 <= k < n && FirstOf(marks, n, k) == |marks| - 1)
  }

  function Sent(m: Mark, last: seq<Part>, next: seq<Part>): Arrival
    requires |last| == |next| && SeqOf(Head(m)) < |next|
  {
    Arrival(RawPacket.Packet(m.id, (if m.stale then last else next)[SeqOf(Head(m))]), m.at)
  }

  function RunOf(marks: seq<Mark>, n: nat, last: seq<Part>, next: seq<Part>): (run: seq<Arrival>)
    requires |last| == |next| == n && forall i :: 0 <= i < |marks| ==> SeqOf(Head(marks[i])) < n
    ensures |run| == |marks|
  {
    seq(|marks|, i requires 0 <= i < |marks| => Sent(marks[i], last, next))
  }

  /** Which part of each number comes first. */
  function FirstParts(marks: seq<Mark>, n: nat, last: seq<Part>, next: seq<Part>): (parts: seq<seq<byte>>)
    requires |last| == |next| == n && forall k :: 0 <= k < n ==> FirstOf(marks, n, k) < |marks|
    ensures |parts| == n
  {
    seq(n, k requires 0 <= k < n => if marks[FirstOf(marks, n, k)].stale then last[k] else next[k])
  }

  predicate FreshComeFirst(marks: seq<Mark>, n: nat)
    requires forall k :: 0 <= k < n ==> FirstOf(marks, n, k) < |marks|
  {
    forall k :: 0 <= k < n ==> !marks[FirstOf(marks, n, k)].stale
  }

  lemma SentIsFrame(m: Mark, last: seq<Part>, next: seq<Part>, n: nat, k: nat)
    requires |last| == |next| && SeqOf(Head(m)) < |next|
    ensures IsPiece(Sent(m, last, next), n, k) <==> IsFrameOf(m, n, k)
    ensures TotalOf(Sent(m, last, next).packet) == TotalOf(Head(m)) && SeqOf(Sent(m, last, next).packet) == SeqOf(Head(m))
  {
    hide PacketTotal, PacketSeq;
  }

  lemma SeenIffFirst(marks: seq<Mark>, n: nat, last: seq<Part>, next: seq<Part>, i: nat, k: nat)
    requires IsSchedule(marks, n) && |last| == |next| == n && i <= |marks|
    ensures Seen(RunOf(marks, n, last, next)[..i], n, k) <==> FirstOf(marks, n, k) < i
  {
    hide TotalOf, SeqOf, IsPiece, IsFrameOf;
    var run, f := RunOf(marks, n, last, next), FirstOf(marks, n, k);
    if f < i {
      SentIsFrame(marks[f], last, next, n, k);
      assert run[..i][f] == run[f];
    }
    if Seen(run[..i], n, k) {
      var j :| 0 <= j < i && IsPiece(run[..i][j], n, k);
      SentIsFrame(marks[j], last, next, n, k);
    }
  }

  lemma ScheduleCompletes(marks: seq<Mark>, n: nat, last: seq<Part>, next: seq<Part>)
    requires IsSchedule(marks, n) && |last| == |next| == n
    ensures Completes(RunOf(marks, n, last, next), FirstParts(marks, n, last, next))
  {
    hide TotalOf, SeqOf, Seen;
    var run, parts := RunOf(marks, n, last, next), FirstParts(marks, n, last, next);
    forall i | 0 <= i < |run|
      ensures TotalOf(run[i].packet) == n && FirstIsGenuine(run, n, parts, i)
    {
      var k := SeqOf(Head(marks[i]));
      SentIsFrame(marks[i], last, next, n, k);
      SeenIffFirst(marks, n, last, next, i, k);
    }
    forall k | 0 <= k < n
      ensures Seen(run, n, k)
      ensures Seen(run[..|run| - 1], n, k) <==> FirstOf(marks, n, k) < |run| - 1
    {
      SeenIffFirst(marks, n, last, next, |run|, k);
      SeenIffFirst(marks, n, last, next, |run| - 1, k);
      assert run[..|run|] == run;
    }
  }

  /** What is put out is the first part of each number, stale or not. */
  lemma FirstPartsAreDelivered(before: seq<Arrival>, marks: seq<Mark>, n: nat, last: seq<Part>, next: seq<Part>)
    requires After(before) == Idle && IsSchedule(marks, n) && |last| == |next| == n
    ensures Deliveries(before + RunOf(marks, n, last, next)) == Deliveries(before) + [Concat(FirstParts(marks, n, last, next))]
  {
    hide After, Deliveries, TotalOf, SeqOf, IsFrameOf, RunOf, Completes, FirstParts;
    ScheduleCompletes(marks, n, last, next);
    OneDelivery(RunOf(marks, n, last, next), FirstParts(marks, n, last, next));
    DeliveriesConcat(before, RunOf(marks, n, last, next));
  }

  /** The next packet is put out whole. */
  predicate NextIsWhole(before: seq<Arrival>, marks: seq<Mark>, n: nat, last: seq<Part>, next: seq<Part>)
    requires |last| == |next| == n && forall i :: 0 <= i < |marks| ==> SeqOf(Head(marks[i])) < n
  {
    Deliveries(before + RunOf(marks, n, last, next)) == Deliveries(before) + [Concat(next)]
  }

  lemma WholeIfFresh(before: seq<Arrival>, marks: seq<Mark>, n: nat, last: seq<Part>, next: seq<Part>)
    requires After(before) == Idle && IsSchedule(marks, n) && |last| == |next| == n && FreshComeFirst(marks, n)
    ensures NextIsWhole(before, marks, n, last, next)
  {
    hide After, Deliveries, TotalOf, SeqOf, IsFrameOf, RunOf;
    FirstPartsAreDelivered(before, marks, n, last, next);
    assert FirstParts(marks, n, last, next) == next;
  }

  lemma SpoiledIfStale(before: seq<Arrival>, marks: seq<Mark>, n: nat, k: nat)
    requires After(before) == Idle && IsSchedule(marks, n) && k < n && marks[FirstOf(marks, n, k)].stale
    ensures !NextIsWhole(before, marks, n, seq(n, _ => [1]), seq(n, _ => [0]))
  {
    hide After, Deliveries, TotalOf, SeqOf, IsFrameOf, RunOf, Concat;
    var last: seq<Part>, next: seq<Part> := seq(n, _ => [1]), seq(n, _ => [0]);
    var parts := FirstParts(marks, n, last, next);
    FirstPartsAreDelivered(before, marks, n, last, next);
    ConcatOfBytes(parts, k);
    ConcatOfBytes(next, k);
    assert parts[k] == [1] && next[k] == [0];
    var delivered := Deliveries(before);
    assert (delivered + [Concat(parts)])[|delivered|] != (delivered + [Concat(next)])[|delivered|];
  }

  /** After any run that left nothing open, the next packet is put out whole, whatever it and
      the last one contain, iff no frame of the last is repeated before its counterpart has come. */
  lemma NextPacketIsWholeIff(before: seq<Arrival>, marks: seq<Mark>, n: nat)
    requires After(before) == Idle && IsSchedule(marks, n)
    ensures (forall last: seq<Part>, next: seq<Part> :: |last| == n && |next| == n ==> NextIsWhole(before, marks, n, last, next))
            <==> FreshComeFirst(marks, n)
  {
    hide After, NextIsWhole, TotalOf, SeqOf, IsFrameOf;
    if FreshComeFirst(marks, n) {
      forall last: seq<Part>, next: seq<Part> | |last| == n && |next| == n
        ensures NextIsWhole(before, marks, n, last, next)
      {
        WholeIfFresh(before, marks, n, last, next);
      }
    } else {
      var k :| 0 <= k < n && marks[FirstOf(marks, n, k)].stale;
      SpoiledIfStale(before, marks, n, k);
    }
  }

  lemma {:induction false} ConcatOfBytes(parts: seq<seq<byte>>, k: nat)
    requires k < |parts| && forall i :: 0 <= i < |parts| ==> |parts[i]| == 1
    ensures |Concat(parts)| > k && Concat(parts)[k] == parts[k][0]
  {
    if k > 0 {
      ConcatOfBytes(parts[1..], k - 1);
    }
  }

  // ---- Two runs of a packet of two frames ----

  predicate AreTwoFrames(x: Packet, y: Packet) {
    TotalOf(x) == 2 && TotalOf(y) == 2 && SeqOf(x) < 2 && SeqOf(y) == 1 - SeqOf(x)
  }

  lemma TwoFramesComplete(x: Packet, y: Packet, at: int)
    requires AreTwoFrames(x, y)
    ensures Completes([Arrival(x, at), Arrival(y, at)],
                      if SeqOf(x) == 0 then [x.payload, y.payload] else [y.payload, x.payload])
  {
    hide TotalOf, SeqOf;
    var run := [Arrival(x, at), Arrival(y, at)];
    assert IsPiece(run[0], 2, SeqOf(x)) && IsPiece(run[1], 2, SeqOf(y));
    assert run[..1] == [run[0]] && !IsPiece(run[0], 2, SeqOf(y));
    assert !Seen(run[..1], 2, SeqOf(y));
  }

  lemma TwoRuns(a: seq<Arrival>, b: seq<Arrival>, p: seq<seq<byte>>, q: seq<seq<byte>>)
    requires Completes(a, p) && Completes(b, q)
    ensures Deliveries(a + b) == [Concat(p), Concat(q)]
  {
    hide Completes, Deliveries;
    OneDelivery(a, p);
    OneDelivery(b, q);
    DeliveriesConcat(a, b);
  }

  lemma ConcatOfTwo(p: seq<byte>, q: seq<byte>)
    ensures Concat([p, q]) == p + q
  {
    ConcatAppend([p], [q]);
    assert [p] + [q] == [p, q];
    ConcatOfOne(p);
    ConcatOfOne(q);
  }

  lemma ConcatOfOne(p: seq<byte>)
    ensures Concat([p]) == p
  {
    assert [p][1..] == [] && p + [] == p;
  }

  /** Sent twice, a packet is put out twice. */
  lemma RepeatedPacketComesTwice(a0: Packet, a1: Packet, at: int)
    requires AreTwoFrames(a0, a1) && SeqOf(a0) == 0
    ensures Deliveries([Arrival(a0, at), Arrival(a1, at)] + [Arrival(a0, at), Arrival(a1, at)])
         == [a0.payload + a1.payload, a0.payload + a1.payload]
  {
    hide Completes, Deliveries, AreTwoFrames;
    TwoFramesComplete(a0, a1, at);
    TwoRuns([Arrival(a0, at), Arrival(a1, at)], [Arrival(a0, at), Arrival(a1, at)],
            [a0.payload, a1.payload], [a0.payload, a1.payload]);
    ConcatOfTwo(a0.payload, a1.payload);
  }

  /** One frame of a finished packet, repeated too late, is put out as part of the next. */
  lemma LateRepetitionSpoilsTheNext(a0: Packet, a1: Packet, b0: Packet, at: int)
    requires AreTwoFrames(a0, a1) && SeqOf(a0) == 0 && b0.id == a0.id
    ensures Deliveries([Arrival(a0, at), Arrival(a1, at)] + [Arrival(a1, at), Arrival(b0, at)])
         == [a0.payload + a1.payload, b0.payload + a1.payload]
  {
    hide Completes, Deliveries;
    TwoFramesComplete(a0, a1, at);
    TwoFramesComplete(a1, b0, at);
    TwoRuns([Arrival(a0, at), Arrival(a1, at)], [Arrival(a1, at), Arrival(b0, at)],
            [a0.payload, a1.payload], [b0.payload, a1.payload]);
    ConcatOfTwo(a0.payload, a1.payload);
    ConcatOfTwo(b0.payload, a1.payload);
  }
}
