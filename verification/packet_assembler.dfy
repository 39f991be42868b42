/** Assembly of multi-frame packets: frames arrive in any order into one buffer, a bit
    mask says which are there, and an offset table says where. */
module PacketAssembly {
  import opened Bytes
  import opened ByteValues
  import opened CanFrame

  const ASSEMBLY_TIMEOUT: int := 500_000_000      // nanoseconds
  const MAX_FRAMES: nat := 15                     // a packet's total has four bits
  const MASK_BITS: nat := 16

  // ---- The mask ----

  function Bit(i: nat): bv16
    requires i < MASK_BITS
  {
    1 << i
  }

  predicate Meets(a: bv16, b: bv16) {
    a & b != 0
  }

  function Merged(a: bv16, b: bv16): bv16 {
    a | b
  }

  predicate HasBit(mask: bv16, i: nat)
    requires i < MASK_BITS
  {
    Meets(mask, Bit(i))
  }

  function WithBit(mask: bv16, i: nat): bv16
    requires i < MASK_BITS
  {
    Merged(mask, Bit(i))
  }

  /** The mask of a packet of which every frame is there. */
  function FullMask(total: nat): bv16
    requires total < MASK_BITS
  {
    Bit(total) - 1
  }

  lemma BitValues()
    ensures Bit(0) == 0x1 && Bit(1) == 0x2 && Bit(2) == 0x4 && Bit(3) == 0x8
    ensures Bit(4) == 0x10 && Bit(5) == 0x20 && Bit(6) == 0x40 && Bit(7) == 0x80
    ensures Bit(8) == 0x100 && Bit(9) == 0x200 && Bit(10) == 0x400 && Bit(11) == 0x800
    ensures Bit(12) == 0x1000 && Bit(13) == 0x2000 && Bit(14) == 0x4000 && Bit(15) == 0x8000
  {
  }

  lemma EmptyMask(i: nat)
    requires i < MASK_BITS
    ensures !HasBit(0, i)
  {
    hide Bit;
  }

  lemma SixteenCases(i: nat)
    requires i < MASK_BITS
    ensures i == 0 || i == 1 || i == 2 || i == 3 || i == 4 || i == 5 || i == 6 || i == 7 ||
            i == 8 || i == 9 || i == 10 || i == 11 || i == 12 || i == 13 || i == 14 || i == 15
  {
  }

  lemma BitsAreDistinct(i: nat, j: nat)
    requires i < MASK_BITS && j < MASK_BITS
    ensures Meets(Bit(i), Bit(j)) <==> i == j
  {
    hide Bit;
    BitValues();
    SixteenCases(i);
    SixteenCases(j);
  }

  lemma OrThenAnd(mask: bv16, a: bv16, b: bv16)
    ensures (mask | a) & b != 0 <==> mask & b != 0 || a & b != 0
  {
  }

  lemma OrMeets(mask: bv16, a: bv16, b: bv16)
    ensures Meets(mask | a, b) <==> Meets(mask, b) || Meets(a, b)
  {
    OrThenAnd(mask, a, b);
  }

  lemma MergedMeets(mask: bv16, a: bv16, b: bv16)
    ensures Meets(Merged(mask, a), b) <==> Meets(mask, b) || Meets(a, b)
  {
    assert Merged(mask, a) == mask | a;
    hide Meets, Merged;
    OrMeets(mask, a, b);
  }

  lemma SetBit(mask: bv16, i: nat, j: nat)
    requires i < MASK_BITS && j < MASK_BITS
    ensures HasBit(WithBit(mask, i), j) <==> i == j || HasBit(mask, j)
  {
    hide Bit, Meets, Merged;
    BitsAreDistinct(i, j);
    MergedMeets(mask, Bit(i), Bit(j));
  }

  lemma FullMaskBits(total: nat, i: nat)
    requires total < MASK_BITS && i < MASK_BITS
    ensures HasBit(FullMask(total), i) <==> i < total
  {
    hide Bit;
    BitValues();
    SixteenCases(i);
    SixteenCases(total);
  }

  lemma MasksAgree(a: bv16, b: bv16)
    requires forall i :: 0 <= i < MASK_BITS ==> (HasBit(a, i) <==> HasBit(b, i))
    ensures a == b
  {
    hide Bit, HasBit, Meets;
    BitsOfMask(a);
    BitsOfMask(b);
    SameBits(a, b);
  }

  lemma BitsOfMask(m: bv16)
    ensures HasBit(m, 0) == Meets(m, 0x1) && HasBit(m, 1) == Meets(m, 0x2)
    ensures HasBit(m, 2) == Meets(m, 0x4) && HasBit(m, 3) == Meets(m, 0x8)
    ensures HasBit(m, 4) == Meets(m, 0x10) && HasBit(m, 5) == Meets(m, 0x20)
    ensures HasBit(m, 6) == Meets(m, 0x40) && HasBit(m, 7) == Meets(m, 0x80)
    ensures HasBit(m, 8) == Meets(m, 0x100) && HasBit(m, 9) == Meets(m, 0x200)
    ensures HasBit(m, 10) == Meets(m, 0x400) && HasBit(m, 11) == Meets(m, 0x800)
    ensures HasBit(m, 12) == Meets(m, 0x1000) && HasBit(m, 13) == Meets(m, 0x2000)
    ensures HasBit(m, 14) == Meets(m, 0x4000) && HasBit(m, 15) == Meets(m, 0x8000)
  {
    hide Bit, Meets;
    BitValues();
  }

  lemma SameBits(a: bv16, b: bv16)
    requires Meets(a, 0x1) == Meets(b, 0x1) && Meets(a, 0x2) == Meets(b, 0x2)
    requires Meets(a, 0x4) == Meets(b, 0x4) && Meets(a, 0x8) == Meets(b, 0x8)
    requires Meets(a, 0x10) == Meets(b, 0x10) && Meets(a, 0x20) == Meets(b, 0x20)
    requires Meets(a, 0x40) == Meets(b, 0x40) && Meets(a, 0x80) == Meets(b, 0x80)
    requires Meets(a, 0x100) == Meets(b, 0x100) && Meets(a, 0x200) == Meets(b, 0x200)
    requires Meets(a, 0x400) == Meets(b, 0x400) && Meets(a, 0x800) == Meets(b, 0x800)
    requires Meets(a, 0x1000) == Meets(b, 0x1000) && Meets(a, 0x2000) == Meets(b, 0x2000)
    requires Meets(a, 0x4000) == Meets(b, 0x4000) && Meets(a, 0x8000) == Meets(b, 0x8000)
    ensures a == b
  {
  }

  /** A mask is full iff every frame below the total, and none beyond, is in it. */
  lemma FullIffAllThere(mask: bv16, total: nat)
    requires total < MASK_BITS
    ensures mask == FullMask(total) <==>
            forall i :: 0 <= i < MASK_BITS ==> (HasBit(mask, i) <==> i < total)
  {
    hide HasBit, FullMask;
    forall i | 0 <= i < MASK_BITS
      ensures HasBit(FullMask(total), i) <==> i < total
    {
      FullMaskBits(total, i);
    }
    if forall i :: 0 <= i < MASK_BITS ==> (HasBit(mask, i) <==> i < total) {
      MasksAgree(mask, FullMask(total));
    }
  }

  /** How many of the first `n` frames are there. */
  function CountBits(mask: bv16, n: nat): (c: nat)
    requires n <= MASK_BITS
    ensures c <= n
  {
    if n == 0 then 0 else CountBits(mask, n - 1) + (if HasBit(mask, n - 1) then 1 else 0)
  }

  lemma {:induction false} CountSetBit(mask: bv16, i: nat, n: nat)
    requires i < MASK_BITS && n <= MASK_BITS && !HasBit(mask, i)
    ensures CountBits(WithBit(mask, i), n) == CountBits(mask, n) + (if i < n then 1 else 0)
  {
    hide HasBit, WithBit;
    if n > 0 {
      SetBit(mask, i, n - 1);
      CountSetBit(mask, i, n - 1);
    }
  }

  // ---- What the assembler does, seen from outside ----

  datatype Assembly = Idle | Assembling(total: nat, since: int, slots: map<nat, seq<byte>>)

  function TotalOf(p: Packet): (n: nat)
    ensures n <= MAX_FRAMES
  {
    PacketTotal(p.id) as int
  }

  function SeqOf(p: Packet): (n: nat)
    ensures n < MASK_BITS
  {
    PacketSeq(p.id) as int
  }

  function Expired(a: Assembly, now: int): Assembly {
    if a.Assembling? && now - a.since > ASSEMBLY_TIMEOUT then Idle else a
  }

  predicate Complete(slots: map<nat, seq<byte>>, total: nat) {
    forall i :: 0 <= i < total ==> i in slots
  }

  function FeedStep(a: Assembly, p: Packet, now: int): (Assembly, Option<seq<byte>>) {
    var current := Expired(a, now);
    var total, number := TotalOf(p), SeqOf(p);
    if total <= 1 then (current, Some(p.payload))
    else
      var open := if current.Assembling? && current.total == total then current
                  else Assembling(total, now, map[]);
      if number >= total || number in open.slots then (open, None)
      else
        var slots := open.slots[number := p.payload];
        if Complete(slots, total) then (Idle, Some(Join(slots, total)))
        else (open.(slots := slots), None)
  }

  // ---- The assembler ----

  /** The recorded pieces lie side by side in the buffer and leave no byte of it out. */
  ghost predicate Tiles(buffer: seq<byte>, offsets: seq<u16>, lens: seq<nat>, mask: bv16, total: nat)
    requires total < MASK_BITS && |offsets| == total && |lens| == total
  {
    && (forall i :: 0 <= i < total && HasBit(mask, i) ==> offsets[i] + lens[i] <= |buffer|)
    && (forall i, j :: 0 <= i < j < total && HasBit(mask, i) && HasBit(mask, j) ==>
          offsets[i] + lens[i] <= offsets[j] || offsets[j] + lens[j] <= offsets[i])
    && (forall k :: 0 <= k < |buffer| ==> Covered(offsets, lens, mask, total, k))
  }

  ghost predicate Covered(offsets: seq<u16>, lens: seq<nat>, mask: bv16, total: nat, k: nat)
    requires total < MASK_BITS && |offsets| == total && |lens| == total
  {
    exists i :: 0 <= i < total && HasBit(mask, i) && Covers(offsets, lens, i, k)
  }

  predicate Covers(offsets: seq<u16>, lens: seq<nat>, i: nat, k: nat)
    requires i < |offsets| && i < |lens|
  {
    offsets[i] <= k < offsets[i] + lens[i]
  }

  /** The recorded pieces by frame number. */
  ghost function Pieces(buffer: seq<byte>, offsets: seq<u16>, lens: seq<nat>, mask: bv16, total: nat): map<nat, seq<byte>>
    requires total < MASK_BITS && |offsets| == total && |lens| == total
    requires Tiles(buffer, offsets, lens, mask, total)
  {
    map i: nat | 0 <= i < total && HasBit(mask, i) :: buffer[offsets[i]..offsets[i] + lens[i]]
  }

  lemma TilesOneMore(buffer: seq<byte>, offsets: seq<u16>, lens: seq<nat>, mask: bv16, total: nat,
                     number: nat, data: seq<byte>)
    requires total < MASK_BITS && |offsets| == total && |lens| == total && |buffer| < 0x1_0000
    requires number < total && !HasBit(mask, number)
    requires Tiles(buffer, offsets, lens, mask, total)
    ensures var b, m := buffer + data, WithBit(mask, number);
            var o, l := offsets[number := |buffer|], lens[number := |data|];
            && Tiles(b, o, l, m, total)
            && (forall i :: 0 <= i < MASK_BITS ==> (HasBit(m, i) <==> i == number || HasBit(mask, i)))
  {
    hide HasBit, WithBit;
    var b, m := buffer + data, WithBit(mask, number);
    var o, l := offsets[number := |buffer|], lens[number := |data|];
    forall i | 0 <= i < MASK_BITS
      ensures HasBit(m, i) <==> i == number || HasBit(mask, i)
    {
      SetBit(mask, number, i);
    }
    forall k | 0 <= k < |b|
      ensures Covered(o, l, m, total, k)
    {
      if k < |buffer| {
        assert Covered(offsets, lens, mask, total, k);
        var i :| 0 <= i < total && HasBit(mask, i) && Covers(offsets, lens, i, k);
        assert Covers(o, l, i, k);
      } else {
        assert Covers(o, l, number, k);
      }
    }
  }

  lemma TilesFit(buffer: seq<byte>, offsets: seq<u16>, lens: seq<nat>, mask: bv16, total: nat)
    requires total < MASK_BITS && |offsets| == total && |lens| == total
    requires Tiles(buffer, offsets, lens, mask, total)
    ensures forall i :: 0 <= i < total && HasBit(mask, i) ==> offsets[i] + lens[i] <= |buffer|
  {
  }

  lemma PieceOneMore(buffer: seq<byte>, offsets: seq<u16>, lens: seq<nat>, number: nat, data: seq<byte>, i: nat)
    requires |offsets| == |lens| && number < |lens| && i < |lens| && |buffer| < 0x1_0000
    requires i != number ==> offsets[i] + lens[i] <= |buffer|
    ensures var b, o, l := buffer + data, offsets[number := |buffer|], lens[number := |data|];
            && o[i] + l[i] <= |b|
            && b[o[i]..o[i] + l[i]] == if i == number then data else buffer[offsets[i]..offsets[i] + lens[i]]
  {
  }

  lemma PiecesOneMore(buffer: seq<byte>, offsets: seq<u16>, lens: seq<nat>, mask: bv16, total: nat,
                      number: nat, data: seq<byte>)
    requires total < MASK_BITS && |offsets| == total && |lens| == total && |buffer| < 0x1_0000
    requires number < total && !HasBit(mask, number)
    requires Tiles(buffer, offsets, lens, mask, total)
    requires Tiles(buffer + data, offsets[number := |buffer|], lens[number := |data|], WithBit(mask, number), total)
    requires forall i :: 0 <= i < MASK_BITS ==> (HasBit(WithBit(mask, number), i) <==> i == number || HasBit(mask, i))
    requires forall i :: 0 <= i < total && HasBit(mask, i) ==> offsets[i] + lens[i] <= |buffer|
    ensures Pieces(buffer + data, offsets[number := |buffer|], lens[number := |data|], WithBit(mask, number), total)
         == Pieces(buffer, offsets, lens, mask, total)[number := data]
  {
    hide HasBit, WithBit, Tiles;
    var m, o, l := WithBit(mask, number), offsets[number := |buffer|], lens[number := |data|];
    var now, pieces := Pieces(buffer + data, o, l, m, total), Pieces(buffer, offsets, lens, mask, total)[number := data];
    assert now.Keys == pieces.Keys;
    forall i | i in now
      ensures now[i] == pieces[i]
    {
      PieceOneMore(buffer, offsets, lens, number, data, i);
    }
  }

  class PacketAssembler {
    var buffer: seq<byte>
    var offsets: seq<u16>
    var lens: seq<nat>
    var expectedTotal: nat
    var mask: bv16
    var firstFrameTime: int

    ghost predicate Valid()
      reads this
    {
      && (expectedTotal == 0 || 2 <= expectedTotal <= MAX_FRAMES)
      && |offsets| == expectedTotal && |lens| == expectedTotal
      && (forall i :: expectedTotal <= i < MASK_BITS ==> !HasBit(mask, i))
      && Tiles(buffer, offsets, lens, mask, expectedTotal)
      && |buffer| <= MAX_DATA * CountBits(mask, expectedTotal)
    }

    /** The buffer holds at most 15 full data fields, so 16-bit offsets lose nothing. */
    lemma BufferBound()
      requires Valid()
      ensures |buffer| <= 960
    {
    }

    ghost function Slots(): map<nat, seq<byte>>
      reads this
      requires Valid()
    {
      Pieces(buffer, offsets, lens, mask, expectedTotal)
    }

    ghost function View(): Assembly
      reads this
      requires Valid()
    {
      if expectedTotal == 0 then Idle else Assembling(expectedTotal, firstFrameTime, Slots())
    }

    constructor ()
      ensures Valid() && View() == Idle
    {
      buffer, offsets, lens, expectedTotal, mask, firstFrameTime := [], [], [], 0, 0, 0;
      new;
      forall i | 0 <= i < MASK_BITS ensures !HasBit(mask, i) { EmptyMask(i); }
    }

    method Reset()
      modifies this
      ensures Valid() && View() == Idle
    {
      buffer, offsets, lens, expectedTotal, mask, firstFrameTime := [], [], [], 0, 0, 0;
      forall i | 0 <= i < MASK_BITS ensures !HasBit(mask, i) { EmptyMask(i); }
    }

    method Begin(total: nat, now: int)
      requires 2 <= total <= MAX_FRAMES
      modifies this
      ensures Valid() && View() == Assembling(total, now, map[])
    {
      expectedTotal := total;
      offsets := seq(total, _ => 0);
      lens := seq(total, _ => 0);
      buffer := [];
      mask := 0;
      firstFrameTime := now;
      forall i | 0 <= i < MASK_BITS ensures !HasBit(mask, i) { EmptyMask(i); }
    }

    method Record(number: nat, data: seq<byte>)
      requires Valid() && number < expectedTotal && !HasBit(mask, number) && |data| <= MAX_DATA
      modifies `buffer, `offsets, `lens, `mask
      ensures Valid()
      ensures Slots() == old(Slots())[number := data]
    {
      hide HasBit, WithBit, Tiles, CountBits, Pieces;
      BitLeavesRoom(mask, number, expectedTotal);
      CountSetBit(mask, number, expectedTotal);
      TilesOneMore(buffer, offsets, lens, mask, expectedTotal, number, data);
      TilesFit(buffer, offsets, lens, mask, expectedTotal);
      PiecesOneMore(buffer, offsets, lens, mask, expectedTotal, number, data);
      offsets := offsets[number := |buffer| % 0x1_0000];
      lens := lens[number := |data|];
      buffer := buffer + data;
      mask := WithBit(mask, number);
    }

    lemma SlotIffBit(i: nat)
      requires Valid() && i < expectedTotal
      ensures i in Slots() <==> HasBit(mask, i)
    {
    }

    lemma FullIffComplete()
      requires Valid() && expectedTotal > 0
      ensures mask == FullMask(expectedTotal) <==> Complete(Slots(), expectedTotal)
    {
      hide HasBit, FullMask, Tiles;
      FullIffAllThere(mask, expectedTotal);
      forall i | 0 <= i < expectedTotal
        ensures i in Slots() <==> HasBit(mask, i)
      {
      }
      assert Complete(Slots(), expectedTotal) <==> forall i :: 0 <= i < expectedTotal ==> HasBit(mask, i);
    }

    /** With every frame there, the pieces are the parts to put out. */
    lemma PiecesOfFull()
      requires Valid() && mask == FullMask(expectedTotal)
      ensures forall i: nat :: i < expectedTotal ==>
        i in Slots() && offsets[i] + lens[i] <= |buffer| && Slots()[i] == buffer[offsets[i]..offsets[i] + lens[i]]
    {
      hide HasBit, FullMask, CountBits;
      FullIffAllThere(mask, expectedTotal);
    }

    /** Begins a packet if none is open, or begins again if one of another size is. */
    method OpenFor(total: nat, now: int)
      requires Valid() && 2 <= total <= MAX_FRAMES
      modifies this
      ensures Valid()
      ensures View() == if old(View()).Assembling? && old(View()).total == total then old(View())
                        else Assembling(total, now, map[])
    {
      hide HasBit, Tiles, CountBits;
      if expectedTotal == 0 {
        Begin(total, now);
      }
      if total != expectedTotal {
        Reset();
        Begin(total, now);
      }
    }

    /** Records a frame that is not there yet, and puts the packet out if it was the last. */
    method Take(number: nat, data: seq<byte>, outPayload: seq<byte>) returns (done: bool, payload: seq<byte>)
      requires Valid() && number < expectedTotal && !HasBit(mask, number) && |data| <= MAX_DATA
      modifies this
      ensures Valid()
      ensures var slots, total := old(Slots())[number := data], old(expectedTotal);
              && done == Complete(slots, total)
              && payload == (if done then Join(slots, total) else outPayload)
              && View() == if done then Idle else Assembling(total, old(firstFrameTime), slots)
    {
      hide HasBit, FullMask, Tiles, Pieces, CountBits, Complete, Join;
      payload := outPayload;
      Record(number, data);
      FullIffComplete();
      done := mask == FullMask(expectedTotal);
      if done {
        PiecesOfFull();
        payload := PutOut(buffer, offsets, lens, expectedTotal, Slots());
        Reset();
      }
    }

    method Feed(frame: Frame, now: int, outPayload: seq<byte>) returns (done: bool, payload: seq<byte>)
      requires Valid()
      modifies this
      ensures Valid()
      ensures (View(), if done then Some(payload) else None) == FeedStep(old(View()), PacketOf(frame), now)
      ensures !done ==> payload == outPayload
    {
      hide HasBit, FullMask, WithBit, Tiles, Pieces, CountBits, SeqOf, TotalOf, Complete, Join;
      payload := outPayload;
      var number, total := SeqOf(PacketOf(frame)), TotalOf(PacketOf(frame));

      if expectedTotal != 0 && now - firstFrameTime > ASSEMBLY_TIMEOUT {
        Reset();
      }
      if total <= 1 {
        return true, frame.Payload();
      }
      OpenFor(total, now);
      if number >= total {
        return false, payload;
      }
      SlotIffBit(number);
      if HasBit(mask, number) {
        return false, payload;
      }
      done, payload := Take(number, frame.Payload(), payload);
    }
  }

  /** The recorded pieces, in the order of their frame numbers. */
  method PutOut(buffer: seq<byte>, offsets: seq<u16>, lens: seq<nat>, total: nat, ghost slots: map<nat, seq<byte>>)
    returns (payload: seq<byte>)
    requires |offsets| == total && |lens| == total
    requires forall i: nat :: i < total ==>
      i in slots && offsets[i] + lens[i] <= |buffer| && slots[i] == buffer[offsets[i]..offsets[i] + lens[i]]
    ensures payload == Join(slots, total)
  {
    payload := [];
    for i := 0 to total
      invariant payload == Join(slots, i)
    {
      payload := payload + buffer[offsets[i]..offsets[i] + lens[i]];
    }
  }

  /** While one of `n` bits is missing, fewer than `n` are counted. */
  lemma {:induction false} BitLeavesRoom(mask: bv16, i: nat, n: nat)
    requires i < n <= MASK_BITS && !HasBit(mask, i)
    ensures CountBits(mask, n) < n
  {
    hide HasBit;
    if i < n - 1 {
      BitLeavesRoom(mask, i, n - 1);
    }
  }

  // ---- Runs ----

  datatype Arrival = Arrival(packet: Packet, at: int)

  /** The assembler after a run that began with nothing assembled. */
  function After(run: seq<Arrival>): Assembly {
    if run == [] then Idle
    else FeedStep(After(run[..|run| - 1]), run[|run| - 1].packet, run[|run| - 1].at).0
  }

  /** What arrival `i` of a run delivers. */
  function Output(run: seq<Arrival>, i: nat): Option<seq<byte>>
    requires i < |run|
  {
    FeedStep(After(run[..i]), run[i].packet, run[i].at).1
  }

  /** Completion, timeout and a packet of another size all leave an assembler that behaves
      like a new one. */
  lemma BehavesAsNew(a: Assembly, p: Packet, now: int)
    ensures TotalOf(p) > 1 && FeedStep(a, p, now).1.Some? ==> FeedStep(a, p, now).0 == Idle
    ensures a.Assembling? && now - a.since > ASSEMBLY_TIMEOUT ==> FeedStep(a, p, now) == FeedStep(Idle, p, now)
    ensures a.Assembling? && TotalOf(p) > 1 && TotalOf(p) != a.total ==> FeedStep(a, p, now) == FeedStep(Idle, p, now)
  {
  }

  predicate IsPiece(arrival: Arrival, n: nat, k: nat) {
    TotalOf(arrival.packet) == n && SeqOf(arrival.packet) == k
  }

  ghost predicate Seen(run: seq<Arrival>, n: nat, k: nat) {
    exists i :: 0 <= i < |run| && IsPiece(run[i], n, k)
  }

  ghost predicate AllSeen(run: seq<Arrival>, n: nat) {
    forall k :: 0 <= k < n ==> Seen(run, n, k)
  }

  /** One packet of `n` frames with the given parts, within the timeout, among single-frame
      packets. Frames may come in any order and repeat; what a repetition contains is free. */
  ghost predicate OnePacket(run: seq<Arrival>, n: nat, parts: seq<seq<byte>>) {
    && 2 <= n <= MAX_FRAMES && |parts| == n
    && (forall i :: 0 <= i < |run| ==> TotalOf(run[i].packet) <= 1 || TotalOf(run[i].packet) == n)
    && (forall i, j :: 0 <= i < |run| && 0 <= j < |run| ==> run[j].at - run[i].at <= ASSEMBLY_TIMEOUT)
    && (forall i :: 0 <= i < |run| ==> FirstIsGenuine(run, n, parts, i))
  }

  ghost predicate FirstIsGenuine(run: seq<Arrival>, n: nat, parts: seq<seq<byte>>, i: nat)
    requires i < |run| && |parts| == n
  {
    var k := SeqOf(run[i].packet);
    TotalOf(run[i].packet) == n && k < n ==> run[i].packet.payload == parts[k] || Seen(run[..i], n, k)
  }

  /** Until all frames are there, the assembler holds exactly the parts seen so far. */
  ghost predicate Collecting(run: seq<Arrival>, n: nat, parts: seq<seq<byte>>, a: Assembly)
    requires |parts| == n
  {
    match a
    case Idle => forall k :: 0 <= k < n ==> !Seen(run, n, k)
    case Assembling(total, since, slots) =>
      && total == n && (exists i :: 0 <= i < |run| && run[i].at == since)
      && (forall k: nat :: k in slots <==> k < n && Seen(run, n, k))
      && (forall k: nat :: k in slots ==> slots[k] == parts[k])
  }

  lemma SeenByOneMore(run: seq<Arrival>, n: nat, k: nat)
    requires run != []
    ensures Seen(run, n, k) <==> Seen(run[..|run| - 1], n, k) || IsPiece(run[|run| - 1], n, k)
  {
    var before := run[..|run| - 1];
    if Seen(before, n, k) {
      var i :| 0 <= i < |before| && IsPiece(before[i], n, k);
      assert IsPiece(run[i], n, k);
    }
    if Seen(run, n, k) && !IsPiece(run[|run| - 1], n, k) {
      var i :| 0 <= i < |run| && IsPiece(run[i], n, k);
      assert IsPiece(before[i], n, k);
    }
  }

  lemma OnePacketPrefix(run: seq<Arrival>, n: nat, parts: seq<seq<byte>>, m: nat)
    requires OnePacket(run, n, parts) && m <= |run|
    ensures OnePacket(run[..m], n, parts)
  {
    forall i | 0 <= i < m
      ensures FirstIsGenuine(run[..m], n, parts, i)
    {
      assert FirstIsGenuine(run, n, parts, i);
      assert run[..m][..i] == run[..i];
    }
  }

  /** The frames that count are all of one packet, so what is collected is never too old. */
  lemma CollectedInTime(run: seq<Arrival>, n: nat, parts: seq<seq<byte>>, a: Assembly)
    requires run != [] && OnePacket(run, n, parts) && Collecting(run[..|run| - 1], n, parts, a)
    ensures Expired(a, run[|run| - 1].at) == a
    ensures a.Assembling? ==> exists i :: 0 <= i < |run| && run[i].at == a.since
  {
    if a.Assembling? {
      var before := run[..|run| - 1];
      var i :| 0 <= i < |before| && before[i].at == a.since;
      assert run[i].at == a.since;
    }
  }

  /** The last arrival is a single-frame packet, a repetition, or numbered past the total. */
  ghost predicate NothingNew(run: seq<Arrival>, n: nat)
    requires run != []
  {
    var last := run[|run| - 1];
    TotalOf(last.packet) == n && SeqOf(last.packet) < n ==> Seen(run[..|run| - 1], n, SeqOf(last.packet))
  }

  lemma NothingNewSeen(run: seq<Arrival>, n: nat)
    requires run != [] && NothingNew(run, n)
    ensures forall k :: 0 <= k < n ==> (Seen(run, n, k) <==> Seen(run[..|run| - 1], n, k))
    ensures AllSeen(run, n) <==> AllSeen(run[..|run| - 1], n)
  {
    hide TotalOf, SeqOf, Seen;
    var before := run[..|run| - 1];
    forall k | 0 <= k < n
      ensures Seen(run, n, k) <==> Seen(before, n, k)
    {
      SeenByOneMore(run, n, k);
    }
  }

  lemma CollectNothingNew(run: seq<Arrival>, n: nat, parts: seq<seq<byte>>, a: Assembly)
    requires run != [] && OnePacket(run, n, parts) && Collecting(run[..|run| - 1], n, parts, a) && NothingNew(run, n)
    ensures var last := run[|run| - 1];
            var (next, out) := FeedStep(a, last.packet, last.at);
            && Collecting(run, n, parts, next)
            && out == if TotalOf(last.packet) <= 1 then Some(last.packet.payload) else None
  {
    CollectedInTime(run, n, parts, a);
    NothingNewSeen(run, n);
    hide TotalOf, SeqOf, Join, Seen, Complete;
    var last := run[|run| - 1];
    assert run[|run| - 1].at == last.at;
  }

  /** What is held with the last arrival recorded. */
  function WithLast(a: Assembly, last: Arrival): map<nat, seq<byte>> {
    (if a.Assembling? then a.slots else map[])[SeqOf(last.packet) := last.packet.payload]
  }

  lemma NewFrameStep(a: Assembly, last: Arrival, n: nat)
    requires Expired(a, last.at) == a && (a.Assembling? ==> a.total == n && SeqOf(last.packet) !in a.slots)
    requires TotalOf(last.packet) == n > 1 && SeqOf(last.packet) < n
    ensures var since := if a.Assembling? then a.since else last.at;
            FeedStep(a, last.packet, last.at) ==
            if Complete(WithLast(a, last), n) then (Idle, Some(Join(WithLast(a, last), n)))
            else (Assembling(n, since, WithLast(a, last)), None)
  {
    hide TotalOf, SeqOf, Join, Complete;
  }

  lemma HeldWithLast(run: seq<Arrival>, n: nat, parts: seq<seq<byte>>, a: Assembly)
    requires run != [] && OnePacket(run, n, parts) && Collecting(run[..|run| - 1], n, parts, a) && !NothingNew(run, n)
    ensures var more := WithLast(a, run[|run| - 1]);
            && (forall j: nat :: j in more <==> j < n && Seen(run, n, j))
            && (forall j: nat :: j in more ==> more[j] == parts[j])
  {
    hide TotalOf, SeqOf, Seen, IsPiece;
    forall j | 0 <= j < n
      ensures Seen(run, n, j) <==> Seen(run[..|run| - 1], n, j) || j == SeqOf(run[|run| - 1].packet)
    {
      SeenByOneMore(run, n, j);
      LastIsPiece(run, n, j);
    }
    assert FirstIsGenuine(run, n, parts, |run| - 1);
  }

  lemma CollectNew(run: seq<Arrival>, n: nat, parts: seq<seq<byte>>, a: Assembly)
    requires run != [] && OnePacket(run, n, parts) && Collecting(run[..|run| - 1], n, parts, a) && !NothingNew(run, n)
    ensures var last := run[|run| - 1];
            var (next, out) := FeedStep(a, last.packet, last.at);
            if AllSeen(run, n) then out == Some(Concat(parts)) && next == Idle
            else out == None && Collecting(run, n, parts, next)
  {
    CollectedInTime(run, n, parts, a);
    HeldWithLast(run, n, parts, a);
    OnePacketSize(run, n, parts);
    hide OnePacket, TotalOf, SeqOf, Join, Seen, Concat, FeedStep, WithLast;
    var last := run[|run| - 1];
    NewFrameStep(a, last, n);
    assert Complete(WithLast(a, last), n) <==> AllSeen(run, n);
    assert run[|run| - 1].at == last.at;
    if AllSeen(run, n) {
      JoinIsConcat(WithLast(a, last), parts);
    }
  }

  lemma LastIsPiece(run: seq<Arrival>, n: nat, k: nat)
    requires run != [] && TotalOf(run[|run| - 1].packet) == n
    ensures IsPiece(run[|run| - 1], n, k) <==> k == SeqOf(run[|run| - 1].packet)
  {
  }

  /** One more arrival: the state collected so far, and what the arrival delivers. */
  lemma CollectOneMore(run: seq<Arrival>, n: nat, parts: seq<seq<byte>>, a: Assembly)
    requires run != [] && OnePacket(run, n, parts) && Collecting(run[..|run| - 1], n, parts, a)
    ensures var last := run[|run| - 1];
            var (next, out) := FeedStep(a, last.packet, last.at);
            if TotalOf(last.packet) <= 1 then out == Some(last.packet.payload) && Collecting(run, n, parts, next)
            else if AllSeen(run, n) && !AllSeen(run[..|run| - 1], n) then out == Some(Concat(parts)) && next == Idle
            else out == None && Collecting(run, n, parts, next)
  {
    OnePacketSize(run, n, parts);
    hide FeedStep, Collecting, OnePacket, TotalOf, NothingNew, AllSeen;
    if NothingNew(run, n) {
      CollectNothingNew(run, n, parts, a);
      NothingNewSeen(run, n);
    } else {
      NewIsOfThePacket(run, n, parts);
      CollectNew(run, n, parts, a);
    }
  }

  lemma NewIsOfThePacket(run: seq<Arrival>, n: nat, parts: seq<seq<byte>>)
    requires run != [] && OnePacket(run, n, parts) && !NothingNew(run, n)
    ensures TotalOf(run[|run| - 1].packet) == n
    ensures !AllSeen(run[..|run| - 1], n)
  {
  }

  lemma {:induction false} CollectingHolds(run: seq<Arrival>, n: nat, parts: seq<seq<byte>>)
    requires OnePacket(run, n, parts) && !AllSeen(run, n)
    ensures Collecting(run, n, parts, After(run))
  {
    hide FeedStep, OnePacket, Collecting;
    OnePacketSize(run, n, parts);
    if run == [] {
      NothingCollected(n, parts);
    } else {
      var before := run[..|run| - 1];
      OnePacketPrefix(run, n, parts, |run| - 1);
      NotAllSeenBefore(run, n);
      CollectingHolds(before, n, parts);
      CollectOneMore(run, n, parts, After(before));
    }
  }

  lemma NothingCollected(n: nat, parts: seq<seq<byte>>)
    requires |parts| == n
    ensures Collecting([], n, parts, Idle)
  {
  }

  lemma NotAllSeenBefore(run: seq<Arrival>, n: nat)
    requires run != [] && !AllSeen(run, n)
    ensures !AllSeen(run[..|run| - 1], n)
  {
    var k :| 0 <= k < n && !Seen(run, n, k);
    SeenByOneMore(run, n, k);
  }

  /** A packet of 2 to 15 frames is delivered exactly once up to arrival `m`, and at `m`,
      where the last missing frame comes: its parts in order, whatever the order of the
      frames and whatever single-frame packets, which are delivered at once, came between. */
  lemma PacketIsDeliveredOnceComplete(run: seq<Arrival>, n: nat, parts: seq<seq<byte>>, m: nat)
    requires OnePacket(run, n, parts) && m < |run|
    requires !AllSeen(run[..m], n) && AllSeen(run[..m + 1], n)
    ensures Output(run, m) == Some(Concat(parts)) && After(run[..m + 1]) == Idle
    ensures forall i :: 0 <= i < m ==>
      Output(run, i) == if TotalOf(run[i].packet) <= 1 then Some(run[i].packet.payload) else None
  {
    hide FeedStep, OnePacket, Collecting, TotalOf;
    OnePacketSize(run, n, parts);
    forall i | 0 <= i <= m
      ensures !AllSeen(run[..i], n)
      ensures Collecting(run[..i], n, parts, After(run[..i]))
    {
      NotAllSeenInPrefix(run, n, i, m);
      OnePacketPrefix(run, n, parts, i);
      CollectingHolds(run[..i], n, parts);
    }
    forall i | 0 <= i <= m
      ensures var (next, out) := FeedStep(After(run[..i]), run[i].packet, run[i].at);
              if i < m then out == (if TotalOf(run[i].packet) <= 1 then Some(run[i].packet.payload) else None)
              else out == Some(Concat(parts)) && next == Idle
    {
      var upTo := run[..i + 1];
      assert upTo[..|upTo| - 1] == run[..i] && upTo[|upTo| - 1] == run[i];
      OnePacketPrefix(run, n, parts, i + 1);
      CollectOneMore(upTo, n, parts, After(run[..i]));
      if i == m && TotalOf(run[i].packet) <= 1 {
        SinglePacketCompletesNothing(upTo, n);
      }
    }
    assert run[..m + 1][..m] == run[..m];
  }

  lemma OnePacketSize(run: seq<Arrival>, n: nat, parts: seq<seq<byte>>)
    requires OnePacket(run, n, parts)
    ensures n >= 2 && |parts| == n
  {
  }

  lemma SeenGrows(run: seq<Arrival>, n: nat, i: nat, m: nat, k: nat)
    requires i <= m <= |run| && k < n && Seen(run[..i], n, k)
    ensures Seen(run[..m], n, k)
  {
    var j :| 0 <= j < i && IsPiece(run[..i][j], n, k);
    assert IsPiece(run[..m][j], n, k);
  }

  lemma NotAllSeenInPrefix(run: seq<Arrival>, n: nat, i: nat, m: nat)
    requires i <= m <= |run| && !AllSeen(run[..m], n)
    ensures !AllSeen(run[..i], n)
  {
    hide Seen;
    if AllSeen(run[..i], n) {
      forall k | 0 <= k < n
        ensures Seen(run[..m], n, k)
      {
        SeenGrows(run, n, i, m, k);
      }
    }
  }

  lemma SinglePacketCompletesNothing(run: seq<Arrival>, n: nat)
    requires run != [] && n >= 2 && TotalOf(run[|run| - 1].packet) <= 1
    ensures AllSeen(run, n) ==> AllSeen(run[..|run| - 1], n)
  {
    if AllSeen(run, n) {
      var before := run[..|run| - 1];
      forall k | 0 <= k < n
        ensures Seen(before, n, k)
      {
        assert Seen(run, n, k);
        SeenByOneMore(run, n, k);
      }
    }
  }

  // ---- Nothing is put out that did not come in ----

  ghost predicate Monotone(run: seq<Arrival>) {
    forall i, j :: 0 <= i < j < |run| ==> run[i].at <= run[j].at
  }

  /** Arrival `i` brought frame `k` of `total`, at or after `since`. */
  predicate Brought(run: seq<Arrival>, i: nat, total: nat, k: nat, bytes: seq<byte>, since: int) {
    i < |run| && IsPiece(run[i], total, k) && run[i].packet.payload == bytes && since <= run[i].at
  }

  /** Everything held in a slot is the payload of an arrival that belongs there. */
  ghost predicate Grounded(run: seq<Arrival>, a: Assembly) {
    a.Assembling? ==>
      && 2 <= a.total <= MAX_FRAMES
      && run != [] && a.since <= run[|run| - 1].at
      && (forall k: nat :: k in a.slots ==>
            k < a.total && exists i: nat :: Brought(run, i, a.total, k, a.slots[k], a.since))
  }

  lemma {:induction false} AlwaysGrounded(run: seq<Arrival>)
    requires Monotone(run)
    ensures Grounded(run, After(run))
  {
    if run != [] {
      var before, last := run[..|run| - 1], run[|run| - 1];
      AlwaysGrounded(before);
      GroundedStep(run, After(before));
    }
  }

  /** The parts a delivery puts out: the slots held before, and the frame just fed. */
  function PartsAt(a: Assembly, last: Arrival): map<nat, seq<byte>> {
    var current := Expired(a, last.at);
    var held := if current.Assembling? && current.total == TotalOf(last.packet) then current.slots else map[];
    held[SeqOf(last.packet) := last.packet.payload]
  }

  lemma GroundedStep(run: seq<Arrival>, a: Assembly)
    requires run != [] && Monotone(run) && Grounded(run[..|run| - 1], a)
    ensures var last := run[|run| - 1];
            Grounded(run, FeedStep(a, last.packet, last.at).0)
  {
    hide TotalOf, SeqOf, Join, Complete;
    var before, last := run[..|run| - 1], run[|run| - 1];
    var next := FeedStep(a, last.packet, last.at).0;
    TotalBound(last.packet);
    if next.Assembling? {
      forall k: nat | k in next.slots
        ensures k < next.total && exists i: nat :: Brought(run, i, next.total, k, next.slots[k], next.since)
      {
        if a.Assembling? && a.total == next.total && a.since == next.since && k in a.slots && next.slots[k] == a.slots[k] {
          var i: nat :| Brought(before, i, a.total, k, a.slots[k], a.since);
          assert Brought(run, i, next.total, k, next.slots[k], next.since);
        } else {
          assert Brought(run, |run| - 1, next.total, k, next.slots[k], next.since);
        }
      }
    }
  }

  lemma TotalBound(p: Packet)
    ensures TotalOf(p) <= MAX_FRAMES
  {
  }

  lemma DeliveryIsJoined(run: seq<Arrival>, m: nat)
    requires m < |run| && TotalOf(run[m].packet) > 1 && Output(run, m).Some?
    ensures var parts, total := PartsAt(After(run[..m]), run[m]), TotalOf(run[m].packet);
            Complete(parts, total) && Output(run, m) == Some(Join(parts, total))
  {
    hide TotalOf, SeqOf, Join, Complete;
  }

  /** The arrival that brought frame `k` of what arrival `m` delivers. */
  lemma BringerOf(run: seq<Arrival>, m: nat, k: nat) returns (i: nat)
    requires Monotone(run) && m < |run| && Grounded(run[..m], After(run[..m]))
    requires TotalOf(run[m].packet) > 1 && Output(run, m).Some? && k < TotalOf(run[m].packet)
    ensures i <= m && IsPiece(run[i], TotalOf(run[m].packet), k) && run[m].at - run[i].at <= ASSEMBLY_TIMEOUT
    ensures k in PartsAt(After(run[..m]), run[m]) && run[i].packet.payload == PartsAt(After(run[..m]), run[m])[k]
  {
    DeliveryIsJoined(run, m);
    hide TotalOf, SeqOf, Join, After, Output;
    var a, last := After(run[..m]), run[m];
    var parts := PartsAt(a, last);
    assert k in parts;
    if k == SeqOf(last.packet) {
      i := m;
    } else {
      i :| Brought(run[..m], i, TotalOf(last.packet), k, parts[k], a.since);
      assert run[..m][i] == run[i];
    }
  }

  /** Over every run with a monotone clock: what a multi-frame delivery puts out is, frame by
      frame, the payload of an arrival with that sequence number and that total, none of
      them more than the timeout older than the delivery. */
  lemma DeliveriesAreGrounded(run: seq<Arrival>, m: nat) returns (picks: seq<nat>)
    requires Monotone(run) && m < |run|
    requires TotalOf(run[m].packet) > 1 && Output(run, m).Some?
    ensures |picks| == TotalOf(run[m].packet)
    ensures forall k :: 0 <= k < |picks| ==>
      picks[k] <= m && IsPiece(run[picks[k]], |picks|, k) && run[m].at - run[picks[k]].at <= 500_000_000
    ensures Output(run, m) == Some(Concat(seq(|picks|, k requires 0 <= k < |picks| => run[picks[k]].packet.payload)))
  {
    hide TotalOf, SeqOf, Concat, Join, After, Output, PartsAt, Grounded;
    var a, last := After(run[..m]), run[m];
    var total := TotalOf(last.packet);
    AlwaysGrounded(run[..m]);
    DeliveryIsJoined(run, m);
    var parts := PartsAt(a, last);
    picks := [];
    while |picks| < total
      invariant |picks| <= total
      invariant forall k :: 0 <= k < |picks| ==>
        && picks[k] <= m && IsPiece(run[picks[k]], total, k)
        && run[m].at - run[picks[k]].at <= ASSEMBLY_TIMEOUT
        && run[picks[k]].packet.payload == parts[k]
    {
      var i := BringerOf(run, m, |picks|);
      picks := picks + [i];
    }
    JoinIsConcat(parts, seq(total, k requires 0 <= k < total => run[picks[k]].packet.payload));
  }
}
