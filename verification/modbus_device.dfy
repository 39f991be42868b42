/** A Modbus device as a sender of writes sees it: registers, and answers that may get lost. */
module ModbusDevice {
  import opened Bytes
  import opened ByteValues
  import opened CanFrame
  import opened ModbusReassembly
  import opened ModbusTransport
  import opened RegisterWrites

  // ---- Registers ----

  function Stored(file: map<int, u16>, addr: int, registers: seq<u16>): map<int, u16> {
    if registers == [] then file
    else Stored(file, addr, registers[..|registers| - 1])[addr + |registers| - 1 := registers[|registers| - 1]]
  }

  function StoredAll(file: map<int, u16>, writes: seq<Write>): map<int, u16>
    decreases |writes|
  {
    if writes == [] then file
    else StoredAll(Stored(file, writes[0].addr, writes[0].registers), writes[1..])
  }

  // ---- The device ----

  /** What becomes of a write: stored and acknowledged, refused, or stored without the sender
      ever hearing of it in time. */
  datatype Answer = Acknowledged | Refused | Unacknowledged

  /** A device: its holding registers by address, every write asked of it, and what becomes of
      the writes to come; one that has no answer left refuses. */
  datatype DeviceState = DeviceState(file: map<int, u16>, log: seq<Write>, answers: seq<Answer>) {
    predicate Accepts() {
      answers != [] && answers[0].Acknowledged?
    }

    predicate Stores() {
      answers != [] && !answers[0].Refused?
    }

    function After(w: Write): DeviceState {
      DeviceState(if Stores() then Stored(file, w.addr, w.registers) else file, log + [w],
                  if answers == [] then [] else answers[1..])
    }

    /** Writes performed one by one, up to the first that is not acknowledged. */
    function Run(writes: seq<Write>): (DeviceState, bool)
      decreases |writes|
    {
      if writes == [] then (this, true)
      else if !Accepts() then (After(writes[0]), false)
      else After(writes[0]).Run(writes[1..])
    }
  }

  lemma RunOne(s: DeviceState, w: Write, rest: seq<Write>)
    ensures s.Run([w] + rest) == if s.Accepts() then s.After(w).Run(rest) else (s.After(w), false)
  {
    assert ([w] + rest)[1..] == rest;
  }

  lemma RunNothing(s: DeviceState)
    ensures s.Run([]) == (s, true)
  {
  }

  class Device {
    var state: DeviceState

    const address: bv32

    constructor (address: bv32, answers: seq<Answer>)
      ensures this.address == address && state == DeviceState(map[], [], answers)
    {
      this.address, state := address, DeviceState(map[], [], answers);
    }

    method Perform(w: Write) returns (ok: bool)
      modifies this
      ensures ok == old(state).Accepts() && state == old(state).After(w)
    {
      ok := state.Accepts();
      state := state.After(w);
    }

    /** A request as it is put together from what came over CAN-FD. */
    method Request(funcCode: bv32, pdu: seq<byte>) returns (ok: bool)
      modifies this
      ensures DecodeWrite(funcCode, pdu).None? ==> !ok && state == old(state)
      ensures DecodeWrite(funcCode, pdu).Some? ==>
        ok == old(state).Accepts() && state == old(state).After(DecodeWrite(funcCode, pdu).value)
    {
      hide DecodeWrite;
      match DecodeWrite(funcCode, pdu)
      case None => ok := false;
      case Some(w) => ok := Perform(w);
    }

    /** What this device does about frames that come over the line. */
    method Hear(received: seq<Packet>)
      modifies this
      ensures state == match Heard(received, address)
                       case None => old(state)
                       case Some(w) => old(state).After(w)
    {
      hide DecodeWrite, DeviceState.After, DeviceState.Accepts;
      if received == [] || UnpackArbitration(received[0].id).dst != address {
        return;
      }
      var _ := Request(UnpackArbitration(received[0].id).funcCode, Join(Collect(received), SEGMENT_NUMBERS));
    }
  }

  // ---- Runs of writes ----

  /** How many of `n` writes are acknowledged before the first that is not. */
  function Accepted(answers: seq<Answer>, n: nat): (k: nat)
    ensures k <= n
  {
    if n == 0 || answers == [] || !answers[0].Acknowledged? then 0 else 1 + Accepted(answers[1..], n - 1)
  }

  lemma {:induction false} RunSucceedsIff(s: DeviceState, writes: seq<Write>)
    ensures s.Run(writes).1 <==> Accepted(s.answers, |writes|) == |writes|
    decreases |writes|
  {
    hide Stored;
    if writes != [] && s.Accepts() {
      RunSucceedsIff(s.After(writes[0]), writes[1..]);
    }
  }

  /** The writes asked for: those acknowledged, and the first that is not. */
  function Asked(answers: seq<Answer>, writes: seq<Write>): seq<Write> {
    var n := Accepted(answers, |writes|);
    if n == |writes| then writes else writes[..n + 1]
  }

  lemma AskedAfterOne(answers: seq<Answer>, w: Write, rest: seq<Write>)
    requires answers != [] && answers[0].Acknowledged?
    ensures Asked(answers, [w] + rest) == [w] + Asked(answers[1..], rest)
  {
  }

  lemma {:induction false} RunAsks(s: DeviceState, writes: seq<Write>)
    ensures s.Run(writes).0.log == s.log + Asked(s.answers, writes)
    decreases |writes|
  {
    hide Stored, Asked;
    if writes == [] {
      AskedOnce(s.answers, writes);
    } else {
      var w, rest := writes[0], writes[1..];
      assert writes == [w] + rest;
      if s.Accepts() {
        RunAsks(s.After(w), rest);
        AskedAfterOne(s.answers, w, rest);
        assert s.log + [w] + Asked(s.answers[1..], rest) == s.log + ([w] + Asked(s.answers[1..], rest));
      } else {
        AskedOnce(s.answers, writes);
      }
    }
  }

  lemma AskedOnce(answers: seq<Answer>, writes: seq<Write>)
    ensures writes != [] && (answers == [] || !answers[0].Acknowledged?) ==> Asked(answers, writes) == [writes[0]]
    ensures writes == [] ==> Asked(answers, writes) == []
  {
  }

  /** How many of them are stored: one more if the first that is not acknowledged was stored
      all the same. */
  function StoredCount(answers: seq<Answer>, n: nat): (k: nat)
    ensures Accepted(answers, n) <= k <= n
    ensures k <= Accepted(answers, n) + 1
  {
    if n == 0 || answers == [] then 0
    else
      match answers[0]
      case Acknowledged => 1 + StoredCount(answers[1..], n - 1)
      case Refused => 0
      case Unacknowledged => 1
  }

  lemma {:induction false} RunStores(s: DeviceState, writes: seq<Write>)
    ensures s.Run(writes).0.file == StoredAll(s.file, writes[..StoredCount(s.answers, |writes|)])
    decreases |writes|
  {
    hide Stored, StoredAll;
    StoreNone(s.file);
    if writes == [] || s.answers == [] || s.answers[0].Refused? {
      assert writes[..0] == [];
    } else {
      var n, w, rest := StoredCount(s.answers, |writes|), writes[0], writes[1..];
      assert writes[..n] == [w] + rest[..n - 1];
      StoreOne(s.file, w, rest[..n - 1]);
      if s.Accepts() {
        RunStores(s.After(w), rest);
      } else {
        assert rest[..0] == [];
        StoreNone(s.After(w).file);
      }
    }
  }

  /** A move succeeds iff the device acknowledges every write; otherwise it stops at the first
      that is not acknowledged. Stored are exactly the writes before that one, and that one
      too iff only its acknowledgement was lost. */
  lemma RunStopsAtTheFirstFailure(s: DeviceState, writes: seq<Write>)
    ensures var (after, ok) := s.Run(writes);
            var n := Accepted(s.answers, |writes|);
            && (ok <==> n == |writes|)
            && after.log == s.log + (if ok then writes else writes[..n + 1])
            && after.file == StoredAll(s.file, writes[..StoredCount(s.answers, |writes|)])
            && StoredCount(s.answers, |writes|) ==
               if n < |writes| && n < |s.answers| && s.answers[n].Unacknowledged? then n + 1 else n
  {
    hide StoredAll, DeviceState.Run, Accepted, StoredCount;
    RunSucceedsIff(s, writes);
    RunAsks(s, writes);
    RunStores(s, writes);
    StoredCountIs(s.answers, |writes|);
  }

  lemma {:induction false} StoredCountIs(answers: seq<Answer>, n: nat)
    ensures var k := Accepted(answers, n);
            StoredCount(answers, n) == if k < n && k < |answers| && answers[k].Unacknowledged? then k + 1 else k
  {
    if n > 0 && answers != [] && answers[0].Acknowledged? {
      StoredCountIs(answers[1..], n - 1);
    }
  }

  // ---- Runs over a line that may fail ----

  /** How many writes go out whole before one that does not. */
  function WritesOut(takes: nat -> bool, offered: nat, writes: seq<Write>): (n: nat)
    ensures n <= |writes|
    decreases |writes|
  {
    if writes == [] then 0
    else
      var count := FrameCount(|writes[0].registers|);
      if Taken(takes, offered, count) < count then 0 else 1 + WritesOut(takes, offered + count, writes[1..])
  }

  /** A run of writes over such a line: it is cut short where the line fails, as if the writes
      from there on had not been in it, and then it fails. */
  function RunOver(s: DeviceState, takes: nat -> bool, offered: nat, writes: seq<Write>): (DeviceState, bool) {
    var n := WritesOut(takes, offered, writes);
    (s.Run(writes[..n]).0, n == |writes| && s.Run(writes).1)
  }

  lemma RunOverOne(s: DeviceState, takes: nat -> bool, offered: nat, w: Write, rest: seq<Write>)
    ensures var count := FrameCount(|w.registers|);
            RunOver(s, takes, offered, [w] + rest) ==
            if Taken(takes, offered, count) < count then (s, false)
            else if s.Accepts() then RunOver(s.After(w), takes, offered + count, rest) else (s.After(w), false)
  {
    hide DeviceState.Run, DeviceState.Accepts, DeviceState.After, Taken, FrameCount;
    var count, writes := FrameCount(|w.registers|), [w] + rest;
    assert writes[0] == w && writes[1..] == rest;
    RunOne(s, w, rest);
    if Taken(takes, offered, count) < count {
      RunNothing(s);
      assert writes[..0] == [];
    } else {
      var n := WritesOut(takes, offered + count, rest);
      assert writes[..n + 1] == [w] + rest[..n];
      RunOne(s, w, rest[..n]);
    }
  }

  /** What such a run leaves: of the writes that go out whole, those up to the first that is not
      acknowledged are asked for, and stored as above; it succeeds iff that is all of them. */
  lemma RunOverStopsAtTheFirstFailure(s: DeviceState, takes: nat -> bool, offered: nat, writes: seq<Write>)
    ensures var (after, ok) := RunOver(s, takes, offered, writes);
            var n := WritesOut(takes, offered, writes);
            var k := Accepted(s.answers, n);
            && (ok <==> n == |writes| && k == n)
            && after.log == s.log + writes[..if k < n then k + 1 else n]
            && after.file == StoredAll(s.file, writes[..StoredCount(s.answers, n)])
  {
    hide StoredAll, DeviceState.Run, Accepted, StoredCount, WritesOut;
    var n := WritesOut(takes, offered, writes);
    RunStopsAtTheFirstFailure(s, writes[..n]);
    RunStopsAtTheFirstFailure(s, writes);
    assert forall k :: 0 <= k <= n ==> writes[..n][..k] == writes[..k];
    if n == |writes| {
      assert writes[..n] == writes;
    }
  }

  /** Writes of one frame each go out up to the first frame that does not. */
  lemma {:induction false} SmallWritesOut(takes: nat -> bool, offered: nat, writes: seq<Write>)
    requires forall w :: w in writes ==> 1 <= |w.registers| <= 29
    ensures WritesOut(takes, offered, writes) == Taken(takes, offered, |writes|)
    decreases |writes|
  {
    if writes != [] {
      assert writes[0] in writes;
      SmallWritesOut(takes, offered + 1, writes[1..]);
    }
  }

  lemma RunOverNothing(s: DeviceState, takes: nat -> bool, offered: nat)
    ensures RunOver(s, takes, offered, []) == (s, true)
  {
    RunNothing(s);
  }

  lemma StoreNone(file: map<int, u16>)
    ensures StoredAll(file, []) == file
  {
  }

  lemma StoreOne(file: map<int, u16>, w: Write, rest: seq<Write>)
    ensures StoredAll(file, [w] + rest) == StoredAll(Stored(file, w.addr, w.registers), rest)
  {
    assert ([w] + rest)[1..] == rest;
  }

  predicate SameAt(f: map<int, u16>, g: map<int, u16>, r: int) {
    (r in f <==> r in g) && (r in f ==> f[r] == g[r])
  }

  predicate HasBlock(file: map<int, u16>, addr: int, registers: seq<u16>) {
    forall i :: 0 <= i < |registers| ==> Holds(file, addr + i, registers[i])
  }

  predicate Holds(file: map<int, u16>, r: int, value: u16) {
    r in file && file[r] == value
  }

  lemma {:induction false} StoredBlock(file: map<int, u16>, addr: int, registers: seq<u16>)
    ensures HasBlock(Stored(file, addr, registers), addr, registers)
    ensures forall r :: !(addr <= r < addr + |registers|) ==> SameAt(Stored(file, addr, registers), file, r)
  {
    if registers != [] {
      var early, last := registers[..|registers| - 1], |registers| - 1;
      StoredBlock(file, addr, early);
      forall i | 0 <= i < |registers|
        ensures Holds(Stored(file, addr, registers), addr + i, registers[i])
      {
        assert i < last ==> early[i] == registers[i];
      }
      forall r | !(addr <= r < addr + |registers|)
        ensures SameAt(Stored(file, addr, registers), file, r)
      {
        assert SameAt(Stored(file, addr, early), file, r);
      }
    }
  }

  lemma BlockKept(after: map<int, u16>, next: map<int, u16>, addr: int, registers: seq<u16>)
    requires HasBlock(next, addr, registers)
    requires forall r :: addr <= r < addr + |registers| ==> SameAt(after, next, r)
    ensures HasBlock(after, addr, registers)
  {
    forall i | 0 <= i < |registers|
      ensures Holds(after, addr + i, registers[i])
    {
      assert Holds(next, addr + i, registers[i]) && SameAt(after, next, addr + i);
    }
  }
}
