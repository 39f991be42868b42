/** Joint commands as register writes, over either transport, and what they leave in the
    registers of the device. */
module JointMotion {
  import opened Bytes
  import opened CanfdLink
  import opened HandTypes
  import opened ProductConfiguration
  import opened ModbusCodec
  import opened ModbusDevice
  import opened RegisterWrites
  import opened ModbusTransport

  // ---- The writes of a move ----

  function ModeWord(mode: ControlMode): u16 {
    ModeNumber(mode) * 0x100
  }

  function ControlMap(config: ProductConfig): map<JointId, u16> {
    if config.jointControlRegisters == map[] then HOLDING_REGISTERS else config.jointControlRegisters
  }

  /** Over CAN-FD only the Lite1 uses the registers its configuration names. */
  function CanfdMap(config: ProductConfig): map<JointId, u16> {
    if config.productType == GHandLite1 then ControlMap(config) else HOLDING_REGISTERS
  }

  function ModeWrites(config: ProductConfig, mode: ControlMode): seq<Write> {
    if config.modeRegister >= 0 then [Write(config.modeRegister % 0x1_0000, [ModeWord(mode)])] else []
  }

  function JointRegisters(config: ProductConfig, mode: ControlMode, c: JointCommand): (r: seq<u16>)
    requires Encodable(c.angle)
    ensures |r| == Width(config)
  {
    (if config.productType == GHandLite1 then [ModeWord(mode)] else []) +
    [EncodeJointCommand(c).0, EncodeJointCommand(c).1]
  }

  function Width(config: ProductConfig): nat {
    if config.productType == GHandLite1 then 3 else 2
  }

  /** The angles of the joints that get registers can be encoded at all. */
  predicate Sendable(control: map<JointId, u16>, commands: seq<JointCommand>) {
    forall c :: c in commands && c.id in control ==> Encodable(c.angle)
  }

  function JointWrites(config: ProductConfig, mode: ControlMode, control: map<JointId, u16>,
                       commands: seq<JointCommand>): seq<Write>
    requires Sendable(control, commands)
  {
    if commands == [] then []
    else
      (if commands[0].id in control
       then [Write(control[commands[0].id], JointRegisters(config, mode, commands[0]))] else []) +
      JointWrites(config, mode, control, commands[1..])
  }

  lemma NextWrite(config: ProductConfig, mode: ControlMode, control: map<JointId, u16>,
                  commands: seq<JointCommand>, i: nat)
    requires i < |commands| && Sendable(control, commands[i..])
    ensures Sendable(control, commands[i + 1..])
    ensures var rest := JointWrites(config, mode, control, commands[i + 1..]);
            JointWrites(config, mode, control, commands[i..]) ==
            if commands[i].id in control
            then [Write(control[commands[i].id], JointRegisters(config, mode, commands[i]))] + rest else rest
  {
    assert commands[i..][0] == commands[i] && commands[i..][1..] == commands[i + 1..];
  }

  lemma NothingToWrite(config: ProductConfig, mode: ControlMode, control: map<JointId, u16>)
    ensures JointWrites(config, mode, control, []) == []
  {
  }

  function Writes(config: ProductConfig, mode: ControlMode, control: map<JointId, u16>,
                  commands: seq<JointCommand>): seq<Write>
    requires Sendable(control, commands)
  {
    ModeWrites(config, mode) + JointWrites(config, mode, control, commands)
  }

  // ---- The two transports ----

  class RS485Comm {
    const config: ProductConfig
    const device: Device
    var connected: bool

    constructor (config: ProductConfig, device: Device, connected: bool)
      ensures this.config == config && this.device == device && this.connected == connected
    {
      this.config, this.device, this.connected := config, device, connected;
    }

    method MoveJoints(joints: seq<JointCommand>, mode: ControlMode) returns (ok: bool)
      requires Sendable(ControlMap(config), joints)
      modifies device
      ensures !connected || joints == [] ==> !ok && device.state == old(device.state)
      ensures connected && joints != [] ==>
        (device.state, ok) == old(device.state).Run(Writes(config, mode, ControlMap(config), joints))
    {
      if !connected || joints == [] {
        return false;
      }
      hide DeviceState.Accepts, DeviceState.After, DeviceState.Run, EncodeJointCommand, ModeWord, ControlMap,
           JointWrites, JointRegisters;
      var control := ControlMap(config);
      ghost var writes := Writes(config, mode, control, joints);
      assert joints[0..] == joints && joints[|joints|..] == [];
      if config.modeRegister >= 0 {
        var modeWrite := Write(config.modeRegister % 0x1_0000, [ModeWord(mode)]);
        RunOne(device.state, modeWrite, JointWrites(config, mode, control, joints));
        ok := device.Perform(modeWrite);
        if !ok {
          return false;
        }
      } else {
        assert writes == JointWrites(config, mode, control, joints);
      }
      for i := 0 to |joints|
        invariant Sendable(control, joints[i..])
        invariant old(device.state).Run(writes) == device.state.Run(JointWrites(config, mode, control, joints[i..]))
      {
        NextWrite(config, mode, control, joints, i);
        if joints[i].id !in control { continue; }
        ghost var rest := JointWrites(config, mode, control, joints[i + 1..]);
        RunOne(device.state, Write(control[joints[i].id], JointRegisters(config, mode, joints[i])), rest);
        ok := WriteJoint(control[joints[i].id], joints[i], mode);
        if !ok {
          return false;
        }
      }
      NothingToWrite(config, mode, control);
      RunNothing(device.state);
      return true;
    }

    /** The loop body of MoveJoints: one joint's registers in one request. */
    method WriteJoint(addr: u16, joint: JointCommand, mode: ControlMode) returns (ok: bool)
      requires Encodable(joint.angle)
      modifies device
      ensures ok == old(device.state).Accepts()
      ensures device.state == old(device.state).After(Write(addr, JointRegisters(config, mode, joint)))
    {
      hide EncodeJointCommand;
      var data: seq<u16> := [];
      if config.productType == GHandLite1 {
        data := data + [ModeWord(mode)];
      }
      var (r0, r1) := EncodeJointCommand(joint);
      data := data + [r0];
      data := data + [r1];
      assert data == JointRegisters(config, mode, joint);
      ok := device.Perform(Write(addr, data));
    }
  }

  /** The default waits of WriteSingleRegister and WriteRegisters. */
  const SINGLE_TIMEOUT_MS: int := 500
  const WRITE_TIMEOUT_MS: int := 5000

  class CANFDComm {
    const config: ProductConfig
    const device: Device
    const transport: CanfdComm
    const canIndex: bv8
    const background: (nat, Peer) -> seq<Turn>      // what else comes during the wait of each write
    const delay: (nat, Peer) -> int                 // when in it the device answers, if it does
    var connected: bool

    constructor (config: ProductConfig, device: Device, transport: CanfdComm, canIndex: bv8,
                 background: (nat, Peer) -> seq<Turn>, delay: (nat, Peer) -> int, connected: bool)
      ensures this.config == config && this.device == device && this.transport == transport
      ensures this.canIndex == canIndex && this.background == background && this.delay == delay
      ensures this.connected == connected
    {
      this.config, this.device, this.transport := config, device, transport;
      this.canIndex, this.background, this.delay, this.connected := canIndex, background, delay, connected;
    }

    /** The background is no answer of the device, and the device answers in time or not at all. */
    ghost predicate Valid() {
      forall i, peer :: IsBackground(peer, background(i, peer)) && delay(i, peer) < peer.timeoutMs
    }

    /** The addresses fit an arbitration id. */
    predicate AddressesFit()
      reads transport
    {
      transport.srcId <= 0x3F && transport.slaveId <= 0x3F
    }

    /** The line leads to this device. */
    predicate Reaches()
      reads transport, device
    {
      AddressesFit() && transport.slaveId == device.address
    }

    method MoveJoints(joints: seq<JointCommand>, mode: ControlMode) returns (ok: bool)
      requires Valid() && Sendable(CanfdMap(config), joints)
      modifies device, transport`sent, transport`offered, transport`turns
      ensures !connected || joints == [] ==> !ok && device.state == old(device.state)
      ensures connected && joints != [] && Reaches() ==>
        (device.state, ok) == RunOver(old(device.state), transport.takes, old(transport.offered),
                                      Writes(config, mode, CanfdMap(config), joints))
      ensures connected && joints != [] && !Reaches() ==>
        ok == (Writes(config, mode, CanfdMap(config), joints) == [])
      ensures AddressesFit() && !Reaches() ==> device.state == old(device.state)
      ensures !transport.takes(old(transport.offered)) ==> device.state == old(device.state)
    {
      if !connected || joints == [] {
        return false;
      }
      hide DeviceState.Accepts, DeviceState.After, EncodeJointCommand, ModeWord, ControlMap, JointWrites,
           HOLDING_REGISTERS, Valid, RunOver, Taken;
      ghost var writes := Writes(config, mode, CanfdMap(config), joints);
      if config.modeRegister >= 0 {
        ghost var modeWrite := Write(config.modeRegister % 0x1_0000, [ModeWord(mode)]);
        RunOverOne(device.state, transport.takes, transport.offered, modeWrite,
                   JointWrites(config, mode, CanfdMap(config), joints));
        ok := WriteRegisters(config.modeRegister, [ModeWord(mode)], SINGLE_TIMEOUT_MS);
        if !ok {
          return false;
        }
      } else {
        assert writes == JointWrites(config, mode, CanfdMap(config), joints);
      }
      if config.productType == GHandLite1 {
        ok := WriteEach(ControlMap(config), joints, mode);
      } else {
        ok := WriteEach(HOLDING_REGISTERS, joints, mode);
      }
    }

    /** Either loop of MoveJoints. */
    method WriteEach(control: map<JointId, u16>, joints: seq<JointCommand>, mode: ControlMode) returns (ok: bool)
      requires Valid() && Sendable(control, joints)
      modifies device, transport`sent, transport`offered, transport`turns
      ensures Reaches() ==>
        (device.state, ok) == RunOver(old(device.state), transport.takes, old(transport.offered),
                                      JointWrites(config, mode, control, joints))
      ensures !Reaches() ==> ok == (JointWrites(config, mode, control, joints) == [])
      ensures AddressesFit() && !Reaches() ==> device.state == old(device.state)
      ensures !transport.takes(old(transport.offered)) ==> device.state == old(device.state)
    {
      hide DeviceState.Accepts, DeviceState.After, JointWrites, JointRegisters, Valid, RunOver, Taken;
      assert joints[0..] == joints && joints[|joints|..] == [];
      for i := 0 to |joints|
        invariant Sendable(control, joints[i..])
        invariant Reaches() ==>
          RunOver(old(device.state), transport.takes, old(transport.offered), JointWrites(config, mode, control, joints)) ==
          RunOver(device.state, transport.takes, transport.offered, JointWrites(config, mode, control, joints[i..]))
        invariant !Reaches() ==> JointWrites(config, mode, control, joints) == JointWrites(config, mode, control, joints[i..])
        invariant AddressesFit() && !Reaches() ==> device.state == old(device.state)
        invariant !transport.takes(old(transport.offered)) ==>
          device.state == old(device.state) && transport.offered == old(transport.offered)
      {
        NextWrite(config, mode, control, joints, i);
        if joints[i].id !in control { continue; }
        RunOverOne(device.state, transport.takes, transport.offered,
                   Write(control[joints[i].id], JointRegisters(config, mode, joints[i])),
                   JointWrites(config, mode, control, joints[i + 1..]));
        ok := WriteJoint(control[joints[i].id], joints[i], mode);
        if !ok {
          return false;
        }
      }
      NothingToWrite(config, mode, control);
      RunOverNothing(device.state, transport.takes, transport.offered);
      return true;
    }

    method WriteJoint(addr: u16, joint: JointCommand, mode: ControlMode) returns (ok: bool)
      requires Valid() && Encodable(joint.angle)
      modifies device, transport`sent, transport`offered, transport`turns
      ensures var registers := JointRegisters(config, mode, joint);
              Written(old(transport.offered), old(device.state), Write(addr, registers), ok)
    {
      hide EncodeJointCommand, Valid, Written;
      var registers: seq<u16> := [];
      if config.productType == GHandLite1 {
        registers := registers + [ModeWord(mode)];
      }
      var (r0, r1) := EncodeJointCommand(joint);
      registers := registers + [r0];
      registers := registers + [r1];
      assert registers == JointRegisters(config, mode, joint);
      ok := WriteRegisters(addr, registers, WRITE_TIMEOUT_MS);
    }

    /** What a write has come to: done by the device it is for iff all its frames went out, and
        reported as the device answers; a request that breaks off, or one that is for another
        device, changes nothing here. */
    predicate Written(offered: nat, state: DeviceState, w: Write, ok: bool)
      reads this, transport, device
    {
      var count := FrameCount(|w.registers|);
      && (ok ==> Reaches() && transport.offered == offered + count)
      && (Reaches() ==>
            (device.state, ok) == if Taken(transport.takes, offered, count) < count then (state, false)
                                  else (state.After(w), state.Accepts()))
      && (AddressesFit() && !Reaches() ==> device.state == state)
      && (!transport.takes(offered) ==> device.state == state && !ok)
    }

    /** RegistersToBytes and a request over the transport, with the device at the other end:
        it hears the frames that went out, and the line brings what it answers. */
    method WriteRegisters(addr: int, registers: seq<u16>, timeoutMs: int) returns (ok: bool)
      requires Valid() && 1 <= |registers| <= MAX_WRITE
      modifies device, transport`sent, transport`offered, transport`turns
      ensures Written(old(transport.offered), old(device.state), Write(addr % 0x1_0000, registers), ok)
    {
      hide RegisterBytes, Segments, AwaitEcho, Received, Heard, TurnsOfWait, IsBackground, WriteFunction, WritePdu,
           DeviceState.After, Taken, FrameCount;
      var bytes := RegistersToBytes(registers);
      var pdu, funcCode := WritePdu(addr, bytes), WriteFunction(bytes);
      var peer := Peer(transport.srcId, transport.slaveId, funcCode, timeoutMs);
      var others, at := background(|device.state.log|, peer), delay(|device.state.log|, peer);
      transport.turns := TurnsOfWait(Reaches(), peer, pdu[..4], device.state.answers, others, at);
      ghost var answers := device.state.answers;
      var before := |transport.sent|;
      ok := transport.WriteRegisters(addr, bytes, timeoutMs);
      var frames := transport.sent[before..];
      device.Hear(Received(frames, canIndex));
      ghost var k := Taken(transport.takes, old(transport.offered), FrameCount(|registers|));
      FramesOfAWrite(transport.srcId, transport.slaveId, addr, registers);
      assert frames == Segments(transport.srcId, transport.slaveId, 0, funcCode, pdu)[..k];
      WhatIsHeard(peer, device.address, addr, registers, canIndex, k);
      if Reaches() {
        ReachedDeviceAnswers(peer, addr, registers, answers, others, at);
      } else {
        UnreachedDeviceIsSilent(peer, pdu[..4], answers, others, at);
      }
    }
  }

  /** Every write of a move is one frame, so a line that fails cuts the move at the first frame
      that does not go out. */
  lemma MovesAreSingleFrames(config: ProductConfig, mode: ControlMode, control: map<JointId, u16>,
                             commands: seq<JointCommand>, takes: nat -> bool, offered: nat)
    requires Sendable(control, commands)
    ensures var writes := Writes(config, mode, control, commands);
            WritesOut(takes, offered, writes) == Taken(takes, offered, |writes|)
  {
    hide WritesOut, Taken, JointRegisters;
    JointWritesAreSmall(config, mode, control, commands);
    SmallWritesOut(takes, offered, Writes(config, mode, control, commands));
  }

  lemma {:induction false} JointWritesAreSmall(config: ProductConfig, mode: ControlMode, control: map<JointId, u16>,
                                               commands: seq<JointCommand>)
    requires Sendable(control, commands)
    ensures forall w :: w in JointWrites(config, mode, control, commands) ==> 1 <= |w.registers| <= 3
    decreases |commands|
  {
    hide JointRegisters;
    if commands != [] {
      JointWritesAreSmall(config, mode, control, commands[1..]);
    }
  }

  // ---- Which configurations are moved alike ----

  /** Over either transport every command list makes the same writes. */
  ghost predicate MovedAlike(config: ProductConfig) {
    forall mode, commands :: Sendable(ControlMap(config), commands) && Sendable(CanfdMap(config), commands) ==>
      Writes(config, mode, ControlMap(config), commands) == Writes(config, mode, CanfdMap(config), commands)
  }

  /** That holds iff the product is a Lite1 or its configuration names the standard control
      registers (or none): CAN-FD ignores any others. */
  lemma MovedAlikeIff(config: ProductConfig)
    ensures MovedAlike(config) <==>
            (config.productType == GHandLite1 || config.jointControlRegisters == map[] ||
             config.jointControlRegisters == HOLDING_REGISTERS)
  {
    hide HOLDING_REGISTERS, Writes;
    var own, other := ControlMap(config), CanfdMap(config);
    if own != other {
      var id: JointId :| (id in own) != (id in other) || (id in own && own[id] != other[id]);
      var commands := [JointCommand(id, 0.0, 0, 0)];
      DifferentWrites(config, own, other, commands[0]);
      assert Sendable(own, commands) && Sendable(other, commands);
    }
  }

  lemma DifferentWrites(config: ProductConfig, own: map<JointId, u16>, other: map<JointId, u16>, c: JointCommand)
    requires Encodable(c.angle)
    requires (c.id in own) != (c.id in other) || (c.id in own && own[c.id] != other[c.id])
    ensures Writes(config, POSITION, own, [c]) != Writes(config, POSITION, other, [c])
  {
    OneCommand(config, POSITION, own, c);
    OneCommand(config, POSITION, other, c);
    var a, b := JointWrites(config, POSITION, own, [c]), JointWrites(config, POSITION, other, [c]);
    assert a != b;
    if ModeWrites(config, POSITION) + a == ModeWrites(config, POSITION) + b {
      SameTail(ModeWrites(config, POSITION), a, b);
    }
  }

  lemma OneCommand(config: ProductConfig, mode: ControlMode, control: map<JointId, u16>, c: JointCommand)
    requires Encodable(c.angle)
    ensures JointWrites(config, mode, control, [c]) ==
            if c.id in control then [Write(control[c.id], JointRegisters(config, mode, c))] else []
  {
    assert [c][1..] == [];
  }

  lemma SameTail<T>(a: seq<T>, b: seq<T>, c: seq<T>)
    requires a + b == a + c
    ensures b == c
  {
    assert b == (a + b)[|a|..] && c == (a + c)[|a|..];
  }

  // ---- What a move leaves in the registers ----

  /** No two joints share a register, nor does a joint with the mode. */
  ghost predicate Separate(config: ProductConfig, control: map<JointId, u16>) {
    && (forall a, b :: a in control && b in control && a != b ==>
          control[a] + Width(config) <= control[b] || control[b] + Width(config) <= control[a])
    && (config.modeRegister >= 0 ==> forall a :: a in control ==>
          !(control[a] <= config.modeRegister % 0x1_0000 < control[a] + Width(config)))
  }

  predicate InBlock(config: ProductConfig, control: map<JointId, u16>, id: JointId, r: int)
    requires id in control
  {
    control[id] <= r < control[id] + Width(config)
  }

  ghost predicate Commanded(config: ProductConfig, control: map<JointId, u16>, commands: seq<JointCommand>, r: int) {
    exists id :: id in control && LastFor(commands, id).Some? && InBlock(config, control, id, r)
  }

  lemma {:induction false} JointWritesEffect(file: map<int, u16>, config: ProductConfig, mode: ControlMode,
                                             control: map<JointId, u16>, commands: seq<JointCommand>)
    requires Sendable(control, commands) && Separate(config, control)
    ensures var after := StoredAll(file, JointWrites(config, mode, control, commands));
            && (forall id :: id in control && LastFor(commands, id).Some? ==>
                  HasBlock(after, control[id], JointRegisters(config, mode, LastFor(commands, id).value)))
            && (forall r :: !Commanded(config, control, commands, r) ==> SameAt(after, file, r))
    decreases |commands|
  {
    hide Stored, EncodeJointCommand, ModeWord, Width, JointRegisters, HasBlock;
    if commands != [] {
      var first, rest := commands[0], commands[1..];
      var after := StoredAll(file, JointWrites(config, mode, control, commands));
      if first.id !in control {
        JointWritesEffect(file, config, mode, control, rest);
        assert JointWrites(config, mode, control, commands) == JointWrites(config, mode, control, rest);
      } else {
        var registers := JointRegisters(config, mode, first);
        var next := Stored(file, control[first.id], registers);
        StoredBlock(file, control[first.id], registers);
        JointWritesEffect(next, config, mode, control, rest);
        assert after == StoredAll(next, JointWrites(config, mode, control, rest)) by {
          StoreOne(file, Write(control[first.id], registers), JointWrites(config, mode, control, rest));
        }
        if LastFor(rest, first.id).None? {
          forall r | control[first.id] <= r < control[first.id] + |registers|
            ensures SameAt(after, next, r)
          {
            assert InBlock(config, control, first.id, r);
            assert !Commanded(config, control, rest, r);
          }
          BlockKept(after, next, control[first.id], registers);
        }
        assert LastFor(commands, first.id).Some?;
        forall r | !Commanded(config, control, commands, r)
          ensures SameAt(after, file, r)
        {
          assert !InBlock(config, control, first.id, r);
          assert SameAt(next, file, r);
          assert !Commanded(config, control, rest, r);
        }
      }
    }
  }

  /** After a move that the device accepted: every commanded joint's registers convey its
      last command, the mode is set, and every other register is as it was. */
  lemma MoveSetsTheCommandedRegistersOnly(s: DeviceState, config: ProductConfig, mode: ControlMode,
                                          control: map<JointId, u16>, commands: seq<JointCommand>)
    requires Sendable(control, commands) && Separate(config, control)
    requires s.Run(Writes(config, mode, control, commands)).1
    ensures var file := s.Run(Writes(config, mode, control, commands)).0.file;
            && (forall id :: id in control && LastFor(commands, id).Some? ==>
                  ShowsCommand(file, config, mode, control[id], LastFor(commands, id).value))
            && (config.modeRegister >= 0 ==> ShowsMode(file, config.modeRegister % 0x1_0000, mode))
            && (forall r :: !Commanded(config, control, commands, r) && !IsModeRegister(config, r) ==> SameAt(file, s.file, r))
  {
    hide Stored, StoredAll, EncodeJointCommand, ModeWord, JointRegisters, HasBlock, Accepted, DeviceState.Run,
         Commanded, ShowsCommand, ShowsMode, JointWrites;
    var writes := Writes(config, mode, control, commands);
    RunStopsAtTheFirstFailure(s, writes);
    assert writes[..|writes|] == writes;
    var moded := if config.modeRegister >= 0 then Stored(s.file, config.modeRegister % 0x1_0000, [ModeWord(mode)]) else s.file;
    assert s.Run(writes).0.file == StoredAll(moded, JointWrites(config, mode, control, commands)) by {
      ModeComesFirst(s.file, config, mode, JointWrites(config, mode, control, commands));
    }
    JointWritesEffect(moded, config, mode, control, commands);
    if config.modeRegister >= 0 {
      ModeEffect(s.file, config, mode, control, commands);
      ModeWordShows(s.Run(writes).0.file, config.modeRegister % 0x1_0000, mode);
    }
    forall id | id in control && LastFor(commands, id).Some?
      ensures ShowsCommand(s.Run(writes).0.file, config, mode, control[id], LastFor(commands, id).value)
    {
      BlockShowsCommand(s.Run(writes).0.file, config, mode, control[id], LastFor(commands, id).value);
    }
    forall r | !Commanded(config, control, commands, r) && !IsModeRegister(config, r)
      ensures SameAt(s.Run(writes).0.file, s.file, r)
    {
      assert SameAt(s.Run(writes).0.file, moded, r) && SameAt(moded, s.file, r);
    }
  }

  predicate IsModeRegister(config: ProductConfig, r: int) {
    config.modeRegister >= 0 && r == config.modeRegister % 0x1_0000
  }

  /** A joint's block: the mode if the product keeps it there, then the command. */
  predicate ShowsCommand(file: map<int, u16>, config: ProductConfig, mode: ControlMode, addr: int, c: JointCommand) {
    var first := addr + Width(config) - 2;
    && first in file && first + 1 in file && Conveys(file[first], file[first + 1], c)
    && (config.productType == GHandLite1 ==> ShowsMode(file, addr, mode))
  }

  /** The mode's number in the high byte. */
  predicate ShowsMode(file: map<int, u16>, r: int, mode: ControlMode) {
    r in file && IsModeNumber(mode, file[r] / 0x100) && file[r] % 0x100 == 0
  }

  lemma ModeWordShows(file: map<int, u16>, r: int, mode: ControlMode)
    requires Holds(file, r, ModeWord(mode))
    ensures ShowsMode(file, r, mode)
  {
  }

  lemma BlockShowsCommand(file: map<int, u16>, config: ProductConfig, mode: ControlMode, addr: int, c: JointCommand)
    requires Encodable(c.angle) && HasBlock(file, addr, JointRegisters(config, mode, c))
    ensures ShowsCommand(file, config, mode, addr, c)
  {
    hide EncodeJointCommand, ModeWord, Conveys, ShowsMode;
    CommandRoundTrip(c);
    var registers, w := JointRegisters(config, mode, c), Width(config);
    assert Holds(file, addr + (w - 2), registers[w - 2]) && Holds(file, addr + (w - 1), registers[w - 1]);
    assert Holds(file, addr + 0, registers[0]);
    if config.productType == GHandLite1 {
      ModeWordShows(file, addr, mode);
    }
  }

  lemma ModeComesFirst(file: map<int, u16>, config: ProductConfig, mode: ControlMode, rest: seq<Write>)
    ensures StoredAll(file, ModeWrites(config, mode) + rest) ==
            if config.modeRegister >= 0
            then StoredAll(Stored(file, config.modeRegister % 0x1_0000, [ModeWord(mode)]), rest)
            else StoredAll(file, rest)
  {
    hide Stored, ModeWord, StoredAll;
    if config.modeRegister >= 0 {
      StoreOne(file, Write(config.modeRegister % 0x1_0000, [ModeWord(mode)]), rest);
    } else {
      assert ModeWrites(config, mode) + rest == rest;
    }
  }

  lemma ModeEffect(file: map<int, u16>, config: ProductConfig, mode: ControlMode, control: map<JointId, u16>,
                   commands: seq<JointCommand>)
    requires Separate(config, control) && config.modeRegister >= 0
    ensures var r := config.modeRegister % 0x1_0000;
            && Holds(Stored(file, r, [ModeWord(mode)]), r, ModeWord(mode))
            && (forall q :: q != r ==> SameAt(Stored(file, r, [ModeWord(mode)]), file, q))
            && !Commanded(config, control, commands, r)
  {
    hide ModeWord;
    var r := config.modeRegister % 0x1_0000;
    StoredBlock(file, r, [ModeWord(mode)]);
    assert Holds(Stored(file, r, [ModeWord(mode)]), r + 0, [ModeWord(mode)][0]);
  }

  // ---- The registers the products name ----

  lemma HoldingRegistersGrow(a: JointId, b: JointId)
    requires a in HOLDING_REGISTERS && b in HOLDING_REGISTERS
    ensures MODE_REGISTER < HOLDING_REGISTERS[a]
    ensures a < b ==> HOLDING_REGISTERS[a] + 2 <= HOLDING_REGISTERS[b]
  {
  }

  lemma Lite1RegistersGrow(a: JointId, b: JointId)
    requires a in LITE1_CONTROL_REGISTERS && b in LITE1_CONTROL_REGISTERS && a < b
    ensures LITE1_CONTROL_REGISTERS[a] + 3 <= LITE1_CONTROL_REGISTERS[b]
  {
  }

  function ProfileRegisters(product: ProductType): map<JointId, u16> {
    if product == GHandLite1 then LITE1_CONTROL_REGISTERS else HOLDING_REGISTERS
  }

  lemma ProfileNamesRegisters(product: ProductType, config: ProductConfig)
    ensures var applied := ApplyProtocolDefaults(product, config);
            && ControlMap(applied) == applied.jointControlRegisters == ProfileRegisters(product)
            && applied.productType == product
            && applied.modeRegister == (if product == GHandLite1 then -1 else 0x0010)
  {
    SomeRegisters();
    hide HOLDING_REGISTERS, LITE1_CONTROL_REGISTERS, LITE1_INPUT_REGISTERS, GHand5Inputs;
  }

  lemma SomeRegisters()
    ensures HOLDING_REGISTERS != map[] && LITE1_CONTROL_REGISTERS != map[]
  {
    assert FF_PIP in HOLDING_REGISTERS && FF_PIP in LITE1_CONTROL_REGISTERS;
  }

  lemma RegistersGrow(product: ProductType, a: JointId, b: JointId)
    requires a in ProfileRegisters(product) && b in ProfileRegisters(product)
    ensures product != GHandLite1 ==> MODE_REGISTER < ProfileRegisters(product)[a]
    ensures a < b ==>
      ProfileRegisters(product)[a] + (if product == GHandLite1 then 3 else 2) <= ProfileRegisters(product)[b]
  {
    hide HOLDING_REGISTERS, LITE1_CONTROL_REGISTERS;
    if product == GHandLite1 {
      if a < b { Lite1RegistersGrow(a, b); }
    } else {
      HoldingRegistersGrow(a, b);
    }
  }

  /** Either profile keeps its joints apart from each other and from the mode. */
  lemma ProfilesAreSeparate(product: ProductType, config: ProductConfig)
    ensures var applied := ApplyProtocolDefaults(product, config);
            Separate(applied, ControlMap(applied)) && MovedAlike(applied)
  {
    hide ApplyProtocolDefaults, HOLDING_REGISTERS, LITE1_CONTROL_REGISTERS, ControlMap, ProfileRegisters, MovedAlike;
    var applied := ApplyProtocolDefaults(product, config);
    var control := ProfileRegisters(product);
    ProfileNamesRegisters(product, config);
    forall a, b | a in control && b in control && a != b
      ensures control[a] + Width(applied) <= control[b] || control[b] + Width(applied) <= control[a]
    {
      RegistersGrow(product, a, b);
      RegistersGrow(product, b, a);
    }
    forall a | a in control
      ensures product != GHandLite1 ==> MODE_REGISTER < control[a]
    {
      RegistersGrow(product, a, a);
    }
    ProfileIsStandard(product);
    MovedAlikeIff(applied);
  }

  lemma ProfileIsStandard(product: ProductType)
    ensures product == GHandLite1 || ProfileRegisters(product) == HOLDING_REGISTERS
  {
    hide HOLDING_REGISTERS, LITE1_CONTROL_REGISTERS;
  }
}
