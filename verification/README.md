# Verified model of the GHand SDK's transport and delivery core

This project models, in Dafny, the code of the GHand C++ SDK between a joint command or a
register read and the bytes on the wire, and the code that decides what a subscriber is told.
`dafny verify dfyconfig.toml` checks all of it.

## What is modelled

| file | what it models |
|---|---|
| `byte_values.dfy`, `bytes.dfy` | octets, 16-bit registers, narrowing conversions, joining numbered parts |
| `can_frame.dfy` | CAN-FD frames, legal lengths, the two layouts of the 29-bit arbitration id |
| `serial_driver.dfy` | the serial CAN-FD adapter: frames printed on a byte stream, and read back past noise |
| `adapter_config.dfy` | configuration frames for the adapter, their acknowledgement and retries |
| `modbus_transport.dfy` | Modbus requests over CAN-FD: segmentation, the wait for a reply, the wait for an echo |
| `modbus_reassembly.dfy` | what segmentation, the wire and reassembly promise together |
| `register_writes.dfy` | how a device decodes a write request, and writes from end to end |
| `register_reads.dfy` | how a device decodes a read request, and what it replies |
| `joint_reads.dfy` | a read of all joints: the request there, the reply back, the joints to the caller |
| `packet_assembler.dfy` | the assembler of multi-frame packets: mask, offset table, timeout |
| `packet_runs.dfy` | whole runs of that assembler: forgetting, packets in a row, rounds, late repetitions |
| `callback_manager.dfy` | the two change filters in front of the callbacks |
| `histories.dfy`, `poll_threads.dfy` | what a history of calls leaves marked, and what the poll threads have in common |
| `poll_lifecycle.dfy` | the life of the RS485 poll thread over all sequences of API calls |
| `canfd_lifecycle.dfy` | the life of the CAN-FD poll thread, which is another |
| `hand_types.dfy`, `product_config.dfy` | joints, commands, product configurations, loading and validation |
| `command_shaping.dfy` | selection, order and limits of a joint command list |
| `modbus_codec.dfy` | joints and commands as registers, the block of registers that holds the joints |
| `modbus_device.dfy` | a device that takes writes: its registers, what becomes of each write, a line that fails on the way |
| `canfd_link.dfy` | what comes back over CAN-FD while a write waits for its echo |
| `joint_motion.dfy` | a move as register writes over RS485 and over CAN-FD, and what it leaves in the device |
| `ethercat_pdo.dfy` | a move as EtherCAT process data |
| `moves.dfy` | a command list from the API to the registers or the process data |
| `self_test.dfy` | the self-test query, in both of its implementations |
| `versions.dfy` | version strings: reading, printing, order |
| `comment_stripper.dfy` | removal of comments from configuration texts |
| `tactile_blocks.dfy` | the register blocks of the tactile sensors and their forces |

Code that changes state is a class or a method with loops here, proved against a function of
the old state; what the SDK promises is then proved about those functions, over every input,
every run or every reachable state. What is exchanged with a device is also stated in the bytes,
bits and numbers that the device has to find, apart from the functions that make them.

What lies outside the SDK is a parameter. The serial line is a sequence of bytes and pauses. A
wait for a reply is a sequence of turns, each with the time that has passed and what came in.
Whether the adapter sends a frame is any function of how many it was offered before. The clock
is an argument. A device that takes writes is a register file with a list of what becomes of the
writes to come: acknowledged, refused, or stored but never acknowledged. A device under self-test
is any function from the commands asked so far, and the next one, to what happens. A float in
memory is an unspecified four-byte encoding.

Commands may be sent only with angles whose tenfold fits a 16-bit integer (`Encodable`): for
others the C++ conversion has no defined result. Clamped commands of any sensible product
configuration satisfy it.

## Where the code does not do what is wanted of it

Each of these is proved, with the exact condition on which the code does do it.

- `Send` announces the next legal length for a frame of any other length, and the frame is then
  lost (`SendIsReadBackIffLegal`). The transport only hands it legal lengths.
- A configuration of the adapter counts as written iff it was acknowledged or the last frame
  that went out was met with silence; that includes a line to which nothing could be written
  (`WriteConfig`, `NothingWrittenPasses`).
- `ReadRegisters` returns when the end segment arrives, whether or not the others have
  (`ReadReturnsTheReplyIffTheEndCameLast`).
- Nor does anything tie a reply to the request: a reply to an earlier read, or a shorter one, is
  returned as a success (`AnyReplyIsTaken`). A read succeeds with data for all its registers iff
  that much has come when its wait ends (`ReadIsLongEnoughIff`), and does so whenever it succeeds
  iff it asks for none or nothing can answer (`SuccessIsLongEnoughIff`).
- Five bits number a segment, so PDUs of more than 32 segments cannot be rejoined
  (`WriteCrossesTheWire` and `LongerPdusAreLost` give the exact bound; no Modbus PDU comes near it).
- `SetSlaveId` accepts any byte, but six bits of it reach the arbitration id: past 0x3F no
  read and no write is ever answered (`AnswerableIffAddressesFit`).
- A frame of a finished packet that is repeated becomes part of the next packet of that size,
  unless its counterpart there has come already (`NextPacketIsWholeIff`,
  `LateRepetitionSpoilsTheNext`). A packet is delivered again each time its frames have all come
  once more (`DeliveriesAreRounds`): it is delivered once over a whole run iff they do not
  (`PacketIsDeliveredOnceIff`, `RepeatedPacketComesTwice`).
- A write whose acknowledgement is lost is reported failed, and is stored all the same
  (`RunStopsAtTheFirstFailure`).
- The hand-state filter compares with the previous frame, so slow warming is not reported
  before the freshness deadline (`HandDriftBound`, `WarmingIsSilentIff`, `HandDriftIsReal`).
  Whatever the hand reports, the temperature last heard stays within a degree of the latest iff
  no two frames in a row come within 100 whole ms of the start or of a frame right before them
  (`HandStaysCloseIff`). The joint filter compares with the last frame that triggered, and does
  not drift (`NoDrift`); its baseline advances on a trigger even while no callback is set.
- A failed attempt to connect over a standing RS485 connection leaves it marked connected, with
  its poll thread, but without a Modbus context (`ConnectedWithoutContextIff`, `StrandedExample`).
- Over CAN-FD a handshake that fails over a standing connection ends the connection but not its
  poll thread, which callbacks cleared afterwards do not end either. The thread is there exactly
  while the device is connected and somebody listens iff no handshake has failed while there was
  one (`SoundIffNoThreadIsDropped`); `ThreadOutlivesConnectionIff` says how long it then stays,
  `ForgottenThreadExample` that even the next connection need not end it. An attempt that cannot
  open the adapter again leaves the device marked connected over a closed port
  (`ConnectionHistory` says when each of the two is so).
- In position mode a velocity of -128 stays -128 (`SentCommandsAreInRange`).
- Over CAN-FD only the Lite1 uses the control registers its configuration names
  (`MovedAlikeIff`); both products' own registers make no difference (`ProfilesAreSeparate`).
- `GetJointInputSpan` wraps for a joint whose first register is beyond 0xFFFD (`SpanCoversIff`).
- EtherCAT `MoveJoints` returns true even if the process data is too long to be taken
  (`MoveJoints`, `PdoFitsIff`). The cyclic thread copies from its 80-byte buffer as much as
  the last process data taken or, before that, as is reserved for the joints with limits; that
  stays inside the buffer, whatever is moved, iff the slave takes no more than 80 bytes or at
  most 13 joints have limits (`CopyStaysInsideIff`).
- The number of tactile regions is not bounded, but the resultant forces lie inside the status
  block of 16 registers only up to the fifth region (`ReadsStayInsideIff`), and a region's own
  block fits one request iff it has at most 83 sensors (`BlockFitsOneReadIff`).
- `self_test_workflow.h` says that any transport error gives an empty result. That holds for a
  device iff none of the details asked of it fails (`EmptyOnFailureIff`), and for every device
  that reports a given summary iff the summary flags no category with details
  (`EmptyOnFailureIffNoDetail`); otherwise a failed detail empties its own field and no other
  (`FailedDetailEmptiesItsField`, `FailedDetailExample`).
- The two self-test implementations agree on transactions that end alike (`RunBoth`), but a
  failed read of the state ends the one and not the other: `LoopsEndAlikeIff` says exactly when
  the same reads end both alike, `FailedReadExample` when they do not.

## Model

| member | source | states |
|---|---|---|
| CanFrame.NearestLength | src/comm/canfd_comm.cc:64-69 | the length sent is the least legal CAN-FD length that holds the data, and equals it iff the data has a legal length |
| CanFrame.NearestIsLeast | src/comm/canfd_driver_zlg.cc:100-107 | the table look-up finds the least legal length that is long enough, for any increasing table ending in 64 |
| CanFrame.PackKeepsFields | src/comm/canfd_comm.cc:126-133 | packing keeps exactly the low bits of every arbitration field, and stays inside 29 bits |
| CanFrame.ArbitrationLayout | src/comm/canfd_comm.cc:135-146 | every 29-bit id is the sum of its fields, each shifted to its own place |
| CanFrame.ArbitrationRoundTrip | src/comm/canfd_comm.cc:126-146 | packing and unpacking are inverse: on every arbitration whose fields fit, through the driver's 29-bit mask, and on every id up to that mask |
| CanFrame.PacketIdRoundTrip | src/comm/canfd_protocol.h:58-90 | type, device, sequence number and total survive the packet id layout |
| CanFrame.PacketIdLayout | src/comm/canfd_protocol.h:62-71 | every packet id is the sum of type, device, sequence number and total, each shifted to its own place |
| SerialDriver.ZqwlDriver.Send | src/comm/canfd_driver_zlg.cc:282-303 | what is written to the port: the whole frame, or as much of it as the port takes and -1, or nothing and -1 if closed or too long; a whole frame has, byte by byte, its marks, its channel, the bit-rate switch, the extended format, its rounded length, its id and its data |
| SerialDriver.ZqwlDriver.WriteAll | src/comm/canfd_driver_zlg.cc:637-665 | all bytes are written, or those the port takes before it fails |
| SerialDriver.ZqwlDriver.ReadBytes | src/comm/canfd_driver_zlg.cc:673-703 | exactly so many bytes or none: what was read before a pause is lost |
| SerialDriver.ZqwlDriver.ReadFrame | src/comm/canfd_driver_zlg.cc:305-346 | one call of Receive: which frame it returns, how much of the stream it takes, and that the frame, and the data field past the payload, is untouched otherwise |
| SerialDriver.Turn | src/comm/canfd_driver_zlg.cc:308-345 | each turn of the receive loop takes at least one byte or pause |
| SerialDriver.Receive | src/comm/canfd_driver_zlg.cc:305-346 | a call of Receive always makes progress on a stream with something on it, so reading ends |
| SerialDriver.InfoByte | src/comm/canfd_driver_zlg.cc:284-285 | the info byte of a sent frame gives back its rounded length and is never taken for a heartbeat |
| SerialDriver.PrintedHeader | src/comm/canfd_driver_zlg.cc:286-299 | the header of a sent frame reads as an extended FD frame with the same 29-bit id |
| SerialDriver.PrintedIsEnvelopeFor | src/comm/canfd_driver_zlg.cc:282-303 | every printed frame is the envelope an adapter has to find: channel, switches, length and id in their bits, whatever the channel |
| SerialDriver.TurnOnEnvelope | src/comm/canfd_driver_zlg.cc:311-345 | a whole envelope is taken in one turn: a printed frame is returned, heartbeats and foreign envelopes are skipped |
| SerialDriver.TurnOnCut | src/comm/canfd_driver_zlg.cc:311-324 | an envelope that breaks off is dropped together with the pause, and nothing after it is lost |
| SerialDriver.ResyncReadsExactlyThePrintedFrames | src/comm/canfd_driver_zlg.cc:282-346 | for every stream made of noise without the head byte, pauses, heartbeats, printed frames, rejected, missized or broken-off envelopes, repeated Receive yields exactly the frames printed whole, in order, whatever bytes they carry |
| SerialDriver.ReceiveStopsAt | src/comm/canfd_driver_zlg.cc:305-346 | one call reads past any noise, heartbeats, rejected, missized and broken-off envelopes to the next frame, which it returns, or to a wait that runs out, with which it returns nothing; the rest is left for the next call |
| SerialDriver.PauseRecoversFromAnything | src/comm/canfd_driver_zlg.cc:305-346 | for any bytes and pauses ending in a pause, head bytes and broken envelopes included, what comes after is read as if it came first |
| SerialDriver.ResyncAfterAnyBytes | src/comm/canfd_driver_zlg.cc:282-346 | after any bytes at all and a pause, the frames printed are read whole and in order |
| SerialDriver.SendIsReadBackIffLegal | src/comm/canfd_driver_zlg.cc:282-346 | a frame that is sent is read back with id, length and payload iff its length is legal; any other yields nothing |
| AdapterConfig.BuildConfigFrame | src/comm/canfd_driver_zlg.cc:529-540 | the 22 bytes left in the caller's buffer, one by one: head, function, direction, the first 16 values in their places, zeros, tail |
| AdapterConfig.ReadConfigAck | src/comm/canfd_driver_zlg.cc:595-616 | the shortest beginning of what comes in time that ends in the tail, or as much as fits |
| AdapterConfig.AckIsRecognisedIff | src/comm/canfd_driver_zlg.cc:80-85 | what is read looks like an acknowledgement iff the answer begins with the head and has a tail within 22 bytes |
| AdapterConfig.EchoIsAcknowledged | src/comm/canfd_driver_zlg.cc:529-570 | a frame sent back is an acknowledgement, even if a tail stands among its values |
| AdapterConfig.WriteConfig | src/comm/canfd_driver_zlg.cc:542-593 | true iff some attempt was acknowledged or the last frame that went out was not answered; how often the frame is written |
| AdapterConfig.TimesWrittenIs | src/comm/canfd_driver_zlg.cc:542-593 | every attempt that can be written counts once, and none after the one that is acknowledged |
| AdapterConfig.LastWasAnsweredIff | src/comm/canfd_driver_zlg.cc:583-588 | the silent-adapter rule looks at the last frame that went out, and at whether anything came back for it |
| AdapterConfig.NothingWrittenPasses | src/comm/canfd_driver_zlg.cc:583-588 | if no frame goes out the configuration counts as written |
| ModbusTransport.CanfdComm.SendFrame | src/comm/canfd_comm.cc:150-169 | the data goes out zero-padded to the next legal length, or, if the driver fails, nothing does |
| ModbusTransport.CanfdComm.ReadRegisters | src/comm/canfd_comm.cc:192-267 | one request frame, which a device decodes as ReadIsHeard says, then the outcome of the wait; the caller's bytes are unchanged unless there is an answer |
| ModbusTransport.CanfdComm.GatherReply | src/comm/canfd_comm.cc:207-266 | the reassembly loop refines the function Gather over the turns to come |
| ModbusTransport.CanfdComm.WriteRegisters | src/comm/canfd_comm.cc:269-347 | the segments of the PDU for one register or many, up to the first that the driver fails to send; if none, the outcome of the wait for the echo, else failure without a wait |
| ModbusTransport.CanfdComm.SendSegments | src/comm/canfd_comm.cc:294-311 | the loop emits the segments of the PDU, with start, end, toggle and number, in order, up to the first that does not go out |
| ModbusTransport.CanfdComm.WaitForEcho | src/comm/canfd_comm.cc:313-346 | the wait refines the function AwaitEcho |
| ModbusTransport.SegmentPacket | src/comm/canfd_comm.cc:298-310 | a receiver unpacks from a segment the arbitration fields it was given and its chunk of the PDU with padding |
| ModbusTransport.SegmentNumberFits | src/comm/canfd_comm.cc:126-133 | a segment index is sent modulo 32 |
| ModbusReassembly.NoInnerPadding | src/comm/canfd_comm.cc:298-310 | only the last segment of a PDU is padded |
| ModbusReassembly.JoinChunks | src/comm/canfd_comm.cc:257-264 | joining the first segments gives that much of the PDU, and joining all the PDU with the last frame's padding |
| ModbusReassembly.JoinStripped | src/comm/canfd_comm.cc:250-264 | removing the byte count from segment zero removes it from the whole |
| ModbusReassembly.ReactToSegment | src/comm/canfd_comm.cc:228-257 | how a waiting read takes each segment of the slave's reply |
| ModbusReassembly.HeldIsWhatWasCarried | src/comm/canfd_comm.cc:207-255 | after any turns with segments and foreign frames in any order and repetition, the segments held are exactly those that came |
| ModbusReassembly.ReadReturnsTheReplyIffTheEndCameLast | src/comm/canfd_comm.cc:207-266 | a read returns at the end segment, and returns the whole reply without byte count, followed only by padding, iff every other segment came before: in any order, repeated, among any foreign frames |
| ModbusReassembly.InOrderReplyIsReturned | src/comm/canfd_comm.cc:207-266 | a reply of one segment or more that comes in order and in time is returned, for every peer and reply |
| ModbusReassembly.EndAloneIsNotTheReply | src/comm/canfd_comm.cc:257-264 | the end segment alone is returned as a success, and is not the reply |
| ModbusReassembly.JoinIsWholeIffNoneLacks | src/comm/canfd_comm.cc:257-264 | joining what is held gives the reply iff no segment is missing |
| ModbusReassembly.AnswerIs | src/comm/canfd_comm.cc:226-265 | what a read returns, from the frame that ends its wait and the last segment of each number before it |
| ModbusReassembly.ReadIsLongEnoughIff | src/comm/canfd_comm.cc:192-267 | a read succeeds with data for so many registers iff that much has come when its wait ends |
| ModbusReassembly.AnyReplyIsTaken | src/comm/canfd_comm.cc:192-267 | any reply with the function code asked for is returned whole, to whatever request it was, and is long enough iff its frames are |
| ModbusReassembly.SuccessIsLongEnoughIff | src/comm/canfd_comm.cc:192-267 | every success holds data for as many registers as were asked for iff none were or the addresses let nothing answer |
| ModbusReassembly.SingleFrameReply | src/comm/canfd_comm.cc:242-248 | a reply of one frame is returned at once, without its byte count; without data it leaves the buffer alone |
| ModbusReassembly.ReadFailsIff | src/comm/canfd_comm.cc:211-266 | a read fails with an exception iff the first thing that ends the wait in time is one, whatever was held, and with a timeout iff nothing ends it in time |
| ModbusReassembly.ExceptionEndsTheWait | src/comm/canfd_comm.cc:233-239 | an exception reply ends a read in failure wherever it comes, whatever was held |
| ModbusReassembly.GatherEndsAt | src/comm/canfd_comm.cc:211-266 | the first turn that ends the wait decides its outcome, and later turns are left for the next wait |
| ModbusReassembly.LateTurnsDoNotMatter | src/comm/canfd_comm.cc:211-219 | whatever arrives after time is up makes no difference to a read |
| ModbusReassembly.AnswerableIffAddressesFit | src/comm/canfd_comm.cc:617-624 | a read, and a write, can be answered at all iff both addresses fit six bits |
| ModbusReassembly.WriteSucceedsIffEchoed | src/comm/canfd_comm.cc:313-346 | a write is reported done iff the first final answer in time is no exception and repeats the request's first four bytes |
| ModbusReassembly.EchoWaitEndsAt | src/comm/canfd_comm.cc:313-346 | the first final answer in time ends the wait of a write, and what comes after is left for the next |
| ModbusReassembly.WireDelivers | src/comm/canfd_driver_zlg.cc:282-346 | any list of frames with legal lengths and 29-bit ids crosses the serial line unchanged |
| ModbusReassembly.WriteCrossesTheWire | src/comm/canfd_comm.cc:271-311 | the frames of any PDU of up to 32 segments are read back in order with every field; start marks the first, end the last, toggle alternates; joined by number from any order and repetition they begin with the PDU |
| ModbusReassembly.LongerPdusAreLost | src/comm/canfd_comm.cc:293-311 | past 32 segments no collection of received segments is as long as the PDU |
| RegisterWrites.WriteIsUnderstood | src/comm/canfd_comm.cc:275-291 | the request built for 1 to 123 registers is decoded, per sections 6.6 and 6.12 of the MODBUS Application Protocol V1.1b, to those registers at that address, whatever padding follows |
| RegisterWrites.WriteReachesTheDevice | src/comm/canfd_comm.cc:269-311 | end to end: segmented, printed, read back, joined from any order, decoded, a write arrives as it was asked for |
| RegisterWrites.WriteIsHeard | src/comm/canfd_comm.cc:269-311 | the device a write is addressed to hears exactly that write |
| RegisterWrites.PartOfAWriteIsNotHeard | src/comm/canfd_comm.cc:294-311 | a request that breaks off between two of its segments is no write to any device |
| RegisterWrites.OtherDeviceHearsNothing | src/comm/canfd_comm.cc:126-133 | a request to one device is none to another |
| RegisterReads.ReadIsUnderstood | src/comm/canfd_comm.cc:196-205 | the request built for any address and count is decoded, per sections 6.3 and 6.4 of the MODBUS Application Protocol V1.1b, to that address and that count modulo 65536 |
| RegisterReads.ReadIsHeard | src/comm/canfd_comm.cc:192-205 | end to end: segmented, printed, read back and decoded, a read asks the device it is addressed to for exactly those registers, and any other device for nothing |
| JointReads.ReplyCrossesTheLineIff | src/comm/canfd_comm.cc:207-266 | with noise, heartbeats and foreign frames on the serial line, a reply of one segment or more is returned whole iff the end segment comes last |
| JointReads.PrintedReplyIsReturned | src/comm/canfd_comm.cc:207-266 | a reply printed segment by segment on the serial line, in order and in time, is returned whole |
| JointReads.ReadSpan | src/comm/canfd_comm.cc:904-919 | one request for the registers given, and the joints parsed from the registers that come back, none if the read fails |
| JointReads.GetJoints | src/comm/canfd_comm.cc:900-919 | one request for the span of the mapped joints, if there is a connection and a span, and what comes of it |
| JointReads.JointsCrossTheLine | src/comm/modbus_codec.cc:162-177 | there and back: the device decodes the request for the span and replies with those registers; what the caller parses is every mapped joint in the product's order, with state, error, angle, velocity and torque as its own three registers of the device show them |
| PacketAssembly.FullIffAllThere | src/comm/canfd_protocol.cc:73-75 | the mask is full iff exactly the frames below the total are in it |
| PacketAssembly.CountSetBit | src/comm/canfd_protocol.cc:71 | recording a new frame adds one to the frames counted in the mask |
| PacketAssembly.TilesOneMore | src/comm/canfd_protocol.cc:68-71 | recording a frame keeps the recorded intervals disjoint and the buffer covered |
| PacketAssembly.PacketAssembler.BufferBound | src/comm/canfd_protocol.cc:68-70 | the buffer never exceeds 960 bytes, so 16-bit offsets never truncate |
| PacketAssembly.PacketAssembler.Feed | src/comm/canfd_protocol.cc:16-87 | Feed keeps the invariant of mask, offsets and buffer, and refines the function FeedStep on the slots it stands for; the caller's payload is unchanged unless a packet completes |
| PacketAssembly.PacketAssembler.Reset | src/comm/canfd_protocol.cc:89-96 | a reset assembler is a new one |
| PacketAssembly.PacketAssembler.Take | src/comm/canfd_protocol.cc:68-86 | a new frame adds its slot; if none is missing then, the parts are put out in order and the assembler is as new |
| PacketAssembly.PacketAssembler.Record | src/comm/canfd_protocol.cc:68-71 | recording a frame adds its slot and no other |
| PacketAssembly.PutOut | src/comm/canfd_protocol.cc:75-83 | the output is the recorded pieces in the order of their numbers |
| PacketRuns.BehavesAsNewFromThereOn | src/comm/canfd_protocol.cc:26-64 | after completion, and from the first arrival after a timeout or of another size, the assembler holds and puts out what a new one would for the whole rest of every run |
| PacketAssembly.PacketIsDeliveredOnceComplete | src/comm/canfd_protocol.cc:16-87 | up to the arrival of its last missing frame, a packet of 2 to 15 frames in any order, with repetitions and single-frame packets between, is put out exactly once, there, its parts in sequence order |
| PacketRuns.PacketsInARow | src/comm/canfd_protocol.cc:16-87 | any number of packets in a row, each as above, are put out once each, in order |
| PacketRuns.SentPacketIsDelivered | src/comm/canfd_protocol.h:76-82 | a packet of 2 to 15 frames, of any type and for any device, sent with the ids of that packet in any order and with repetitions within half a second, is put out whole |
| PacketRuns.NextPacketIsWholeIff | src/comm/canfd_protocol.cc:60-86 | after any run that left nothing open, the next packet is put out whole, whatever it and the last contain, iff no frame of the last is repeated before its counterpart has come |
| PacketRuns.LateRepetitionSpoilsTheNext | src/comm/canfd_protocol.cc:60-86 | a run in which a late repetition is put out as part of the next packet |
| PacketRuns.RepeatedPacketComesTwice | src/comm/canfd_protocol.cc:60-86 | an instance: two frames sent twice, back to back, are put out twice |
| PacketRuns.DeliveriesAreRounds | src/comm/canfd_protocol.cc:16-87 | over every run in time of frames of one size, in any order and number, among single-frame packets, what is put out is one packet a round: the first frame of each number since all numbers last came |
| PacketRuns.PacketIsDeliveredOnceIff | src/comm/canfd_protocol.cc:16-87 | over the whole run a packet is put out once and not again iff its frames do not all come once more after the one that completed it |
| PacketAssembly.DeliveriesAreGrounded | src/comm/canfd_protocol.cc:16-87 | over every run, every multi-frame delivery is made of payloads that arrived with those numbers and that total, none older than 500 ms |
| CallbackManager.GHandCallbackManager.HasJointDataChanged | src/internal/ghand_callback_manager.cc:117-152 | the search loops decide whether the frame is news or the baseline stale |
| CallbackManager.GHandCallbackManager.UpdateJoints | src/internal/ghand_callback_manager.cc:50-70 | the new cache, baseline and deadline, with either reading of the clock, and what the callback is called with |
| CallbackManager.GHandCallbackManager.UpdateTemperature | src/internal/ghand_callback_manager.cc:72-85 | the new state and deadline, with either reading of the clock, and what the callback is called with |
| CallbackManager.BaselineIsLastTriggered | src/internal/ghand_callback_manager.cc:58-64 | between triggers the baseline is the frame that triggered last |
| CallbackManager.LastTrigger | src/internal/ghand_callback_manager.cc:117-122 | the first update of a run always triggers, and there is a last trigger at every point |
| CallbackManager.JointTriggersIff | src/internal/ghand_callback_manager.cc:117-152 | exactly which joint frames are handed on: the first, and one that comes 101 ms or more after the last trigger or has a joint that is missing there or differs in state, in error or by more than one degree; all others are held back |
| CallbackManager.CachedIsLatest | src/internal/ghand_callback_manager.cc:50-56 | the frame that can be asked for is always the latest |
| CallbackManager.NoDrift | src/internal/ghand_callback_manager.cc:117-152 | after every update of every run the last trigger is this one, or at most 100 whole ms old and every joint has its state and error and an angle within one degree of it |
| CallbackManager.BoundedMotionBetweenTriggers | src/internal/ghand_callback_manager.cc:117-152 | between two triggers no joint is ever more than two degrees from itself |
| CallbackManager.HandDriftBound | src/internal/ghand_callback_manager.cc:154-179 | the state and error last heard are always the latest; the temperature differs by at most the frames since |
| CallbackManager.HandTriggersIff | src/internal/ghand_callback_manager.cc:154-179 | exactly which hand states are handed on: another state or error than the one before, a temperature more than one degree from it, or 101 ms or more since the last trigger or the start |
| CallbackManager.WarmingIsSilentIff | src/internal/ghand_callback_manager.cc:154-179 | a hand that warms by a degree a frame triggers nothing iff every frame comes within 100 whole ms of the start |
| CallbackManager.HandDriftIsReal | src/internal/ghand_callback_manager.cc:154-179 | the bound is reached, for every number of frames and whenever they come in time |
| CallbackManager.HandStaysCloseIff | src/internal/ghand_callback_manager.cc:72-85 | for all contents of a run, the temperature last heard stays within one degree of the latest iff no two frames in a row are within 100 whole ms of the start or of the frame right before them, with either reading of the clock |
| PollLifecycle.FirstAnswer | src/comm/rs485_comm.cc:394-437 | of the slave ids tried, the first that answers is taken |
| PollLifecycle.RS485Comm.EnsurePollStarted | src/comm/rs485_comm.cc:930-935 | a thread is started unless one exists |
| PollLifecycle.RS485Comm.StopPoll | src/comm/rs485_comm.cc:937-942 | the thread is told to stop and joined |
| PollLifecycle.RS485Comm.ProbeSlave | src/comm/rs485_comm.cc:299-348 | a slave that answers is connected, and polled if somebody listens |
| PollLifecycle.RS485Comm.ConnectTo | src/comm/rs485_comm.cc:357-442 | keeps the class invariant (a thread iff connected and listened to, tactile polling iff open with a listener); the state after a connection attempt, for each way it can end |
| PollLifecycle.RS485Comm.Disconnected | src/comm/rs485_comm.cc:444-458 | keeps the class invariant (a thread iff connected and listened to, tactile polling iff open with a listener); the state after Disconnect |
| PollLifecycle.RS485Comm.OpenTactileSensor | src/comm/rs485_comm.cc:715-729 | keeps the class invariant (a thread iff connected and listened to, tactile polling iff open with a listener); the state after OpenTactile, and whether it succeeds |
| PollLifecycle.RS485Comm.CloseTactileSensor | src/comm/rs485_comm.cc:731-744 | keeps the class invariant (a thread iff connected and listened to, tactile polling iff open with a listener); the state after CloseTactile, and whether it succeeds |
| PollLifecycle.RS485Comm.OnJoints | src/comm/rs485_comm.cc:865-875 | keeps the class invariant (a thread iff connected and listened to, tactile polling iff open with a listener); the state after SetJointsCallback, set or cleared |
| PollLifecycle.RS485Comm.OnHandState | src/comm/rs485_comm.cc:877-887 | keeps the class invariant (a thread iff connected and listened to, tactile polling iff open with a listener); the state after SetHandStateCallback |
| PollLifecycle.RS485Comm.OnTactileData | src/comm/rs485_comm.cc:889-904 | keeps the class invariant (a thread iff connected and listened to, tactile polling iff open with a listener); the state after SetTactileDataCallback |
| PollLifecycle.StepKeepsConsistent | src/comm/rs485_comm.cc:923-942 | every call keeps the invariant below |
| PollLifecycle.ThreadIffConnectedAndWanted | src/comm/rs485_comm.cc:865-942 | after every sequence of calls the poll thread exists iff the device is connected and a callback is set, and tactile data is polled iff tactile is open and has a callback |
| PollLifecycle.ConnectionHistory | src/comm/rs485_comm.cc:322-458 | connected means an attempt succeeded since the last Disconnect; a context means the last call that touched it succeeded |
| PollLifecycle.SucceedsIff | src/comm/rs485_comm.cc:394-437 | an attempt succeeds iff the slave asked for answers, or, if none is, 0x31 or else 0x32 does |
| PollLifecycle.ListenerHistory | src/comm/rs485_comm.cc:715-904 | a callback is there iff it was set last; the tactile sensor is open iff it was opened, when it could be written to, and neither closed nor disconnected since |
| PollLifecycle.SlaveHistory | src/comm/rs485_comm.cc:322-458 | the slave id is that of the last attempt that succeeded, or 0x31 at first and after a Disconnect |
| PollLifecycle.ConnectedWithoutContextIff | src/comm/rs485_comm.cc:357-442 | connected without a context happens iff a success stands but a later attempt failed |
| PollLifecycle.StrandedExample | src/comm/rs485_comm.cc:357-442 | three calls that lead there, poll thread and all |
| CanfdLifecycle.CANFDComm.ConnectTo | src/comm/canfd_comm.cc:483-534 | keeps the class invariant (what is polled has a thread, joints and hand states are polled iff connected and listened to); the state after a connection attempt, for each way it can end |
| CanfdLifecycle.CANFDComm.PrepareBaudrateListener | src/comm/canfd_comm.cc:559-596 | the port is opened, or lost, and nothing else changes |
| CanfdLifecycle.CANFDComm.Disconnected | src/comm/canfd_comm.cc:536-556 | the state after Disconnect |
| CanfdLifecycle.CANFDComm.OpenTactileSensor | src/comm/canfd_comm.cc:868-881 | the state after OpenTactile, and whether it succeeds |
| CanfdLifecycle.CANFDComm.CloseTactileSensor | src/comm/canfd_comm.cc:883-896 | the state after CloseTactile, which clears its mark even when the write fails |
| CanfdLifecycle.CANFDComm.OnJoints | src/comm/canfd_comm.cc:981-998 | the state after SetJointsCallback: connected or not, set or cleared |
| CanfdLifecycle.CANFDComm.OnHandState | src/comm/canfd_comm.cc:1001-1018 | the state after SetHandStateCallback |
| CanfdLifecycle.CANFDComm.OnTactileData | src/comm/canfd_comm.cc:1021-1038 | the state after SetTactileDataCallback, which starts polling without OpenTactile |
| CanfdLifecycle.StepKeepsConsistent | src/comm/canfd_comm.cc:981-1069 | every call keeps that invariant |
| CanfdLifecycle.AlwaysConsistent | src/comm/canfd_comm.cc:483-1069 | after every sequence of calls what is polled has a thread that has not been told to stop, and while connected joints and hand states are polled iff they have a callback |
| CanfdLifecycle.SoundIffNoThreadIsDropped | src/comm/canfd_comm.cc:514-520 | over every history, the thread is there after each call iff the device is connected and somebody listens, iff no handshake has failed while there was a thread |
| CanfdLifecycle.ThreadOutlivesConnectionIff | src/comm/canfd_comm.cc:514-520 | there is a thread without a connection iff a handshake failed over both, nothing connected or disconnected since, and joints or hand states were polled then, or tactile data was and the sensor has not been closed, or no callback has been set at all |
| CanfdLifecycle.ForgottenThreadExample | src/comm/canfd_comm.cc:514-534 | four calls that leave a thread nobody listens to, which the next connection keeps |
| CanfdLifecycle.ConnectionHistory | src/comm/canfd_comm.cc:483-596 | connected means a device took the connection and neither Disconnect nor a failed handshake came since; the port is open iff the last call that opened or closed it opened it |
| CanfdLifecycle.ListenerHistory | src/comm/canfd_comm.cc:981-1038 | a callback is there iff it was set last |
| CanfdLifecycle.PolledHistory | src/comm/canfd_comm.cc:483-1038 | what is polled after any history: connecting turns joints and hand states on if they have a listener, opening the sensor tactile data, a callback set or cleared while connected its own kind; Disconnect turns all off, closing the sensor tactile data |
| HandTypes.LastForOneMore | src/comm/ethercat_comm.cc:868-871 | a later command for the same joint replaces the earlier one |
| ProductConfiguration.ValidateProductConfig | src/internal/product_config_loader.cc:403-474 | a configuration is accepted iff it meets every validation rule |
| ProductConfiguration.CheckJoints | src/internal/product_config_loader.cc:422-433 | the listed joints are accepted iff known and distinct |
| ProductConfiguration.CheckLimits | src/internal/product_config_loader.cc:435-444 | limits are accepted iff they belong to listed joints and are ordered |
| ProductConfiguration.LoadJointConfig | src/internal/product_config_loader.cc:352-368 | which joints and limits are loaded from the list of entries |
| ProductConfiguration.KnownIdsAre | src/internal/product_config_loader.cc:355-359 | the joints listed are the known ones, item by item and in order |
| ProductConfiguration.LoadedLimitsAre | src/internal/product_config_loader.cc:360-365 | a joint's limits are the two numbers of its last item that has them, the lesser first |
| ProductConfiguration.LoadedJointsAreSoundIff | src/internal/product_config_loader.cc:352-444 | loaded joints pass validation iff no joint is listed twice and some joint has limits |
| ProductConfiguration.LoadTactileConfig | src/internal/product_config_loader.cc:370-388 | the tactile regions that are loaded, behind those already there |
| ProductConfiguration.KeptRegionsAre | src/internal/product_config_loader.cc:384-386 | they are the regions with a name and at least one sensor, item by item and in order |
| ProductConfiguration.ParseProductConfigJson | src/internal/product_config_loader.cc:390-401 | what is loaded: names, the product's profile, joints and limits, tactile regions |
| ProductConfiguration.LoadedIsValidIff | src/internal/product_config_loader.cc:390-474 | what is loaded from a text is valid iff it has both names, lists no joint twice, gives some joint limits, and lists a region if it claims tactile sensors |
| ProductConfiguration.ControlledJoints | src/comm/ethercat_comm.cc:72-80 | exactly the listed joints with limits, without repetition if the list has none |
| ProductConfiguration.ControlledJointsCount | src/comm/ethercat_comm.cc:72-87 | in a validated configuration they are as many as the limits |
| ProductConfiguration.CommandableInOrder | src/comm/ethercat_comm.cc:72-80 | controlled joints keep the order of the list |
| ProductConfiguration.InputsAreSideBySide | src/internal/product_config_loader.cc:264-320 | either product keeps three input registers a joint, side by side in the order of the joints |
| ProductConfiguration.InputsBegin | src/internal/product_config_loader.cc:264-320 | they begin at 0x1023 |
| ProductConfiguration.ProfileKeepsTheRest | src/internal/product_config_loader.cc:337-349 | a profile decides registers and timers, in a way validation accepts, and nothing else |
| CommandShaping.GHandImpl.MoveJoints | src/internal/ghand_impl.cc:408-454 | which list is handed to the transport, and the result and error in every case; what the list holds is said by ShapeSelects and SentComesNearest |
| CommandShaping.GHandImpl.ClampJointAngle | src/internal/ghand_impl.cc:601-620 | the angle is moved to the nearer limit, nothing else changes |
| CommandShaping.GHandImpl.ClampJointVelocity | src/internal/ghand_impl.cc:622-672 | the velocity for each mode, 8-bit narrowing included, nothing else changes |
| CommandShaping.GHandImpl.ClampJointTorque | src/internal/ghand_impl.cc:674-737 | the torque for each mode, 8-bit narrowing included, nothing else changes |
| CommandShaping.ShapeSelects | src/internal/ghand_impl.cc:427-442 | exactly the listed joints with limits and a command get one, built from their first command |
| CommandShaping.ShapeKeepsOrder | src/internal/ghand_impl.cc:427-442 | commands are in the product's joint order, without duplicates |
| CommandShaping.SentCommandsAreInRange | src/internal/ghand_impl.cc:601-737 | angle, velocity and torque are inside their ranges, and untouched if they were; the velocity iff it was not -128 in position mode |
| CommandShaping.LimitedComesNearest | src/internal/ghand_impl.cc:601-737 | angle, velocity and torque are the nearest in range to the command, or to its magnitude where the mode gives no direction; but for a velocity of -128 in position mode |
| CommandShaping.OneComesNearest | src/internal/ghand_impl.cc:601-737 | no other command does |
| CommandShaping.SentComesNearest | src/internal/ghand_impl.cc:427-442 | every joint listed, limited and commanded is sent the command nearest to its first one |
| CommandShaping.ShapeIsIdempotent | src/internal/ghand_impl.cc:427-442 | a shaped list is shaped to itself |
| ModbusCodec.RegistersToBytes | src/comm/modbus_codec.cc:33-41 | the loop refines the high-byte-first encoding |
| ModbusCodec.RegistersRoundTrip | src/comm/modbus_codec.cc:33-41 | registers are read back from their bytes, whatever padding follows |
| ModbusCodec.CommandRoundTrip | src/comm/modbus_codec.cc:224-230 | the two command registers decode to velocity and torque exactly and the angle cut to tenths of a degree toward zero |
| ModbusCodec.GetJointInputSpan | src/comm/modbus_codec.cc:43-66 | there is a span iff a joint is mapped, and it runs from the least first to the greatest last register |
| ModbusCodec.SpanCoversIff | src/comm/modbus_codec.cc:43-66 | it covers all three registers of every mapped joint, and is the least interval that does, iff no joint starts beyond 0xFFFD |
| ModbusCodec.ProfilesFitBelowWrap | src/internal/product_config_loader.cc:264-336 | both products' register maps keep below that |
| ModbusCodec.ParseJoints | src/comm/modbus_codec.cc:162-177 | the loop refines the function ParsedJoints |
| ModbusCodec.ParsedJointShows | src/comm/modbus_codec.cc:129-147 | state and error are the bytes of the first register, tenths of a degree the second, velocity and torque the bytes of the third, the last three signed |
| ModbusCodec.RegistersShowOneJoint | src/comm/modbus_codec.cc:129-147 | three registers show one joint and no other |
| ModbusCodec.MemoryShowsTheJoints | src/comm/modbus_codec.cc:162-177 | the joints read are the mapped ones in the product's order, each as its own registers show it |
| ModbusCodec.BytesToRegisters | src/comm/canfd_comm.cc:912-918 | the loop over pairs of bytes refines the registers in a run of bytes |
| ModbusCodec.ParseFindsAll | src/comm/modbus_codec.cc:129-177 | on a block that covers them, no mapped joint is dropped and each is read from its own registers |
| ModbusCodec.PrefixParsesAlike | src/comm/modbus_codec.cc:162-177 | a longer block with the same beginning parses alike |
| ModbusCodec.SpanAndParseAgree | src/comm/modbus_codec.cc:43-177 | reading the span and parsing it, from registers or from padded bytes, yields every mapped joint in order |
| ModbusDevice.Device.Request | src/comm/canfd_comm.cc:275-291 | a device performs the write it decodes and refuses what it cannot decode |
| ModbusDevice.Device.Hear | src/comm/canfd_comm.cc:269-311 | from the frames that came over the line a device performs the write addressed to it, and no other |
| ModbusDevice.RunStopsAtTheFirstFailure | src/comm/rs485_comm.cc:549-578 | a move succeeds iff every write is acknowledged; otherwise it stops there, and stored are exactly the writes before, and that one iff only its acknowledgement was lost |
| ModbusDevice.RunOverStopsAtTheFirstFailure | src/comm/canfd_comm.cc:762-788 | the same over a line that may fail at any frame: the move is cut there, as if the writes from there on had not been in it |
| CanfdLink.WaitSucceedsIffAcknowledged | src/comm/canfd_comm.cc:313-346 | among any frames in time that are no answer, the wait succeeds iff the device acknowledges: a refusal is an exception, a lost acknowledgement a timeout |
| JointMotion.RS485Comm.MoveJoints | src/comm/rs485_comm.cc:539-581 | the mode, then one write a mapped command, stopping at the first refusal |
| JointMotion.RS485Comm.WriteJoint | src/comm/rs485_comm.cc:565-577 | one joint's registers, after the mode word on the Lite1 |
| JointMotion.CANFDComm.MoveJoints | src/comm/canfd_comm.cc:749-791 | the same writes as over RS485 with the registers CAN-FD uses, each sent, heard and answered over the line, stopping at the first failure of the line or the device; if the line does not lead to the device, nothing succeeds |
| JointMotion.CANFDComm.WriteRegisters | src/comm/canfd_comm.cc:269-347 | encoded, segmented, printed, heard and decoded, registers are stored by the device as they were given iff every segment went out, and the result is whether it acknowledged; otherwise nothing is |
| JointMotion.MovesAreSingleFrames | src/comm/canfd_comm.cc:762-788 | every write of a move is one frame, so the move is cut at the first frame that does not go out |
| JointMotion.MovedAlikeIff | src/comm/canfd_comm.cc:758-788 | the transports make the same writes for every command list iff the product is a Lite1 or its control registers are the standard ones |
| JointMotion.JointWritesEffect | src/comm/rs485_comm.cc:562-578 | the joint writes leave in every commanded joint's registers its last command, and change no register of any other |
| JointMotion.MoveSetsTheCommandedRegistersOnly | src/comm/rs485_comm.cc:549-578 | after an accepted move every commanded joint's registers convey its last command, the mode is set, and every other register is as it was |
| JointMotion.ProfilesAreSeparate | src/internal/product_config_loader.cc:264-350 | in both products no joint shares a register with another or with the mode, and both transports move it alike |
| EthercatPdo.EtherCATComm.SendRxPDO | src/comm/ethercat_comm.cc:382-397 | the data is taken iff there is a slave and it fits slave and buffer; what it replaces and what it leaves |
| EthercatPdo.EtherCATComm.MoveJoints | src/comm/ethercat_comm.cc:857-936 | true iff connected with commands; the buffer then begins with the process data iff it can be taken, and is unchanged otherwise |
| EthercatPdo.EtherCATComm.LatestOf | src/comm/ethercat_comm.cc:868-871 | the map holds the last command of every joint |
| EthercatPdo.EtherCATComm.BuildLite1 | src/comm/ethercat_comm.cc:873-894 | the pushed bytes are the process data of the Lite1 |
| EthercatPdo.EtherCATComm.BuildGHand5 | src/comm/ethercat_comm.cc:901-931 | the bytes written at the moving offset are the process data of the GHand5 |
| EthercatPdo.PdoFillsTheImageIff | src/comm/ethercat_comm.cc:82-87 | the process data is as long as EthercatRxpdoSize iff the product is no Lite1 or its controlled joints are as many as its limits, which validation gives |
| EthercatPdo.PdoFitsIff | src/comm/ethercat_comm.cc:388-391 | it fits the 80-byte buffer iff at most 13 joints have limits |
| EthercatPdo.EtherCATComm.ResetImage | src/comm/ethercat_comm.cc:239-243 | the process data and its size after Connect and Disconnect |
| EthercatPdo.EtherCATComm.CopyToSlave | src/comm/ethercat_comm.cc:420-424 | the slave's outputs begin with the buffer, and the rest is as it was; for a copy that stays inside the buffer |
| EthercatPdo.CopyStaysInsideIff | src/comm/ethercat_comm.cc:464-471 | the copy stays inside the buffer, after any moves, iff the slave takes no more than 80 bytes or at most 13 joints have limits |
| EthercatPdo.EachJointOwnsASlot | src/comm/ethercat_comm.cc:873-931 | every joint with limits owns one six-byte slot, none is shared, nothing else is there but the mode's number in front for the GHand5, and it conveys the joint's last command or the default |
| EthercatPdo.SlotsAreInOrder | src/comm/ethercat_comm.cc:873-910 | slots follow the list of joints for the Lite1 and the joints' ids for the GHand5 |
| EthercatPdo.SlotSaysItsCommand | src/comm/ethercat_comm.cc:877-930 | a slot says the mode's number, and the angle in tenths low byte first or in radians, the velocity and the torque of its command, or zero (Lite1) or the least angle (GHand5) |
| Moves.OneCommandIsLeft | src/internal/ghand_impl.cc:427-442 | shaping takes a joint's first command and the transports its last, yet every joint is left with its first command inside its limits, or none |
| Moves.EffectiveComesNearest | src/internal/ghand_impl.cc:427-442 | that command is there iff the joint is listed, limited and commanded, and is the nearest to its first one |
| Moves.ShapedIsEncodable | src/internal/ghand_impl.cc:601-620 | if the limits can be encoded, so can every angle that is sent |
| Moves.MoveReachesTheRegisters | src/internal/ghand_impl.cc:408-454 | end to end over RS485 or CAN-FD: after an accepted move exactly the joints that are listed, limited, commanded and mapped show their first command inside its limits, and every other register but the mode is as it was |
| Moves.MoveReachesTheProcessData | src/comm/ethercat_comm.cc:857-936 | end to end over EtherCAT: each joint's slot conveys its first command inside its limits, or the default |
| SelfTest.SelfTestRegisterIO.PollUntilSettled | src/comm/self_test_workflow.cc:25-44 | the poll loop ends well iff the device settles before time is up |
| SelfTest.SettlesIff | src/comm/self_test_workflow.cc:25-44 | that is: iff some poll shows a settled state and no earlier one came after the deadline |
| SelfTest.SelfTestRegisterIO.ReadDiagnosticErrorCodes | src/comm/self_test_workflow.cc:47-75 | thirteen codes, or failure and zeros |
| SelfTest.SelfTestRegisterIO.BuildSelfTestErrorInfo | src/comm/self_test_workflow.cc:105-159 | the result, and the commands asked, for every device |
| SelfTest.EtherCATComm.PollState | src/comm/ethercat_comm.cc:1069-1088 | the poll loop ends well iff a settled state comes within a hundred reads that all succeed |
| SelfTest.SdoSettlesIff | src/comm/ethercat_comm.cc:1069-1088 | the same, as a condition on the reads |
| SelfTest.RegisterOutcomeIs | src/comm/self_test_workflow.cc:47-75 | a transaction gives the first thirteen bytes of a payload of at least fourteen iff the command was written and the device settled in time |
| SelfTest.SdoOutcomeIs | src/comm/ethercat_comm.cc:1054-1098 | a transaction gives the codes read iff the command was written and a settled state came within a hundred reads |
| SelfTest.EtherCATComm.ReadDiagnosticErrorCodes | src/comm/ethercat_comm.cc:1054-1098 | thirteen codes, or failure and zeros |
| SelfTest.EtherCATComm.GetSelfTestErrorInfo | src/comm/ethercat_comm.cc:1182-1232 | the same result and the same commands as the workflow, for every device |
| SelfTest.RunBoth | src/comm/self_test_workflow.cc:105-159 | run on any two devices whose transactions end alike, both implementations return the same and have asked the same |
| SelfTest.LoopsEndAlikeIff | src/comm/ethercat_comm.cc:1069-1088 | on the same reads the two poll loops end alike iff none is settled, or time runs out before the first settled one exactly when a read fails before it or it is past the hundredth |
| SelfTest.FailedReadExample | src/comm/ethercat_comm.cc:1069-1088 | one failed read is waited out by the workflow and fails the EtherCAT query |
| SelfTest.EmptyOnFailureIff | src/comm/self_test_workflow.h:43-50 | the promised empty result on a failed query holds for a device iff no detail asked of it fails |
| SelfTest.EmptyOnFailureIffNoDetail | src/comm/self_test_workflow.h:43-50 | it holds for every device that reports a summary iff that summary flags no category with details |
| SelfTest.FailedDetailExample | src/comm/self_test_workflow.cc:105-124 | a version mismatch whose details cannot be read gives a result that is not empty |
| SelfTest.FailedDetailEmptiesItsField | src/comm/self_test_workflow.cc:114-157 | a failed detail empties its own field and no other |
| SelfTest.MotorsListAll | src/comm/self_test_workflow.cc:91-101 | a nonzero code of each of the thirteen motors is listed with its joint, and nothing else is |
| SelfTest.OnlyFlaggedAreAsked | src/comm/self_test_workflow.cc:114-157 | the summary is asked first, a detail iff its category is flagged, none twice |
| SelfTest.AskedByBits | src/comm/self_test_workflow.cc:105-157 | which bit of the summary asks for which command |
| SelfTest.AskedInOrder | src/comm/self_test_workflow.cc:105-157 | commands are asked in the order of their numbers |
| SelfTest.ErrorsListExactly | src/comm/self_test_workflow.cc:91-101 | exactly the nonzero codes, by increasing motor index, each with its controlled joint or NUM_JOINTS |
| SelfTest.ZeroCodesListNothing | src/comm/ethercat_comm.cc:1108-1180 | a failed query, read as zero codes, lists nothing |
| SelfTest.MotorIndexToJoint | src/comm/self_test_workflow.cc:77-89 | the joint in that place among the controlled joints, or NUM_JOINTS |
| SelfTest.JointOfIs | src/comm/self_test_workflow.cc:77-89 | the joint of a motor is the listed joint with limits that has so many of them before it, and there is none past the last |
| SelfTest.CollectMotorErrors | src/comm/ethercat_comm.cc:1170-1180 | the loop refines the list of errors |
| Versions.IsVersionNewer | src/internal/ghand_impl.cc:35-63 | newer iff the first part that differs, missing parts being zero, is greater |
| Versions.ParseVersion | src/internal/ghand_impl.cc:36-53 | the loop over parts refines the function Parts |
| Versions.DottedRoundTrip | src/internal/ghand_impl.cc:36-53 | every list of numbers below 2^31 printed with dots is read back as it was |
| Versions.PartValueIs | src/internal/ghand_impl.cc:40-52 | a part is read as the number in its leading digits, after spaces and a sign, or zero if that does not fit an int |
| Versions.NoNumberIsZero | src/internal/ghand_impl.cc:40-52 | a part without a number counts as zero |
| Versions.VersionsAreStrictlyWeaklyOrdered | src/internal/ghand_impl.cc:54-63 | irreflexive, asymmetric, transitive; neither is newer iff all parts agree, an equivalence |
| Versions.MissingPartIsZero | src/internal/ghand_impl.cc:54-63 | a part that is missing compares as zero |
| Versions.PackedVersionsAreOrderedByValue | src/comm/modbus_codec.cc:90-98 | for all raw values, printed and read back, newer iff the upper twelve bits are greater |
| CommentStripper.StripComments | src/internal/product_config_loader.cc:57-92 | the character loop refines the function Strip |
| CommentStripper.StripIsIdempotent | src/internal/product_config_loader.cc:57-92 | no comment is left, stripping twice is stripping once, and a text is unchanged iff it has no comment |
| CommentStripper.NewlinesAreKept | src/internal/product_config_loader.cc:80-87 | the number of newlines is kept |
| CommentStripper.StripOnlyRemoves | src/internal/product_config_loader.cc:57-92 | the result is a subsequence of the text |
| CommentStripper.LiteralsAreCopied | src/internal/product_config_loader.cc:64-79 | a string literal is copied whatever it contains, and what follows is stripped as if alone |
| CommentStripper.CommentsAreDropped | src/internal/product_config_loader.cc:80-87 | a comment goes up to its newline, which stays, or to the end of the text |
| CommentStripper.CleanTextIsCopied | src/internal/product_config_loader.cc:57-92 | text that opens no comment is copied, from any state of the scanner |
| CommentStripper.ExactlyTheCommentsGo | src/internal/product_config_loader.cc:57-92 | of every text made of code, literals and comments, in any order and number, exactly the comments go, each up to its newline |
| CommentStripper.PiecesMakeALiteral | src/internal/product_config_loader.cc:64-79 | between quotes, any characters but quotes and backslashes, and any after a backslash, are such a literal |
| CommentStripper.PlainTextIsCode | src/internal/product_config_loader.cc:80-87 | text without quotes, backslashes and slashes that meet or come last is such code |
| TactileBlocks.ParseTactileDistributed | src/comm/modbus_codec.cc:201-222 | the loop takes every whole triple of bytes up to the number of sensors |
| TactileBlocks.ForceAtIs | src/comm/modbus_codec.cc:201-222 | a force is tenths of its three bytes, the first two signed |
| TactileBlocks.BlocksAreSideBySide | src/comm/canfd_comm.cc:955-972 | the first block follows the status block, and each one the one before it, three bytes a sensor rounded up |
| TactileBlocks.BlocksAreDisjoint | src/comm/canfd_comm.cc:955-975 | the blocks of the regions are contiguous, disjoint, and as short as three bytes a sensor allow |
| TactileBlocks.BlockFitsOneReadIff | src/comm/rs485_comm.cc:846-849 | a block fits one request of 125 registers iff the region has at most 83 sensors |
| TactileBlocks.ParseTactileResultant | src/comm/modbus_codec.cc:184-199 | the resultant force of a region, from the high bytes of its three registers |
| TactileBlocks.ResultantIs | src/comm/modbus_codec.cc:184-199 | it is tenths of those bytes, the first two signed |
| TactileBlocks.ActiveIs | src/comm/canfd_comm.cc:951-960 | a region is active iff its power of two is part of the state byte, the high one of the first register |
| TactileBlocks.ReadsStayInsideIff | src/comm/modbus_codec.cc:184-188 | the registers read for the resultants of all regions lie inside the status block of 16 iff there are at most five regions |
| TactileBlocks.ReadRegionsOverRS485 | src/comm/rs485_comm.cc:837-858 | every block is asked for; each region gets its state bit and resultant from the status block and the forces of its own, none if that fails |
| TactileBlocks.ReadRegionsOverCANFD | src/comm/canfd_comm.cc:955-975 | blocks are asked for up to the first that fails, and the regions before it are returned, each with its state bit, resultant and forces |
| TactileBlocks.WholeBlocksGiveEverySensor | src/comm/modbus_codec.cc:201-222 | a whole block, padded or not, gives exactly one force a sensor, each from its own three bytes of the device |

Some methods are named apart from the call they model: `ReadFrame` is `Receive`, `ConnectTo`,
`Disconnected`, `OpenTactileSensor` and `CloseTactileSensor` are `Connect`, `Disconnect`,
`OpenTactile` and `CloseTactile`, and `OnJoints`, `OnHandState` and `OnTactileData` set the
three callbacks, over RS485 and over CAN-FD alike. The bodies of long loops and of repeated
branches are methods of their own (`ReadTurn`, `GatherReply`, `WriteJoint`, `QueryCode`, `GetMotorErrors` and others).

## Left out

- SerialDriver.ZqwlDriver.ReadFrame: the is_fd and is_extended marks of a received frame, which are always set.
- ModbusTransport.CanfdComm.ReadRegisters: traffic counters, and the waiting time of each single receive.
- SelfTest.MotorIndexToJoint: the loop stands in both implementations word for word, and is modelled once.
- Versions.Strtol: strtol itself is a library call; its result is taken from its definition.
- EthercatPdo.EtherCATComm.MoveJoints: rounding of the angle in radians; angles are real numbers everywhere.
- AdapterConfig.WriteConfig: which bytes arrive before time is up is given with each attempt.
- Bit rate codes of the adapter, the read-back that repeats a configuration once on a mismatch, and enumeration of adapters.
- The bodies of the two poll loops: what is read and handed on in each turn.
- Threads and locks: each API call is one step, and callbacks do not call back into the API.
- SetSlaveId of a connected RS485 device, which changes only the id.
- Establishing and deleting a CAN-FD connection, and its timers.
- TactileBlocks.ReadRegionsOverRS485: more than five regions, whose resultants the code reads from beyond the status block.
- EtherCAT slave recovery, firmware transfer and its handshake; libmodbus, SOEM and the serial port itself.
- JSON parsing, search for configuration files, logging, names of enumeration values.
