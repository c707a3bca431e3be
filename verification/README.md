# A verified model of the distributed motor control stack

A client talks to a master over a serial line, in numbered frames protected by a CRC-8. The master
talks to any number of slaves, each of which drives a motor, over I2C. This project models the four
layers of that stack and proves what they promise, for every input and every run:

* **Checksum and frames.** `crc.dfy` is the table-driven CRC; `crc_theory.dfy` is its algebra over
  GF(2) (the Packet Error Code of section 5.4 of SMBus 2.0): the table is polynomial division, and the
  errors that escape are exactly the multiples of x^8 + x^2 + x + 1. `packets.dfy` prints and parses
  frames.
* **The link.** `master.dfy` and `client.dfy` are the two ends, as values and as classes that update
  their state in place; `handler_runs.dfy` is the master's handler on whole frames, with the ids it
  expects and with others. `link.dfy` lets the client's calls, the line and the iterations of the handler
  interleave freely, and keeps an invariant over all of that; `link_calls.dfy` follows single calls to
  their end. `line_noise.dfy` joins the link to the checksum.
* **Buffers under interrupts.** `ring_buffer.dfy`, `rx_interrupts.dfy` and `serial.dfy`: the ring
  buffer in place, the reads and writes of `serial_rx` and `ringbuffer_pop` interleaved with the receive
  interrupt, and the interrupt-driven transmitter. `echo.dfy` runs one exchange through all of these layers.
* **The I2C bus and the commands on it.** `twi_master.dfy` and `twi_slave.dfy` are the two interrupt
  handlers; `twi_bus.dfy` is their product over a byte-level bus (sections 3.1.6, 3.1.10 and 3.1.13 of
  UM10204). `commands.dfy`, `motors.dfy`, `slave_program.dfy`, `master_commands.dfy` and `fleet.dfy` are
  the commands; `fleet_runs.dfy` is the refinement to pending and active speeds over whole runs.
  `system.dfy` puts the link on top: what the client ordered is what the slaves did. `wire.dfy` says the
  same without the orders: what the bytes of each packet do to every slave, and what comes back.

## How to read the model

A component that the source updates in place is a class whose methods are proved against a function on
values (`View()`, `State()`, `Contents()`); the theorems are about that function. The hardware is
reduced to what the code sees of it: data registers, status events, and the requests for START, STOP
and acknowledgement. Blocking waits become preconditions, or loops over the interrupts that arrive.

`Link.Run` starts from any id the master may hold. Its actions are the client's three calls, the two
blocking reads inside them, one iteration of the master's handler, and a command that the line damages.
The shell's calls are made while the master owes nothing; `CallIsAcceptedExactly` says what becomes of a
call at any point, and `OutrunCommandRunsUnseen` what the others lead to.

In `fleet.dfy` every order is carried out on the bus, cycle by cycle; then each slave's program runs
until it waits again, which is what the master's delay before a response provides for.

## Where the code does less than its documentation or its names say

* `compute_limited_speed` maps every negative speed to +125 (`LimitedIsWithinBounds`): it is no
  symmetric clamp, and no motor can be asked to turn backwards.
* An address counts modulo 128 on the bus, so that selector 128 means all slaves. GET_SPEED checks
  nothing, and the client's shell only refuses 0. Asking address 128 for its speed leaves every slave
  waiting for its response to be read, and the next APPLY is lost by all of them
  (`SpeedOfAllLosesTheNextApply`; the exact condition is `GetKeepsQuietExactly`).
* SET_SLAVE_ADDR does not look whether the new address is in use; `ChangeKeepsDistinct` gives the
  exact condition under which addresses stay distinct.
* A packet body may have 32 bytes, but the master sends no packet of more than 32 bytes. An ECHO of
  28 to 32 bytes is acknowledged and never answered, and the client waits forever (`EchoHangsExactly`,
  `EchoOf28Hangs`); that is the only way for it to get stuck in a receive (`ReceiveIsStuckOnLongEcho`).
* `ringbuffer_pop` clears the flag `full` without looking. It loses a whole buffer if two bytes arrive
  between two of its statements; one is safe (`OneByteAWindowIsSafe`, `TwoBytesAWindowCanOverrun`).
* `serial_rx` does not look at the result of `ringbuffer_pop`. If a byte fills the buffer between the two
  reads of the test for emptiness in there, the pop does nothing, and `serial_rx` counts a byte that it
  never stored (`PhantomsExactly`, `PhantomByte`).
* The handler drops the header of a frame with an id that it does not expect, and takes the tail for the
  next frame. On a whole frame of 5 to 7 bytes with another id it sends NAK and then blocks in `serial_rx`
  for good (`ForeignApplyHangs`; the exact conditions are `ReturnsOnExpectedIdExactly` for such frames and
  `RunEndsExactly` for any input).
* The size in a header is checked against its upper bound only. A header of size 4 is a packet if its four
  bytes have checksum 0, which one selector for each id and type provides for (`BareExactly`), so the body of
  a frame with another id can hold commands that the master runs (`BodyIsServed`, `EchoedHeaderIsRun`).
  Behind a header of size 0 to 3 `communication_recv` asks for 252 to 255 more bytes, and writes past its
  packet as soon as there are more than 33 of them (`OverrunsExactly`; for whole inputs `Overrun`). A client
  that fell back to id 0 brings such a header about with two whole frames
  (`SetSpeedThenConnectOverruns`). The client checks neither bound.
* The client's `communication_send` reads the size byte of its packet before it tests the pointer.
* A call that outruns the master's acknowledgement of the last DAT acknowledgement fails on the client,
  but the master runs the command all the same (`OutrunCommandRunsUnseen`).
* `twi_recv` asked for no byte at all acknowledges bytes without end (`NeverOverrunsExactly`).
* `DC_MOTOR_SEL_ALL` is meant as a mask of four motors; in `int` arithmetic it is 0xFF and masks nothing.

## Model

| member | source | states |
|---|---|---|
| Crc8.ComputeCrc | master/source/crc.c:33-43 | the table-driven loop returns the remainder of the bitwise division of the whole data, 0 for a null pointer |
| Crc8.CrcCheck | master/source/crc.c:47-56 | the same for the check, and 0xFF for a null pointer |
| Crc8.TableIsDivision | master/source/crc.c:59-82 | each of the 256 table entries is its index multiplied by x^8 modulo the polynomial |
| Crc8.RoundIsDivision | master/source/crc.c:17-29 | the round by table equals eight steps of bitwise division, for every accumulator and byte |
| Crc8.BitwiseRound | master/source/crc.c:22-26 | the loop that the source compiles without its table computes the same round |
| CrcTheory.CrcIsRegister | client/source/crc.c:17-43 | the checksum of any data is the shift register of x^8+x^2+x+1 over its bits |
| CrcTheory.CrcIsRemainder | master/source/crc.c:33-43 | a byte is the checksum iff message·x^8 plus that byte is a multiple of the polynomial: the CRC is the remainder, and it is unique |
| CrcTheory.MessageIsProduct | master/source/crc.c:33-43 | quotient times generator plus remainder gives back the message |
| CrcTheory.QuotientIsUnique | master/source/crc.c:33-43 | no other quotient does |
| CrcTheory.ChecksumOfAppended | master/source/packet.c:31-32 | `crc_check` of a message with a trailing byte is 0 iff the byte is its checksum |
| CrcTheory.ErrorEscapes | master/source/crc.c:46-56 | a corrupted frame passes the check iff the error pattern alone does |
| CrcTheory.OddErrorsAreDetected | master/source/crc.c:46-56 | an odd number of flipped bits is always noticed |
| CrcTheory.OrderOfX | master/source/crc.c:17-29 | x^d is 1 modulo the polynomial iff 127 divides d |
| CrcTheory.TwoFlipsEscape | master/source/crc.c:46-56 | two flips d bits apart escape iff 127 divides d, in frames of any length |
| CrcTheory.UpToThreeFlipsAreDetected | master/source/crc.c:46-56 | in frames of at most 15 bytes any 1, 2 or 3 flips are noticed |
| CrcTheory.BurstsAreDetected | master/source/crc.c:46-56 | a burst within 8 consecutive bits is noticed, in frames of any length |
| RingBuffers.RingBufferNew | master/source/ringbuffer.c:27-31 | a buffer of at least two bytes becomes an empty queue, anything else is refused |
| RingBuffers.RingBuffer.Used | master/source/ringbuffer.c:38-42 | the number of queued bytes |
| RingBuffers.RingBuffer.IsEmpty | master/source/ringbuffer.c:45-47 | true iff the queue is empty |
| RingBuffers.RingBuffer.IsFull | master/source/ringbuffer.c:50-52 | true iff the queue holds as many bytes as the buffer |
| RingBuffers.RingBuffer.Pop | master/source/ringbuffer.c:55-62 | removes the oldest byte, and only it; nothing changes on an empty queue |
| RingBuffers.RingBuffer.Push | master/source/ringbuffer.c:65-73 | appends one byte, or refuses on a full queue and changes nothing |
| RingBuffers.RingBuffer.Flush | master/source/ringbuffer.c:76-81 | the queue becomes empty |
| RingBuffers.RingBuffer.FlushInPlace | client/source/ringbuffer.c:157-163 | the client's other flush, which leaves the indices where they are, empties the queue as well |
| RxInterrupts.FifoUnderInterrupts | master/source/ringbuffer.c:55-73 | under every interleaving of the reads and writes of `serial_rx` and `ringbuffer_pop` with the receive interrupt, bytes are conserved in order at every point iff no statement clears the flag of a refilled buffer |
| RxInterrupts.StoresIfRoom | master/source/serial.c:60-63 | a byte that arrives is stored behind those that wait iff fewer wait than the buffer is long, or, in mid-pop, one byte has already come into the place just freed; else nothing changes |
| RxInterrupts.AcceptsExactly | master/source/serial.c:60-63 | over every run without overrun the stored bytes are the arrivals without those that found no room |
| RxInterrupts.OldestIsPopped | master/source/serial.c:79-85 | seven reads and writes of `serial_rx` without an interrupt, or five if the buffer is full, deliver the oldest byte and leave the others |
| RxInterrupts.EverythingIsDelivered | master/source/serial.c:79-85 | once no more bytes come, `serial_rx` gets every byte that found room, in order |
| RxInterrupts.BurstIsReadOut | master/source/serial.c:76-87 | as many bytes as the buffer is long, all there before the first is read, are read whole |
| RxInterrupts.OneByteAWindowIsSafe | master/source/serial.c:60-63 | with one byte accepted between moving `first` and clearing `full`, every byte that finds room is kept, none is lost, doubled or reordered, and occupancy stays within the size |
| RxInterrupts.NothingIsRefused | master/source/serial.c:60-63 | no byte is dropped while no more have come than the buffer is long |
| RxInterrupts.RefillLosesTheBuffer | master/source/ringbuffer.c:58-60 | otherwise exactly one buffer is lost |
| RxInterrupts.TwoBytesAWindowCanOverrun | master/source/ringbuffer.c:58-60 | for every buffer size a run with two bytes in one window loses bytes, so the bound is tight |
| RxInterrupts.PhantomsExactly | master/source/serial.c:79-85 | in a run without such a loss `serial_rx` counts a byte that was never popped iff a byte takes the last free place between the two reads of the test for emptiness in `ringbuffer_pop`, and the main program goes on |
| RxInterrupts.FewBytesAreCounted | master/source/serial.c:79-85 | so the count is right while fewer bytes have come than the buffer is long |
| RxInterrupts.PhantomByte | master/source/ringbuffer.c:45-57 | and that bound is tight, for every buffer size |
| Serial.LineIsConcatenation | master/source/serial.c:103-123 | over any calls and interrupts the line carries the accepted buffers end to end; what is missing is still pending |
| Serial.Transmitter.TxComplete | master/source/serial.c:67-72 | one byte leaves, the rest stays pending in order |
| Serial.Transmitter.SerialTx | master/source/serial.c:103-123 | refuses null, empty and oversized buffers, else queues the buffer behind what is pending; nothing pending is overwritten |
| Serial.SerialRxNonblock | master/source/serial.c:90-99 | reads as many bytes as there are, up to the size, oldest first, and leaves the rest; nothing into a null buffer |
| Packets.PacketCraft | client/source/packet.c:29-47 | writes header, body and checksum in place, and refuses what cannot be sent |
| Packets.FrameIsSane | master/source/packet.c:21-35 | a crafted frame passes every check and gives back type, selector and body |
| Packets.ErrorCodesDiffer | include/common/communication.h:12-17 | the errors are numbered 0 to 5 in the order of the enumeration, and no two share a number |
| Packets.SaneIsFrame | master/source/communication.c:57-61 | a packet of 5 bytes or more that passes the checks is a crafted frame: printing inverts parsing |
| Packets.BareExactly | master/source/communication.c:57-61 | the other packets that pass: a header of size 4, for each id and type with exactly one selector |
| Packets.AcceptsExactlyFrames | master/source/communication.c:44-80 | input is accepted iff a crafted frame, or a header of size 4 whose own checksum is 0, is at its front, with an expected id; exactly its bytes are consumed |
| Packets.ReceiveByTheBytes | master/source/communication.c:44-80 | which check fails first, byte for byte, and what is consumed then |
| Packets.OverrunsExactly | master/source/communication.c:51-71 | more is written than the packet holds iff more than 37 bytes are there, from an expected header of size 0 to 3 on |
| Packets.DamagedFrameIsRefused | master/source/communication.c:57-80 | a frame damaged outside id and size is consumed whole and refused with the right error |
| Packets.FramingRoundTrip | master/source/communication.c:73-80 | parsing a concatenation of frames with successive ids gives the messages in order, no byte left over |
| Packets.StreamIsInjective | client/source/packet.c:29-47 | two different message sequences never give the same bytes |
| MasterSide.Master.StepDecreases | master/source/communication.c:101-138 | every iteration consumes bytes or lowers the rank of the state |
| MasterSide.Handler.CommunicationHandler | master/source/communication.c:93-139 | the loop terminates on any input. Called in RECEIVING, it returns iff the receive calls, each with the id that the one before leaves, take the input apart to its last byte; it writes past its packet iff they come to a header of size 0 to 3 with enough bytes from there on; and it waits in `serial_rx` otherwise. It returns only in RECEIVING with every byte consumed |
| MasterSide.Master.RunEndsExactly | master/source/communication.c:101-138 | for every input, the handler on values ends in RECEIVING with the id and the bytes that the receive calls leave |
| HandlerRuns.WholeFramesAreHandled | master/source/communication.c:93-139 | on whole frames with the expected ids, handshakes included, the handler returns in RECEIVING with an empty input; each frame is acknowledged with its id, the commands are run in order, each once, and each reply follows its acknowledgement |
| HandlerRuns.CraftedIsExpected | master/source/communication.c:49-50 | a crafted frame is expected next iff it has the id that is due, or is a handshake with id 0 |
| HandlerRuns.ReturnsOnExpectedIdExactly | master/source/communication.c:49-50 | behind such frames, one more frame of at most 7 bytes lets the handler return iff it has the expected id |
| HandlerRuns.ForeignFrameLeavesItsTail | master/source/communication.c:73-80 | else its header is dropped, NAK is sent, the id becomes 0, nothing is run, and the handler blocks on the tail |
| HandlerRuns.ForeignApplyHangs | master/source/communication.c:73-80 | a frame on which that happens: a whole APPLY frame with id 1 where 0 is expected |
| HandlerRuns.BodyIsServed | master/source/communication.c:73-80 | behind a header with another id, a body that starts with a packet of id 0 is served like any packet |
| HandlerRuns.EchoedHeaderIsRun | master/source/communication.c:49-60 | so one whole ECHO frame with id 1, where another id is expected, makes the master run an APPLY, and the handler returns |
| HandlerRuns.BareEchoIsServed | master/source/communication_ops.c:13-16 | an ECHO of size 4 is acknowledged, and answered by up to 32 bytes of an uninitialised packet |
| HandlerRuns.SetSpeedThenConnectOverruns | master/source/communication.c:67-71 | a SET_SPEED of 0 and a handshake from a client at id 0, to a master at another id: nothing is run, the handler does not return, and it writes past its packet iff more than 29 bytes follow |
| HandlerRuns.RefusalIsNamed | master/source/communication.c:127-131 | refused input is answered by a NAK with the id expected and the number of the check that failed: 1 id, 4 size, 3 type, 2 checksum; nothing is run and the id is 0 |
| MasterSide.Handler.Switch | master/source/communication.c:102-137 | one iteration in place does what the step on values does |
| MasterSide.Handler.CommunicationRecv | master/source/communication.c:73-80 | where the call ends: header and body are taken, and the error of the first failing check is returned |
| ClientSide.Client.Attempt | client/source/communication.c:38-52 | the id is checked on the header alone, then the rest is read and checked; sizes of 0 to 3 and above 37, which the packet has no room for, are told apart |
| ClientSide.Client.Send | client/source/communication.c:62-96 | a packet of size 0 or above 37 is refused and nothing is sent; else flush, transmit, and success iff an ACK with the expected id answers; on failure the id falls back to 0; the call waits, or writes past its packet, exactly as its receive attempt does |
| ClientSide.Client.Recv | client/source/communication.c:102-129 | a good packet is acknowledged with its id and advances the id; a bad one is answered with a NAK and its id, and does not |
| ClientSide.Client.Connect | client/source/communication.c:30-33 | the handshake goes out with id 0 |
| ClientSide.Client.CraftAndSend | client/source/communication.c:135-142 | what cannot be crafted is not sent and changes nothing |
| ClientSide.AttemptAcceptsExactly | client/source/communication.c:38-52 | an answer is accepted iff it has the expected id, a size that its packet can have, and checksum 0 |
| ClientSide.AttemptEndsExactly | client/source/communication.c:38-52 | when an attempt ends, and when it writes past the packet, by the bytes of the header |
| ClientSide.AttemptRefusesOtherId | client/source/communication.c:46 | a frame with another id is refused on its header, and its tail stays in the queue |
| Link.StepKeepsInv | master/source/communication.c:93-139 | every step of client, line and master keeps the protocol's invariant |
| Link.EndsAgree | client/source/communication.c:62-129 | at every quiet point the ids agree and count the accepted frames modulo 255; the master ran exactly the accepted commands, in order, once; the client has exactly their replies; at most a stray ACK is left |
| Link.TableIndexInBounds | master/source/communication.c:133-136 | the operation table is never read out of bounds |
| Link.EchoComesBack | master/source/communication_ops.c:13-16 | whatever came before, an echoed body of at most 27 bytes comes back unchanged |
| Link.SendIsNeverStuck | client/source/communication.c:74-78 | a blocked send always has its answer, or a master that moves |
| Link.ReceiveIsStuckOnLongEcho | master/source/serial.c:105 | a blocked receive is stuck iff it waits for an echo of more than 27 bytes |
| LinkCalls.HandshakeConnects | client/source/communication.c:30-33 | from any start a handshake connects the two ends, with id 1 on both |
| LinkCalls.CommandIsAccepted | client/source/communication.c:87-91 | a command issued at a quiet point is accepted and is the next that the master executes |
| LinkCalls.SetterIsRun | client/source/communication.c:62-96 | a call without a reply leads from one quiet point to the next: it is issued, and the master has run its operation on the frame |
| LinkCalls.QueryIsRun | client/source/communication.c:102-129 | a call with a reply does too, with the reply received and both acknowledgements gone |
| LinkCalls.EchoHangsExactly | master/source/communication_ops.c:13-16 | after an ECHO call from a quiet point nothing can happen any more iff its body has more than 27 bytes |
| LinkCalls.EchoOf28Hangs | master/source/serial.c:105 | a run that hangs: connect, and echo 28 bytes |
| LinkCalls.DamagedCommandIsHarmless | master/source/communication.c:127-131 | a damaged command is consumed whole, run by nobody and answered with NAK; both ids become 0 and no new handshake is needed |
| LinkCalls.StrayAckBeatsTheAnswer | client/source/communication.c:54-57 | a call that outruns the master's last acknowledgement reads that one first, and fails |
| LinkCalls.OutrunCommandRunsUnseen | master/source/communication.c:121-136 | the master runs that command all the same: it has executed one more than the client has issued, and the ids differ, unless the next id is 0 again |
| LinkCalls.CallIsAcceptedExactly | client/source/communication.c:74-91 | a call between two others, at any state of the master, has its answer within three iterations of the handler, and whenever it is read, the command is accepted iff the master owed no acknowledgement when the call was made |
| LineNoise.NoiseIsDamage | master/source/communication.c:57-61 | one to three flips in a short frame, or a burst of eight bits in any, are seen by the sanity checks |
| LineNoise.NoisyCommandIsHarmless | master/source/communication.c:107-131 | so such a command is run by nobody, and both ends are ready for the next one |
| LineNoise.NoisyAnswerIsRefused | client/source/communication.c:51-126 | an answer or a reply hit by such noise is consumed whole: the send fails and its id becomes 0, the receive sends a NAK |
| EchoExchange.EchoThroughEveryLayer | master/source/communication_ops.c:13-16 | bodies of 1 to 27 bytes return unchanged through the receive buffer under interrupts, both CRCs, both id checks and the transmitter |
| EchoExchange.FrameCanBeReceived | master/source/serial.c:76-87 | the receptions which that theorem asks for exist, for every frame that fits the buffer |
| TwiMaster.Twi.Isr | master/source/twi.c:130-203 | the interrupt handler in place does what the one on values does, for every status |
| TwiMaster.Twi.Begin | master/source/twi.c:69-82 | the set-up of a transfer |
| TwiMaster.Twi.Send | master/source/twi.c:85-98 | address and data are put into the buffer and the transfer is begun; bad arguments change nothing |
| TwiMaster.Twi.Recv | master/source/twi.c:102-117 | refuses bad arguments; else the driver ends where the interrupts lead, also on a locked bus, and the count is returned; for a read of at least one byte on a free bus that is the number of bytes that arrived, which are at the front of the buffer in order, the rest untouched |
| TwiMaster.SendLoadsThePrefix | master/source/twi.c:134-152 | over any legal interrupts the bytes on the bus are a prefix of SLA+W and data, and all of it on success; the transfer ends within n+2 interrupts with the outcome of its last status |
| TwiMaster.ReceiveStoresTheBytes | master/source/twi.c:155-187 | acknowledges all bytes but the n-th, never writes past n, stores in order, n on success, 0 if the address is refused, within n+2 interrupts |
| TwiMaster.NeverOverrunsExactly | master/source/twi.c:162 | a buffer of the size asked for is never overrun iff that size is not 0 |
| TwiMaster.TransferEnds | master/source/twi.c:115 | the wait in `twi_recv` ends with the last interrupt of the transfer and not before |
| TwiMaster.LockedBusGoesOn | master/source/twi.c:69-82 | a sender that keeps the bus is ready after the repeated START, and the next transfer puts its address on the bus at once |
| TwiMaster.FaultsEndTheTransfer | master/source/twi.c:176-202 | a refusal or a lost arbitration fails with its status and gives the bus back unless it is locked; a bus error always does |
| TwiSlave.Twi.Isr | slave/source/twi.c:111-167 | the slave's interrupt handler in place does what the one on values does, for every status |
| TwiSlave.FaultsEndTheTransfer | slave/source/twi.c:146-165 | a fault or a lost arbitration ends the transfer with its status and touches neither buffer |
| TwiSlave.Twi.Send | slave/source/twi.c:70-81 | the response is copied and the hardware armed; bad arguments change nothing |
| TwiSlave.Twi.BeginRecv | slave/source/twi.c:84-93 | the caller's buffer is taken over and the hardware armed; bad arguments change nothing |
| TwiBus.SendDelivers | master/source/twi.c:85-98 | master and slaves together: in n+3 cycles every slave that listens gets exactly the bytes, the others do not change, and both sides are ready; if none listens the transfer fails and nobody changes |
| TwiBus.RecvDelivers | master/source/twi.c:102-117 | in n+3 cycles the master gets the next n bytes of the one slave that answers, which reports success iff it had queued no more |
| TwiBus.RecvFromNobody | master/source/twi.c:177-188 | a read that nobody answers brings nothing and changes no slave |
| TwiBus.ReceiverHoldsWhatWasSent | slave/source/twi.c:84-96 | a slave in `twi_recv` returns n and holds exactly the n bytes |
| TwiBus.ReaderGetsWhatWasQueued | slave/source/twi.c:114-126 | the master gets what the slave queued with `twi_send`, and both succeed |
| TwiBus.BusRunsAreLegal | master/source/twi.c:130-203 | over any number of cycles the bus reports one of the legal interrupt sequences of the master's theorems, and the master is where it leads |
| TwiMaster.SendersNeverOverrun | master/source/twi.c:134-152 | a sender never stores a byte |
| Motors.SpeedRoundTrip | slave/source/main.c:37 | a 16-bit speed survives the trip as two bytes |
| Motors.BytesRoundTrip | slave/source/main.c:37 | and every two bytes are a speed |
| Motors.LowByteFirst | slave/source/main.c:37 | the low byte comes first, and words from 2^15 on are negative |
| Motors.LimitedIsWithinBounds | slave/source/dcmotor.c:46-50 | a speed is kept iff it is within 0..125, and any other, negative ones included, becomes 125; limiting twice is limiting once |
| Motors.DcMotor.Set | slave/source/dcmotor.c:52-54 | only the pending speed changes, to the speed if it is within 0..125 and to 125 otherwise |
| Motors.DcMotor.Apply | slave/source/dcmotor.c:56-58 | only the active speed changes, to the pending one |
| MasterCommands.Commander.Prepare | master/source/master_commands.c:12-16 | the command id and its argument, in order, in the buffer |
| MasterCommands.Commander.Send | master/source/master_commands.c:18-29 | the driver is handed exactly these bytes |
| SlaveProgram.Controller.constructor | slave/source/main.c:59-76 | after the set-up the slave waits for a command under its address |
| SlaveProgram.Controller.ExecuteCommand | slave/source/main.c:29-52 | a command in place does what it does on values; an invalid one does nothing |
| SlaveProgram.ExecuteByTheBytes | slave/source/command.c:13-31 | by number, size and argument: what becomes of motor, address and response, and that everything else does nothing |
| Fleets.SetUpIsQuiet | slave/source/main.c:59-76 | slaves that have just been set up, with addresses in 1..126, are ready for the orders below |
| SlaveProgram.Controller.Wake | slave/source/main.c:75-78 | one round of the main loop, from one wait to the next |
| Fleets.SetRefines | master/source/dcmotor.c:22-24 | over the bus, a set reaches the slaves that the selector calls, and changes only their pending speed |
| Fleets.ApplyRefines | master/source/dcmotor.c:27-29 | an apply makes every pending speed active |
| Fleets.ChangeRefines | master/source/dcmotor.c:32-34 | a change of address is done by the called slaves iff they take the address |
| Fleets.PingRefines | master/source/communication_ops.c:19-35 | a ping is answered with 0 if a slave has the address, with 5 if none has, and changes nothing |
| Fleets.GetRefines | master/source/communication_ops.c:39-44 | the reply holds the speed of the slave with the address, and nothing changes |
| Fleets.PerformRefines | master/source/communication_ops.c:13-65 | every allowed order does over the bus what it means, and keeps the addresses distinct |
| Fleets.ChangeKeepsDistinct | slave/source/command.c:23-25 | addresses stay distinct and in 1..126 iff at most one slave is called and no other one has the new address |
| Fleets.GetKeepsQuietExactly | master/source/communication_ops.c:39-44 | a request for a speed leaves the fleet ready iff it goes to one address, or there is no slave |
| Fleets.SpeedOfAllLosesTheNextApply | slave/source/twi.c:84-95 | after a request to all slaves the next apply is lost by every one of them |
| FleetRuns.RunRefines | slave/source/main.c:71-79 | over any run of permitted orders and speed samples, state and replies are what the orders mean; addresses stay distinct, the fleet ready |
| FleetRuns.PendingIsTheLastSet | slave/source/dcmotor.c:52-54 | the pending speed is the limited value of the last set that reached the slave under the address it then had |
| FleetRuns.ActiveIsWhatWasPending | slave/source/dcmotor.c:56-58 | the active speed is what was pending at the last apply |
| FleetRuns.TargetOfEveryRun | slave/source/dcmotor.c:46-58 | on the real fleet, for every run: a slave's target is the limited value of its last set before the last apply, what was pending at the start if there is no such set, and unchanged if there is no apply |
| FleetRuns.PingFindsTheHolder | master/source/communication_ops.c:26-32 | after any run a ping is answered with 0 iff some slave then holds the address, and with 5 otherwise |
| FleetRuns.SetReachesExactlyTheHolder | master/source/master_commands.c:18-23 | after any run a command to one address reaches exactly the slave that then holds it |
| System.OperationsAnswer | master/source/communication_ops.c:69-81 | PING and GET_SPEED send one reply that fits the transmitter, the setters none: what the link's theorems ask of the operations |
| System.ReplayRefines | master/source/communication_ops.c:13-65 | running accepted commands one after the other is what the orders in them mean, with exactly the replies they call for |
| System.CommandsReachTheSlaves | master/source/communication.c:93-139 | at every quiet point of every run of the whole stack the slaves are what the accepted commands mean, and the client has exactly their replies |
| Wire.OrderMoves | master/source/communication_ops.c:69-81 | which operation a packet type stands for, by what it does: types 7, 8 and 10 with their selector and argument bytes |
| Wire.PacketMoves | master/source/communication_ops.c:13-65 | over the bus, on a fleet that waits for commands, each packet does to every slave what its bytes say, and is answered by the reply they ask for, written out |
| Wire.CommandsMoveTheSlaves | master/source/communication.c:93-139 | so do the accepted commands at every quiet point of every run of the whole stack |
| Wire.LastReplySays | master/source/communication_ops.c:13-44 | the last reply is what the last command asks for, of the slaves as the commands before it left them |
| Wire.MostCommandsArePermitted | master/source/communication_ops.c:39-65 | the runs of those theorems include all that leave the addresses alone and ask one slave at a time for its speed |
| Wire.SpeedIsApplied | slave/source/dcmotor.c:46-58 | in any such run: the speed of a SET_SPEED that calls the slave, cut at 125, is its target once an APPLY has followed before another SET_SPEED, and until the next APPLY |
| Wire.TwoCallsDriveTheMotors | client/source/communication.c:62-96 | the calls SET_SPEED and APPLY, from any quiet point, step by step to their end: the slaves called are driven at that speed, the others at what was pending |
| Wire.QueryAnswers | client/source/communication.c:102-129 | the calls PING and GET_SPEED likewise: the reply is received, and no slave changes |
| Wire.DrivenFromTheStart | slave/source/main.c:59-76 | the same calls behind a handshake, from slaves just set up under addresses of their own and a master at any id |

## Left out

- The shell, its prompts and option parsing (client `main.c`, `shell.c`, most of `shell_commands.c`), and the speed it prints, of which it shows only the low byte: the claims about GET_SPEED end at the body of the DAT packet.
- The terminal set-up and the POSIX reads and writes of the client's `serial.c`: the line is a pair of byte channels, and a flush drops what has arrived.
- AVR registers, baud rates, delays, sleep modes, power set-up, the EEPROM and pins: reduced to data registers, status events, and START, STOP and acknowledge requests.
- The PID controller, the PWM duty cycle and the encoder: the measured speed is an input of `FleetRuns.Happening`.
- The line towards the client has no latency: what the master has transmitted counts as received, so that a flush also drops it. A command that the client sends while the master still executes the packet before it finds the stray ACK dropped; on a slow line that ACK can arrive after the flush, as it does in `LinkCalls.StrayAckBeatsTheAnswer`.
- Link.EndsAgree: assumes that the line loses no byte and spares the id and size bytes, and that the client does not call while the master owes it an acknowledgement; the code has no timeout and does not resynchronise.
- Answers and replies reach the client unchanged in `Link.Run`; what a single call makes of a damaged one is `LineNoise.NoisyAnswerIsRefused`.
- What a receive call does once it has written past its packet: the model stops there (`Overruns`).
- The operation for a header of size 4: SET_SPEED and SET_SLAVE_ADDR read their argument from what earlier packets left in the packet, which `exec` does not see. ECHO sends what an uninitialised packet holds, the field `stack`, the same for all of them.
- Replies of more than 27 bytes: `serial_tx` drops the packet silently, and so does the model.
- System.CommandsReachTheSlaves: is about packets that carry what their operation reads. Behind a SET_SPEED with less than two bytes, or a SET_SLAVE_ADDR with none, the master reads what lies there by chance.
- The file descriptor of the client's calls, and its check against 0.
- TwiMaster.SendLoadsThePrefix: is about transfers that release the bus, as all commands do; so is `TwiMaster.ReceiveStoresTheBytes`. The handler models repeated starts (`bus_lock`) as well, and lost arbitration as one of the statuses, but no second master.
- TwiBus.RecvDelivers: is about one slave that answers, which distinct addresses provide for; several that drive the bus at once are not modelled.
- Commands that arrive before a slave waits again: `fleet.dfy` lets every slave's program finish first, as the master's delay of 100 ms does before a response.
- An interrupt between `twi_start` and the assignment to `mode` that follows it: a START takes longer than that.
- The unused `_count_bits`, the copies of the ring buffer and serial code under `slave/test`, and the mutex and allocation of the client's ring buffer, whose locked operations are atomic here.
- The client's and the master's identical copies of the CRC and of `packet_craft` are modelled once.
