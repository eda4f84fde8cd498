# small_modbus, verified

small_modbus is a Modbus master and slave stack: two cores (RTU with a CRC, TCP with an MBAP header), a
master that starts requests and decodes confirmations, a slave that hands requests to a callback, and
ports that deliver bytes in whatever pieces the device produces. This project models that code in Dafny
and proves what an application relies on without reading it:

1. **Remote memory is local memory.** A slave whose callback serves a table of coils and registers
   behaves, to its master, like that table held locally: for every finite run of reads and writes, over
   either core, however the link cuts the frames up and whatever earlier frames left in the buffers, the
   table ends as direct operations leave it and every call returns what the direct operation returns.
   It is proved for the specifications (`Tables.RemoteRefinesLocal`) and for the methods of master and
   slave joined by a link, each working on its own buffers (`Session.PerformAll`).
2. **The framers do not see fragmentation.** `modbus_slave_wait` and `modbus_wait_confirm` consume
   exactly the prefix that a pure length function of the stream names, for every byte stream and every
   schedule of reads and waits; request frames delimit themselves, so a concatenation of frames comes
   apart into exactly those frames.
3. **The CRC is a polynomial remainder.** The bit-serial loop computes the unique remainder of long
   division by x^16 + x^15 + x^2 + 1; every error confined to 16 consecutive bits and every error of odd
   weight is detected in frames of every length, and 16 is the exact limit.
4. **Transaction safety.** Over a channel that loses, delays and repeats frames, an accepted TCP reply
   answers a request congruent to the outstanding one modulo 65536, and that is all the code guarantees.
5. **The mirror-bit ring is a bounded queue**, and `modbus_want_read` over it reads everything the line
   delivers if and only if no single ReadFile returns more than the ring holds.
6. **What the code accepts although it should not** is characterised exactly: which multiple writes are
   served with octets that are not their data, which replies the library's own master cannot frame, which
   replies it takes for success, and which quantities take a copy loop beyond its buffer.
7. **A line with many units.** A stream of requests to any units, cut up in any way, is served in order:
   one reply for each request to this slave or to all and none for the others, the table ending as direct
   operations leave it, and the replies come apart again on the master's side.

## Layout

| files | subject |
|---|---|
| Standard, Conformance | what standards and headers prescribe, in numbers, and the model compared with it |
| Bytes, Codec | octets, bits, register byte order, packed coils, quantity limits |
| Gf2, Division, Crc, Integrity | shift register, long division, the CRC loop, error detection |
| Cores | RTU and TCP headers, finishing and checking of frames |
| Ports, Context, Framing, Framers | the port, `modbus_want_read`, frame lengths, the two framers |
| Protocol, Exchange | requests, queries, replies and confirmations as pure functions, and how they fit |
| Master, Slave | the imperative code on its buffers, proved against Protocol |
| Remote, Tables, Session | master and slave joined: one call, runs, and the methods on their buffers |
| Streams, SlaveFacts | facts for every byte stream: bounds, splitting, callback legality, totality, damage |
| MasterFacts | what a call returns for any reply stream, and replies it takes for an answer |
| Limits | quantities and results that pass in sixteen bits and not in 32 |
| Serving | a stream of requests to many units, served by one of them |
| Ring, Win32Port, RingFramers | the ring buffer, the win32 serial port, and the framers over it |
| Transactions | TCP runs over an unreliable channel |

The quantities, lengths, layouts and codes that both sides of a law could get wrong together are written
down once more, in numbers and without regard to the code, in Standard; Conformance proves that the code
agrees with them for every input.

Code that works by changing buffers and fields is modelled by methods on arrays and classes, each proved
against a pure function; the properties are then proved about those functions. The application's
callback is an arbitrary function of its state, function code, address, quantity and data area. A port
carries a finite plan of what its waits will do: deliver bytes, or fail. Everything here is proved by the
Dafny verifier; nothing is executed.

## What was found in the code

The members named with each state exactly when it happens, or give an input the code can receive, or both.

- `modbus_write_bit` never sets a coil: it stores 0xFF00 in an int and the encoder looks at the int's
  first octet (`src/small_modbus_base.c:719`, `:283`). `Master.WriteBitAlwaysClears`. Function 5 itself
  works when started through `modbus_start_request` with an octet.
- The slave does not compare the count octet of a multiple write with its quantity. If the count is too
  small by no more octets than the checksum has, the frame's own CRC is written to the application's
  data; if by more, so is what an earlier frame left in the request buffer.
  `SlaveFacts.WriteDataCounted` and `SlaveFacts.WriteDataFromFrame` say exactly when,
  `SlaveFacts.CrcWritten` and `SlaveFacts.LeftoverWritten` give an accepted frame for each.
- An exception reply to a function code of 0x80 or more looks like a normal one, since code plus 0x80 is
  kept in an octet. `SlaveFacts.ExceptionRecognisable`, `SlaveFacts.HighFunctionAnswered`.
- The library's own master cannot frame all replies of the library's slave: it ends the identity reply
  after two octets, and waits for more octets after the refusal of the codes 0x80 + 1-6, 0x0F, 0x10 and
  0x16. `SlaveFacts.AnnouncedExactly`, `SlaveFacts.IdentityCut`.
- `modbus_handle_confirm` returns MODBUS_OK for a read reply of any length and stores nothing if it is not
  the length asked for. `MasterFacts.ReadOfAnyLength`, `MasterFacts.EmptyReadAccepted`.
- It returns MODBUS_OK for a write reply whatever address and quantity or value that echoes: the
  comparison at `src/small_modbus_base.c:537` has no failing branch. `MasterFacts.EchoIgnored`.
- It ends the call with an exception for a reply with any function octet from 0x80 on; that it is not the
  request's plus 0x80 is only printed (`:461-469`). `MasterFacts.ForeignException`;
  `MasterFacts.ResultExactly` says for every reply stream which of the three it is.
- The win32 port asks ReadFile for 512 octets and stores them in a ring of 256; of a larger block the end
  is dropped. `Win32Port.LosslessExactly`, `Win32Port.LargeBlockCut`.
- `dio_get_val` and `dio_set_val` keep the octet offset in a uint8_t, so coils 2048 apart are one coil.
  `Codec.WithCoilSetsOne`, `Codec.CoilsWrapAround`.
- Quantities and callback results are cut to sixteen bits before they are checked, but the copy loops take
  all 32. Exactly when that leaves the 260-octet buffer is said, with an input for each, by
  `Limits.RequestStaysExactly` and `Limits.RequestLeavesBuffer` for multiple writes,
  `Limits.ReplyStaysExactly` and `Limits.ReplyLeavesBuffer` for read callbacks, and
  `Limits.DecodingStaysExactly` and `Limits.DecodingLeavesBuffer` for `modbus_handle_confirm`.
- The library's own refusals carry 0x7D, 0x7F or 0x80, none of which is a code of section 7 of the MODBUS
  Application Protocol V1.1b3. Such a code goes out exactly when the callback returns a negative number
  with that low octet. `SlaveFacts.StandardCodeExactly`, `SlaveFacts.LibraryRefusal`,
  `SlaveFacts.CallbackChoosesCode`.
- The header comment and MODBUS over Serial Line V1.02 limit an RTU unit to 256 octets; the code accepts
  260 for both cores. `Streams.LongRequestsExactly` and `Streams.LongRepliesExactly` say which units are
  longer, `Streams.LongRequestAccepted` and `Streams.LongReplyAccepted` that they are accepted. The model
  follows the code.

## Model

| member | source | states |
|---|---|---|
| Bytes.TestIsBit | src/small_modbus_utils.c:35-40 | AND with `0x01 << k`, as `dio_get_val` does, reads binary digit k of the octet |
| Bytes.SetIsWithBit | src/small_modbus_utils.c:42-54 | OR with `0x01 << k`, or AND with its complement, replaces binary digit k |
| Bytes.SetBitSetsOne | src/small_modbus_utils.c:35-54 | after the OR or AND-NOT of `dio_set_val` the AND of `dio_get_val` reads the new value at that bit and the old one at every other |
| Gf2.FeedInjective | src/small_modbus_utils.c:19-30 | distinct CRC states stay distinct under the same further message, of any length |
| Gf2.FeedLinear | src/small_modbus_utils.c:11-33 | the shift register is linear in its initial state and the message together |
| Gf2.ShiftsAbsorb | src/small_modbus_utils.c:19-30 | adding an octet (up to 16 bits) at once and shifting equals clocking its bits in one at a time |
| Gf2.WindowInjective | src/small_modbus_utils.c:19-30 | a state and at most 16 further bits end at zero exactly when the bits equal the state, padded |
| Gf2.ShiftKeepsParity | src/small_modbus_utils.c:19-30 | a shift step preserves the parity of the state |
| Gf2.FeedParity | src/small_modbus_utils.c:11-33 | parity of the final state is the initial parity plus the parity of the message |
| Division.DivisionUnique | src/small_modbus_utils.c:11-33 | a dividend has one quotient and one remainder of degree below 16 by x^16+x^15+x^2+1 |
| Division.RemainderIsRegister | src/small_modbus_utils.c:11-33 | a register content is the remainder of the message's dividend if and only if the shift register reaches it |
| Crc.Crc16 | src/small_modbus_utils.c:11-33 | `modbus_crc16` on a buffer computes the checksum function that the lemmas below speak about |
| Crc.CrcIsRegister | src/small_modbus_utils.c:11-33 | the loop over 16-bit words and octets is the abstract shift register over the message bits, least significant first |
| Crc.BitsInjective | src/small_modbus_utils.c:11-33 | messages of one length with the same transmitted bits are the same message |
| Integrity.CrcIsRemainder | src/small_modbus_utils.c:11-33 | a word is the CRC of a message if and only if it is the remainder of the GF(2) division of section 6.2.2 of MODBUS over Serial Line V1.02, with the register preset to sixteen ones |
| Division.GeneratorTerms | src/small_modbus_utils.c:25 | the generator behind 0xA001 has the terms of degree 16, 15, 2 and 0 and no others |
| Integrity.PresetToOnes | src/small_modbus_utils.c:13 | the register starts as sixteen ones |
| Integrity.LeadingZeroSeen | src/small_modbus_utils.c:13 | what the preset is for: a zero octet in front changes the CRC of every message |
| Integrity.StandardExample | src/small_modbus_utils.c:11-33 | the example of section 6.2.2: octets 02 07 have the CRC 0x1241 |
| Integrity.CrcOctets | src/small_modbus_rtu.c:32-34 | the two octets appended are the register, least significant bit first |
| Integrity.CrcIsLinear | src/small_modbus_utils.c:11-33 | the XOR of the CRCs of two messages of one length is the zero-initialised CRC of their XOR |
| Integrity.SealedMatches | src/small_modbus_rtu.c:30-46 | every frame finished by `_rtu_check_send_pre` passes the receiver's comparison |
| Integrity.ResidueIsZero | src/small_modbus_rtu.c:38-46 | the comparison succeeds if and only if the CRC over the whole frame, CRC octets included, is zero |
| Integrity.BurstDetected | src/small_modbus_rtu.c:38-46 | two different frames of one length that differ only inside 16 consecutive bits are never both accepted |
| Integrity.SeventeenBitsEscape | src/small_modbus_rtu.c:38-46 | 16 is tight: for every accepted frame and every place there is a different accepted frame that differs inside 17 consecutive bits there |
| Integrity.PassingIsEven | src/small_modbus_rtu.c:30-46 | an accepted frame has an even number of one bits |
| Integrity.OddErrorDetected | src/small_modbus_rtu.c:55-63 | flipping any odd number of bits of an accepted frame makes the comparison fail |
| Codec.SwapRegisters | src/small_modbus_utils.c:156-194 | the in-place (aliased) or disjoint register loop equals the out-of-place swap of each register's octets and leaves every other octet alone |
| Codec.SwapTwice | src/small_modbus_utils.c:156-194 | host-to-wire and wire-to-host undo each other for every count |
| Codec.SwapKeepsValues | src/small_modbus_utils.c:156-194 | register i has the same value read in host order on one side and in wire order on the other |
| Codec.CopyCoils | src/small_modbus_utils.c:129-149 | the coil loops carry every octet that holds one of the coils, partial last octet included, and nothing else |
| Codec.SetRegister | src/small_modbus_utils.c:64-70 | `aio_set_val` turns the array into the one with register i replaced |
| Codec.WithRegisterSetsOne | src/small_modbus_utils.c:56-70 | after `aio_set_val`, `aio_get_val` gives the status modulo 65536 at that index and the old value at every other |
| Codec.GetCoil | src/small_modbus_utils.c:35-40 | `dio_get_val` with its mask gives 1 or 0 as the coil is set |
| Codec.SetCoil | src/small_modbus_utils.c:42-54 | `dio_set_val` with its masks turns the array into the one with that coil replaced and leaves every other octet alone |
| Codec.WithCoilSetsOne | src/small_modbus_utils.c:35-54 | `dio_set_val` changes exactly the coils whose index is the same modulo 2048, for every 16-bit index |
| Codec.CoilsRefineBooleans | src/small_modbus_utils.c:35-54 | every run of `dio_set_val` calls on an array of at most 256 octets is the same run on an array of booleans |
| Codec.CoilsWrapAround | src/small_modbus_utils.c:35-54 | coil i and coil i modulo 2048 are one; the octet offset is right if and only if i is below 2048 |
| Cores.BuildRequestHeader | src/small_modbus_tcp.c:11-35 | both cores lay out header, function, address and quantity; TCP advances the identifier modulo 65536 first |
| Cores.BuildResponseHeader | src/small_modbus_tcp.c:37-59 | both cores lay out the reply header, TCP with the remembered identifier, and touch nothing behind it |
| Cores.CheckSendPre | src/small_modbus_rtu.c:30-36 | finishing appends the CRC low octet first, or fills in the MBAP length (`src/small_modbus_tcp.c:61-70`) |
| Cores.AduIsIntact | src/small_modbus_tcp.c:61-121 | a unit built by either core passes that core's integrity test and carries its address, identifier and PDU |
| Cores.CheckWaitRequest | src/small_modbus_tcp.c:72-94 | verdict and stored identifier are those of the pure verdict, for every received frame of either core |
| Cores.CheckWaitResponse | src/small_modbus_tcp.c:96-121 | the same for replies, where TCP also compares the identifier |
| Conformance.HeaderNumbers | inc/small_modbus_base.h:17-62 | return codes, function codes and buffer sizes are those of the headers |
| Conformance.QuantityExactly | src/small_modbus_utils.c:72-117 | the check passes exactly 1-2000 for functions 1 and 2, 1-125 for 3 and 4, any for 5 and 6, 1-1968 for 15, 1-123 for 16, and nothing for other codes |
| Conformance.LegalExactly | src/small_modbus_base.c:274-316 | a request is sent if and only if its quantity is one of these, given the memory it needs |
| Conformance.RequestFramingExactly | src/small_modbus_base.c:913-970 | for every stream and every function code, 0x07, 0x11, 0x16 and 0x17 included, the slave's framer decides as the request's layout says, up to 260 octets |
| Conformance.ReplyFramingExactly | src/small_modbus_base.c:366-431 | so does the master's for every reply |
| Conformance.UnitOnWire | src/small_modbus_tcp.c:11-70 | an application data unit octet by octet: MBAP header in numbers, or unit, PDU and the sixteen register bits |
| Conformance.RequestOnWire | src/small_modbus_base.c:277-316 | the request PDUs octet by octet, high octets first, 0xFF for a set coil |
| Conformance.RegistersOnWire | src/small_modbus_base.c:303-313 | a multiple register write octet by octet: each register of host memory high octet first |
| Conformance.RtuVerdict | src/small_modbus_rtu.c:38-70 | for every frame: -7 if its CRC leaves a residue, else -6 if its unit is neither this one nor 0, else its length; for requests and replies |
| Conformance.TcpVerdict | src/small_modbus_tcp.c:72-121 | for every frame: -7 unless protocol identifier, length and, for replies, identifier are right, else -6 by unit, else its length |
| Conformance.RememberedExactly | src/small_modbus_tcp.c:72-94 | the slave remembers the identifier of a frame it lets through, and keeps the old one otherwise |
| Conformance.OtherUnitRefused | src/small_modbus_rtu.c:47-51 | no frame for or from another unit passes, over either core |
| Conformance.AnyRequestFramed | src/small_modbus_base.c:913-979 | a request of any function code in its layout is framed whole, and let through if and only if it is to this unit or to 0 |
| Conformance.AnyReplyFramed | src/small_modbus_base.c:366-437 | so is a reply, let through if and only if it is from the unit addressed or from 0 |
| Conformance.DecisionExactly | src/small_modbus_base.c:1007-1239 | what the slave asks or refuses for every function code, address and quantity, in numbers |
| Conformance.TakenExactly | src/small_modbus_base.c:1029-1215 | which callback results are success: 1 for the single writes, an allowed quantity for the others |
| Conformance.RefusedExactly | src/small_modbus_base.c:1210-1250 | the answers without callback: the identity, 0x7F for functions, 0x7D for quantities, state unchanged |
| Conformance.ReplyExactly | src/small_modbus_base.c:1029-1250 | the answer after the callback: exception octet, echo, or count octet and data |
| Conformance.ReplyRegister | src/small_modbus_base.c:1055-1063 | registers of a read reply: the callback's memory, high octet first |
| Conformance.AreaExactly | src/small_modbus_base.c:1080-1210 | the memory each callback gets, by offset in the buffers |
| Conformance.AreaRegister | src/small_modbus_base.c:1180-1190 | registers of a multiple write reach the callback low octet first |
| Conformance.ConfirmExactly | src/small_modbus_base.c:442-560 | return value and read data for every reply to an issued request, in numbers |
| Conformance.ReadRegister | src/small_modbus_base.c:516-528 | registers read are the reply's, low octet first |
| Ports.WantRead | src/small_modbus_base.c:154-171 | all octets asked for, or fewer and a wait that failed; what was taken is the front of the stream, whatever the pieces, and the rest is still to come |
| Framers.AssembleRequest | src/small_modbus_base.c:896-979 | in at most three reads, none reaching beyond 260 octets, the loop takes exactly the frame the pure length function names, or gives up where that function says the frame is too long |
| Framers.SlaveWait | src/small_modbus_base.c:882-983 | buffer, octets taken, verdict and stored identifier are functions of the stream alone; over a port that does not fail it gives up if and only if the stream holds no whole frame |
| Framers.AssembleReply | src/small_modbus_base.c:351-437 | the same as AssembleRequest for the master's framer, its bound of 260 octets included |
| Framers.WaitConfirm | src/small_modbus_base.c:333-440 | the same as SlaveWait for the master's framer |
| Framers.RequestCutShort | src/small_modbus_base.c:898-906 | wherever a port failure stops the request framer, the octets taken are not a whole frame |
| Framers.RequestAdvances | src/small_modbus_base.c:913-970 | each completed read advances the step and keeps read plus wanted octets within the buffer, or the frame is too long |
| Framers.ReplyAdvances | src/small_modbus_base.c:366-431 | the same for the reply framer |
| Streams.FramesFit | src/small_modbus_base.c:898-979 | every framed unit fits 260 octets and is long enough for the header and CRC positions the checkers index |
| Streams.LongRequestsExactly | src/small_modbus_base.c:898-979 | a framed RTU request is longer than 256 octets if and only if its count octet is at least 248, or 244 for function 0x17 |
| Streams.LongRepliesExactly | src/small_modbus_base.c:351-437 | a framed RTU reply is longer than 256 octets if and only if it is a read with a count octet of at least 252 |
| Streams.LongRequestAccepted | src/small_modbus_rtu.c:38-53 | for every content, a multiple write with 248 to 251 data octets is framed whole and accepted over RTU |
| Streams.LongReplyAccepted | src/small_modbus_rtu.c:55-70 | so is a read reply with 252 to 255 octets |
| Streams.RequestDecided | src/small_modbus_base.c:898-979 | the framer decides about a stream what it decides about every longer one, and never before the whole frame is there |
| Streams.ReplyDecided | src/small_modbus_base.c:351-437 | the same for the reply framer |
| Streams.SplitsIntoFrames | src/small_modbus_base.c:896-979 | the concatenation of any list of request frames, to any units, comes apart into exactly that list |
| Streams.VerdictByAddress | src/small_modbus_base.c:976-979 | a frame for this unit or for all is accepted, a frame for another unit is refused |
| Streams.ReceiveNext | src/small_modbus_base.c:882-983 | one call over a port cutting in any way takes exactly the first frame into the buffer and leaves the others, also when it refuses it |
| Streams.ReceiveAll | src/small_modbus_base.c:882-983 | successive calls yield exactly the frames sent, in order, each with the verdict its address calls for, and nothing is left |
| Exchange.RequestDelimited | src/small_modbus_base.c:274-324 | in any stream that starts with a request unit the slave's framer stops exactly at its end |
| Exchange.QueryIsRequest | src/small_modbus_base.c:1007-1226 | the slave asks its callback for the function, address and quantity the application gave the master |
| Exchange.DataArrives | src/small_modbus_base.c:1080-1226 | the callback of a write gets the octets of the master's application in host order, for all four write functions |
| Exchange.ReplyDelimited | src/small_modbus_base.c:371-430 | the master's framer stops exactly at the end of any reply whose length its first octets announce |
| Exchange.ReplyAnnounced | src/small_modbus_base.c:1007-1250 | every reply to a callback query is of that kind, success or exception |
| Exchange.LengthAgreement | src/small_modbus_base.c:457-497 | the framer's length equals the decoder's `calc_length` if and only if a read reply's count octet matches the quantity asked for; always for writes |
| Exchange.DecodedExactly | src/small_modbus_base.c:499-531 | for a request the library issued, `read_data` is written if and only if the count matches, and then holds exactly the decoded payload; the result is MODBUS_OK either way |
| Exchange.ConfirmException | src/small_modbus_base.c:461-469 | an exception reply to an issued function f ends the call with -(f+0x80) |
| Master.StartRequest | src/small_modbus_base.c:261-331 | something is sent if and only if the standard allows the quantity of the low 16 bits, else the result is -3 and nothing changes; what is sent is exactly one unit of the standard, whatever the buffer held |
| Master.HandleConfirm | src/small_modbus_base.c:442-560 | return value and `read_data` are those of the pure decoder, for every request and reply it can decode without leaving the reply, and nothing else of `read_data` changes |
| Master.AwaitAnswer | src/small_modbus_base.c:333-560 | waiting and decoding together depend on the stream only; after a port failure `read_data` is untouched |
| Master.Call | src/small_modbus_base.c:563-600 | the body all wrappers share (also `:601-711`, `:750-860`): one request out, one reply consumed, result and data as decoded; a reply of another unit gives -6 or -7 and no data |
| Master.WriteBitAlwaysClears | src/small_modbus_base.c:712-748 | `modbus_write_bit` always asks for the coil to be cleared, so it does what it is asked if and only if the status is 0 |
| Slave.Decide | src/small_modbus_base.c:1007-1239 | what is asked of the callback, or refused, and with which code, for every function code |
| Slave.SlaveHandle | src/small_modbus_base.c:986-1266 | every frame handed over is answered by exactly one unit, the one the pure service function gives; the state changes as it says, also when the callback answers for more than was asked |
| Slave.SlaveWaitHandle | src/small_modbus_base.c:1268-1290 | nothing is sent and no state changes unless a whole, intact frame for this slave arrived; then it is served once |
| SlaveFacts.CallbackLegality | src/small_modbus_base.c:1007-1226 | for every stream the callback runs only for an accepted frame, one of eight functions, a quantity within its limit and an area inside the buffer |
| SlaveFacts.AskedExactly | src/small_modbus_base.c:1007-1226 | the callback is asked about an accepted frame if and only if its function is one of the eight and its quantity allowed |
| SlaveFacts.IdentityServed | src/small_modbus_base.c:1210-1224 | the one-octet request for the identity is framed whole, accepted and answered with these eleven octets, over either core, from this unit's address or 0 |
| SlaveFacts.UnsupportedRefused | src/small_modbus_base.c:1225-1250 | requests of every other function code are framed in their layouts and refused with 0x7F, changing nothing |
| SlaveFacts.MbapDamagedNotServed | src/small_modbus_tcp.c:72-94 | a TCP frame with a wrong protocol identifier or length is refused with -7, not answered, and changes nothing |
| SlaveFacts.OthersNotServed | src/small_modbus_rtu.c:38-53 | nor is any frame for another unit, or an RTU frame with a residue |
| SlaveFacts.NoQuestionNoChange | src/small_modbus_base.c:1236-1241 | without such a question the application state stays as it is |
| SlaveFacts.ServedPdu | src/small_modbus_base.c:1243-1250 | the reply carries the request's function if the request succeeds and is a two-octet exception otherwise |
| SlaveFacts.AnsweredOnce | src/small_modbus_base.c:1243-1261 | every accepted frame is answered by an intact unit from this slave that fits the buffer with its checksum, normal or exception |
| SlaveFacts.ExceptionRecognisable | src/small_modbus_base.c:1243-1250 | the reply to an accepted frame is marked as an exception if and only if the request fails and its function code is below 0x80; above that it carries the code minus 0x80 |
| SlaveFacts.HighFunctionAnswered | src/small_modbus_base.c:1248 | for every function code from 0x80 on there is an accepted frame, and its refusal looks like a normal reply |
| SlaveFacts.StandardCodeExactly | src/small_modbus_base.c:1241-1250 | the octet of an exception reply is a code of section 7 of the MODBUS Application Protocol V1.1b3 if and only if the callback was asked and returned a negative number with that low octet |
| SlaveFacts.LibraryRefusal | src/small_modbus_base.c:1056-1078 | an accepted frame that the library itself refuses, whatever the callback, with 0x7D |
| SlaveFacts.CallbackChoosesCode | src/small_modbus_base.c:1243-1249 | for every legal request and every code there is a callback whose refusal puts it on the line |
| SlaveFacts.AnnouncedExactly | src/small_modbus_base.c:371-430 | a reply of this library's slave has the length its first octets announce to its master if and only if the function is neither 0x11 nor 0x80 plus one of 1-6, 0x0F, 0x10, 0x16 |
| SlaveFacts.IdentityCut | src/small_modbus_base.c:371-430 | the master's framer ends the 11-octet identity reply after two octets |
| SlaveFacts.DamagedNotServed | src/small_modbus_base.c:1268-1290 | an RTU frame that passed, damaged by a 16-bit burst or an odd number of bits and framed with its old length, is neither answered nor shown to the callback |
| SlaveFacts.WriteDataCounted | src/small_modbus_base.c:1140-1150 | the data of a whole multiple write are determined by its counted octets if and only if the count octet covers the quantity |
| SlaveFacts.WriteDataAre | src/small_modbus_base.c:1140-1150 | then they are the decoding of the counted octets, whatever the buffer held |
| SlaveFacts.WriteDataFromFrame | src/small_modbus_base.c:1140-1150 | they come from the frame alone if and only if count and checksum octets together cover the quantity; so CRC octets are served as data exactly when the count falls short by at most the checksum's length, and leftovers beyond that |
| SlaveFacts.CrcWritten | src/small_modbus_base.c:1183-1190 | an accepted RTU frame whose own CRC is handed to the callback as register data |
| SlaveFacts.LeftoverWritten | src/small_modbus_base.c:1183-1190 | an accepted frame, for either core, whose last register is what the buffer held before |
| Remote.UnitAccepted | src/small_modbus_base.c:882-983 | a request's frame, to this slave or to all, is framed whole and accepted, its identifier remembered |
| Remote.UnitIsImmaterial | src/small_modbus_base.c:986-1266 | a request to all units is served and answered like one to this slave's own address |
| Remote.SlaveAccepts | src/small_modbus_base.c:882-983 | the slave's framer takes exactly a master's frame and its checks let it through, remembering its identifier |
| MasterFacts.ResultExactly | src/small_modbus_base.c:333-560 | for every reply stream the call is MODBUS_OK if and only if a frame passes the checks and has the request's function code, and minus a code from 0x80 on if and only if one has that code |
| MasterFacts.ErrorsExactly | src/small_modbus_base.c:333-560 | the call's result for every reply stream, in numbers: -2, -4, the verdict, minus the exception's function octet, or 0 |
| MasterFacts.ForeignUnitRefused | src/small_modbus_rtu.c:64-68 | an intact reply of another unit, whatever it says, gives -6 and no data, over either core |
| MasterFacts.MbapDamagedRefused | src/small_modbus_tcp.c:96-121 | a TCP reply with a wrong protocol identifier, length or identifier gives -7 and no data |
| MasterFacts.CrcDamagedRefused | src/small_modbus_rtu.c:55-63 | an RTU reply whose CRC leaves a residue gives -7 and no data |
| MasterFacts.ReadOfAnyLength | src/small_modbus_base.c:499-531 | an intact reply to a read ends the whole call with MODBUS_OK for every payload length over RTU and up to 251 octets over TCP, beyond which it is MODBUS_FAIL_CONFIRM; data are stored if and only if it is the length asked for |
| MasterFacts.EmptyReadAccepted | src/small_modbus_base.c:507-512 | an accepted reply without data to a read of 16 coils, and MODBUS_OK |
| MasterFacts.EchoIgnored | src/small_modbus_base.c:532-552 | an intact reply to a write ends the whole call with MODBUS_OK whatever four octets it echoes |
| MasterFacts.ForeignException | src/small_modbus_base.c:461-469 | an intact exception reply ends the call with minus its function octet, whatever function was asked for |
| Limits.LoopEnds | src/small_modbus_utils.c:129-194 | how often the body of a do-while loop over a 32-bit count runs: up to the first decrement that gives zero |
| Limits.RequestStaysExactly | src/small_modbus_base.c:271-313 | a multiple write that passes the quantity check stays in the request buffer if and only if its quantity is between 0 and 65535 |
| Limits.RequestLeavesBuffer | src/small_modbus_base.c:301-313 | two quantities, one above and one below that range, that pass the check for one register and do not stay |
| Limits.ReplyStaysExactly | src/small_modbus_base.c:1023-1064 | a callback result taken for a read stays in the response buffer if and only if it is below 65536 |
| Limits.ReplyLeavesBuffer | src/small_modbus_base.c:1055-1063 | a result taken for one register that does not stay |
| Limits.DecodingStaysExactly | src/small_modbus_base.c:499-531 | a decoded reply is decoded within the buffer if and only if the request asks for something and for no more than the reply has |
| Limits.DecodingLeavesBuffer | src/small_modbus_base.c:516-528 | a request for no registers, and a reply to it, that are decoded all the same |
| Remote.UnderstandsBuffer | src/small_modbus_base.c:1007-1226 | what the slave reads off its buffer is the master's request, whatever the buffer held before |
| Remote.ReplyConfirmed | src/small_modbus_base.c:442-560 | the master makes of the slave's reply exactly the callback's answer: MODBUS_OK with the area, or -(function+0x80) |
| Remote.RemoteCallIsCallback | src/small_modbus_base.c:261-560 | one call over the link is one call of an arbitrary well-behaved callback, with the application's own arguments and result |
| Tables.TableIsWellBehaved | inc/small_modbus_base.h:250 | a table of coils and registers is a callback that stays in its area and answers at most for what was asked |
| Tables.RejectedExactly | src/small_modbus_base.c:274-331 | the master sends exactly the requests that the direct operation, defined by the standard's numbers, carries out |
| Tables.TableCallIsLocal | src/small_modbus_base.c:261-560 | one call to a slave serving a table has the effect and the result of the direct operation |
| Tables.RemoteRefinesLocal | src/small_modbus_base.c:882-1290 | for every finite run of functions 1-6, 15 and 16, legal or not, over either core and any leftovers, final table and all results are those of the direct run |
| Tables.TableReplyFramed | src/small_modbus_base.c:333-440 | the slave's reply is one frame for the master, passes its checks and echoes the request's identifier |
| Tables.ResultIsLocal | src/small_modbus_base.c:442-560 | what the master decodes from it is the result of the direct operation |
| Session.Perform | src/small_modbus_base.c:563-860 | with nothing under way, master and slave methods joined for one call: table, return value and `read_data` are those of the direct operation, and again nothing is under way |
| Session.PerformAll | src/small_modbus_base.c:261-1290 | the same for every finite run, one call after another with nothing in between, however the link cuts the frames |
| Serving.ServeNext | src/small_modbus_base.c:1268-1290 | one call takes the first of many requests to any units, and answers it if and only if it is for this slave or for all |
| Serving.ServeAll | src/small_modbus_base.c:1268-1290 | as many calls: the table is that of the direct run of the requests for this slave, each has one reply, in order, that its master reads as the direct result, and nothing is left |
| Serving.RepliesComeApart | src/small_modbus_base.c:351-437 | replies sent one after another come apart on the master's side into exactly those replies |
| Ring.RingBuffer.Put | src/small_modbus_port_win32.c:60-102 | appends the first min(space, n) octets to the queue, also across the end of the pool |
| Ring.RingBuffer.Get | src/small_modbus_port_win32.c:104-146 | removes and returns the first min(held, n) octets, also across the end of the pool |
| Ring.RingBuffer.DataLen | src/small_modbus_port_win32.c:148-166 | the length computed from indices and mirrors is that of the queue |
| Ring.RingBuffer.GetStatus | src/small_modbus_port_win32.c:31-41 | empty and full are told apart exactly when the queue is empty or full |
| Ring.RingBuffer.Reset | src/small_modbus_port_win32.c:168-174 | empties the queue |
| Ring.PutAcrossEnd | src/small_modbus_port_win32.c:90-101 | writing across the end flips the mirror, keeps the index invariant and appends to the queue |
| Ring.GetAcrossEnd | src/small_modbus_port_win32.c:134-145 | reading across the end flips the mirror, keeps the index invariant and takes from the front |
| Ring.Conservation | src/small_modbus_port_win32.c:60-174 | over every run what was accepted since the last reset is what was delivered followed by what is held |
| Ring.RunOps | src/small_modbus_port_win32.c:60-174 | every run of put, get and reset on the ring is that run on the bounded queue |
| Win32Port.Device.Read | src/small_modbus_port_win32.c:451-477 | delivers and removes the first min(held, length) octets |
| Win32Port.Device.Wait | src/small_modbus_port_win32.c:491-556 | stores what fits the ring and drops the rest; timeout and read error are told apart |
| Win32Port.LosslessExactly | src/small_modbus_port_win32.c:529-549 | everything the line delivers can be read if and only if no ReadFile returns more than the 256 octets the ring holds |
| Win32Port.LargeBlockCut | src/small_modbus_port_win32.c:529-546 | of a block of 257 to 512 octets, which one ReadFile may return, exactly the first 256 are kept |
| Win32Port.WaitOnEmpty | src/small_modbus_port_win32.c:491-556 | with an empty ring one wait is the wait of the abstract port, and keeps all the line's octets if and only if its block fits the ring |
| Win32Port.WantRead | src/small_modbus_base.c:154-171 | over this port it keeps the contract it has over the abstract port, for every block size: exactly the next octets, after at most as many waits, or a wait that failed as planned or at the end |
| RingFramers.SlaveWait | src/small_modbus_base.c:882-983 | the slave's framer over the win32 port keeps the contract it has over the abstract port, with the ring's stream |
| RingFramers.WaitConfirm | src/small_modbus_base.c:333-440 | so does the master's |
| Transactions.StepKeeps | src/small_modbus_tcp.c:11-94 | issuing, serving, losing, delaying and repeating keep every frame under way genuine and the counter in step |
| Transactions.RunKeeps | src/small_modbus_tcp.c:11-94 | so does every run |
| Transactions.AcceptedExactlyWhenCongruent | src/small_modbus_tcp.c:96-121 | a reply in the channel is accepted if and only if it belongs to a request congruent to the outstanding one modulo 65536 |
| Transactions.AcceptedReplyIsOurs | src/small_modbus_tcp.c:96-121 | in every run an accepted reply that has not outlived 65535 later requests answers the outstanding request, with its result on the table as served |

## Left out

- Devices and sockets: opening, configuring, reading and writing them. A port delivers a byte stream in arbitrary pieces, by a finite plan.
- The rt-thread and Linux ports; the former's ring buffer is not part of this model.
- Durations of timeouts and debug output: a timeout is a wait that returns a negative code.
- Allocation, the checks of the context structure (null pointer, magic numbers) and the setters.
- `modbus_mask_write_register` and `modbus_write_and_read_registers`, which only return a failure, and the master side of functions 0x07, 0x11, 0x16 and 0x17, which the quantity check never lets through. The framers' and decoder's cases for these functions are modelled.
- Broadcast as the standard means it: the code answers address 0, and the model follows it.
- Replies of other slaves on a shared RTU line, which the code cannot tell from requests.
- Resynchronisation after an oversized or truncated frame, which is left to the caller's flush.
- The virtual I/O board of the tests, whose implementation is not part of this model; a table of coils and registers takes its place.
- Slave.SlaveHandle: a result above 65535 whose low 16 bits are a legal quantity is left out for reads, where the code would copy beyond its buffer (`Limits.ReplyStaysExactly`); every other result is modelled. The callback changes only its area.
- Slave.Invoke: the callback works on the data area by value and its area is written back, so a callback that keeps the pointer is not modelled.
- Master.Call: the wrappers differ only in function code and argument types and are represented by this one method.
- Master.StartRequest: a negative quantity, or one above 65535, whose low 16 bits are legal is left out for multiple writes, where the code would copy beyond its buffer (`Limits.RequestStaysExactly`); for all other functions it is modelled. The port accepts every write, so a failing write is not modelled.
- Master.HandleConfirm: requests with a quantity of zero, or larger than the reply, are left out where the code would decode them, since it would leave the response buffer (`Limits.DecodingStaysExactly`); the library's own encoder makes no such request.
- RingFramers.SlaveWait: the framers are proved over the win32 port; whole calls of master and slave (Session, Serving) are over the abstract port only.
- Session.PerformAll: a call that times out with its reply still under way is not part of a run; over TCP that is the subject of Transactions.
- Codec.SwapRegisters: a count of zero is not modelled; the do-while loops would count on below it. Every caller checks the count first.
- Codec.CopyCoils: padding bits in the last octet are carried along and not given a meaning.
- Codec.RegisterAt: the host is little-endian, as the library's register codec assumes.
