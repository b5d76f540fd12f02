# UPZP game process: framing, checksums and game rules

This project models three parts of the UPZP game sub-process and proves what they promise.

1. **Framing over a byte stream.** `DatagramStream` receives chunks of a TCP stream and cuts datagrams
   out of it, dropping one byte and starting over whenever a header turns out wrong. `Scan.dfy` says
   what that amounts to, as a scan over the bytes alone; `DatagramStream.dfy` and `MainProcess.dfy`
   hold the buffered state machine and the receive handler, proved to do what the scan does;
   `ScanLaws.dfy` proves what the scan delivers. `Frame.dfy` is the datagram format and
   `Datagram.dfy` the object that parses and prints it. `Corruption.dfy` says which damage is
   certain to be noticed.
2. **CRC.** `CrcSpec.dfy` and `Crc.dfy` are the CRC code, bit by bit and table driven, for every
   polynomial and every width of at least one byte. `CrcTheory.dfy` reduces it to one bit-serial
   shift register, `CrcDivision.dfy` shows that register to be polynomial long division over GF(2),
   and `CrcLaws.dfy` states the promises; `CrcParity.dfy` says which generators see every error of
   an odd number of bits; `CrcCheck.dfy` proves the check values listed in the
   source, on the machine words of `MachineWords.dfy`. A machine integer is the list of its bits, least
   significant first (`Bits.dfy`), so shifts drop bits at a fixed width as they do in the original.
   CRC-32 is the CRC of section 8 of RFC 1952.
3. **Game simulation.** `GameSpec.dfy` and `Game.dfy` are the teams, the point boxes and the
   mutex-protected operations; `GameLaws.dfy` proves what holds over every run in which ticks,
   joins, inputs and the end-of-game test interleave freely; `GameRuns.dfy` says what becomes of
   single players, the clock, the rosters and the snapshots. `Geometry.dfy` is the distance from a
   box to a move, over the reals. `ClientUdp.dfy` is the sequence-number filter in front of the game.

The source files work on objects in place, and so do the classes here; each method's contract ties
the new state to a function of the old one, and the lemmas are about those functions.

## Where the code and its description differ

- `Get` writes 15 bits of version and `Load` reads back 8, so a version survives exactly when it is
  below 256 (`Frame.ParseAfterPrint`).
- Two header bytes in front of the header checksum, and the low seven bits of byte 3, are ignored by
  `Load` and written as zero by `Get`. A parsed frame is printed back unchanged exactly when they are
  zero and its payload is correct (`Frame.PrintAfterParse`).
- `Load` means to reject a payload length that overflows the buffer, but adds header and payload
  length in 32 bits. The rejection happens exactly when the sum fits in 32 bits
  (`DatagramObject.Datagram.Load`, `DatagramObject.LengthCheckWraps`). Frames cut out by the stream
  are always complete, so there the case does not arise.
- `FindBeginSequence` and `FlushData` assume a nonempty buffer: on an empty one the loop bound
  `size() - 1` wraps around and `end() - 1` lies before the buffer, which C++ leaves undefined. The
  model keeps the documented meaning there (not found, nothing erased) and reports each such search
  through `onEmpty`. It happens in `FlushData` exactly on entry with an empty buffer
  (`Stream.DatagramStream.FlushData`), in the receive handler exactly when the bytes received so far
  leave nothing undecided (`MainProcess.MainProcessComm.Receive`), and over a whole connection exactly
  when some chunk ends where a frame of the stream ends or no byte has arrived by then
  (`MainProcess.EmptySearchedExactly`). One printed message in one chunk is enough
  (`MainProcess.OneMessageClearsBuffer`); until then the contracts need no condition.
- `FlushData` catches exceptions of `Load`, but `Load` cannot throw there
  (`Stream.DatagramStream.DecodePayload`). This holds as `size_t` has 64 bits here. With 32 bits the
  sum of header and payload length would wrap exactly when it reaches 2^32, a header alone would
  pass for its whole frame, and `Load` would throw (`DatagramObject.WidthMatters`).
- `FlushData` is described as completing the datagram when it can. It may hold back a complete one: the bytes
  DA AB right in front of a message without payload checksum and with at most one payload byte read
  like the start of a 16-byte header, so the message waits until more bytes arrive
  (`ScanLaws.MessageHeldBack`, `ScanLaws.MessageReleased`). A complete frame is held back exactly when
  it stands two or three bytes behind such a begin sequence and fewer than sixteen bytes are undecided
  (`ScanLaws.HeldBackExactly`).
- For an empty payload `Get` takes the address of the byte one past the end of its buffer through
  `operator[]`, which C++ leaves undefined and hardened libraries reject. It happens exactly when the
  payload is empty (`DatagramObject.Datagram.Get`, result `pastEnd`); no byte is read or written there.
- `LongitudeToMeters` gives a latitude in degrees to a cosine of radians; the model hands the same
  argument to the cosine it is given.
- `DecodeDatagram` is described as refusing lower sequence numbers; it refuses equal ones too, and it
  does not look at the payload checksum.
- The comment on `UndoFinalize` (it and `Finalize` undo each other) holds at the given width
  (`CrcLaws.FinalizeInverse`).

## Model

| member | source | states |
|---|---|---|
| Bits.ByteBitsDigits | UPZP-GameProcess/inc/CRC.h:622-627 | bit i of a byte is its binary digit i |
| Bits.ByteOfNumber | UPZP-GameProcess/inc/CRC.h:733-746 | the byte of eight bits is the number they stand for |
| Bits.ShiftRightHalves | UPZP-GameProcess/inc/CRC.h:625-637 | a right shift halves the number |
| Bits.ShiftLeftDoubles | UPZP-GameProcess/inc/CRC.h:654-666 | a left shift doubles it modulo 2^width |
| Crc.Reflect | UPZP-GameProcess/inc/CRC.h:519-530 | the loop reverses the low bits and leaves zeros above them |
| Crc.FinalizeRemainder | UPZP-GameProcess/inc/CRC.h:542-554 | reflects when input and output order differ, then applies the final XOR |
| Crc.UndoFinalizeRemainder | UPZP-GameProcess/inc/CRC.h:574-588 | gives the register that was finalized: finalizing it gives the argument back |
| CrcLaws.FinalizeInverse | UPZP-GameProcess/inc/CRC.h:556-565 | finalizing and undoing it are inverse in both orders, for every register and parameter set |
| Crc.ReflectedByte | UPZP-GameProcess/inc/CRC.h:622-637 | the inner loop of eight conditional right shifts is one byte step |
| Crc.MsbByte | UPZP-GameProcess/inc/CRC.h:651-666 | the inner loop of eight conditional left shifts is one byte step |
| Crc.ReflectedRemainder | UPZP-GameProcess/inc/CRC.h:617-639 | the reflected byte loop computes the remainder of all the data |
| Crc.MsbRemainder | UPZP-GameProcess/inc/CRC.h:640-668 | the most-significant-bit-first byte loop computes the remainder of all the data |
| Crc.CalculateRemainder | UPZP-GameProcess/inc/CRC.h:600-705 | both branches compute the remainder the laws below are about |
| CrcLaws.TransmittedDigit | UPZP-GameProcess/inc/CRC.h:617-657 | bits are consumed in the order of the binary digits of each byte, least significant first when the input is reflected, else most significant first |
| CrcTheory.FeedLinear | UPZP-GameProcess/inc/CRC.h:617-639 | the register is XOR-linear in data and start value together |
| CrcTheory.FrontLoad | UPZP-GameProcess/inc/CRC.h:622-637 | XORing a whole byte in at once equals feeding its bits one at a time |
| CrcTheory.SpinKernel | UPZP-GameProcess/inc/CRC.h:625-637 | with an x^0 term no number of steps maps a nonzero register to zero |
| CrcTheory.BurstDetected | UPZP-GameProcess/inc/CRC.h:617-639 | bit strings that differ only within one register width leave different registers, at any position and length |
| CrcLaws.RemainderIsSerial | UPZP-GameProcess/inc/CRC.h:613-668 | both byte loops are the same bit-serial shift register, up to orientation |
| CrcDivision.FeedDivides | UPZP-GameProcess/inc/CRC.h:617-639 | message times x^width equals quotient times generator plus the register left |
| CrcDivision.DivisionIsUnique | UPZP-GameProcess/inc/CRC.h:590-599 | quotient and remainder of GF(2) division are unique |
| CrcDivision.FeedIsTheRemainder | UPZP-GameProcess/inc/CRC.h:617-639 | the shift register ends at the remainder of long division and at no other word |
| CrcLaws.RemainderDivides | UPZP-GameProcess/inc/CRC.h:590-705 | a word is the computed remainder if and only if it is the remainder of polynomial long division |
| CrcLaws.ChecksumDivides | UPZP-GameProcess/inc/CRC.h:434-441 | a word is the checksum if and only if it is the remainder of long division from the initial value, turned around when the orders differ, with the bits of the final XOR flipped |
| CrcCheck.ArcCheckValue | UPZP-GameProcess/inc/CRC.h:1155-1166 | the CRC-16/ARC of "123456789" is 0xBB3D, as listed |
| CrcCheck.Crc32CheckValue | UPZP-GameProcess/inc/CRC.h:1555-1569 | the CRC-32 of "123456789" is 0xCBF43926, as listed |
| CrcLaws.MirrorDuality | UPZP-GameProcess/inc/CRC.h:617-668 | the reflected loop equals the reversed result of the other loop on bit-reversed bytes, for every start and polynomial |
| CrcLaws.ArcParameters | UPZP-GameProcess/inc/CRC.h:1162-1166 | the CRC-16/ARC constants are 0x8005, 0 and 0 |
| CrcLaws.Crc32Parameters | UPZP-GameProcess/inc/CRC.h:1565-1569 | the CRC-32 constants are 0x04C11DB7, 0xFFFFFFFF and 0xFFFFFFFF |
| CrcLaws.RemainderConcat | UPZP-GameProcess/inc/CRC.h:590-599 | a remainder may be continued from the remainder of earlier data |
| CrcLaws.MultiPart | UPZP-GameProcess/inc/CRC.h:443-463 | the checksum of a + b is the checksum of b continued from the checksum of a |
| Crc.Calculate | UPZP-GameProcess/inc/CRC.h:434-441 | computes the checksum of the data |
| Crc.CalculateMore | UPZP-GameProcess/inc/CRC.h:453-463 | given the checksum of earlier data, returns the checksum of all of it |
| Crc.CalculateByTable | UPZP-GameProcess/inc/CRC.h:474-484 | through the table computes the same checksum |
| Crc.CalculateMoreByTable | UPZP-GameProcess/inc/CRC.h:497-509 | the same for multi-part calculation |
| Crc.Table.constructor | UPZP-GameProcess/inc/CRC.h:325-330 | builds a valid table for the parameters |
| Crc.Table.InitTable | UPZP-GameProcess/inc/CRC.h:390-422 | the wrapping byte loop fills every entry with the remainder of its index |
| CrcLaws.TableStepCorrect | UPZP-GameProcess/inc/CRC.h:733-746 | one table lookup equals eight bit steps, in both directions, for every register and byte |
| Crc.CalculateTableRemainder | UPZP-GameProcess/inc/CRC.h:717-766 | the table-driven remainder equals the bit-by-bit one, for all data and start values |
| CrcLaws.BitBurstChangesRemainder | UPZP-GameProcess/inc/CRC.h:613-668 | any change within one CRC width of transmitted bits changes the remainder |
| CrcLaws.UnitTermNeeded | UPZP-GameProcess/inc/CRC.h:613-668 | without an x^0 term there are two strings that differ within one CRC width and are never told apart, whatever the start value |
| CrcLaws.BurstDetectionExact | UPZP-GameProcess/inc/CRC.h:613-668 | all changes within one CRC width are detected if and only if the polynomial has an x^0 term |
| CrcLaws.ByteBurstChangesRemainder | UPZP-GameProcess/inc/CRC.h:613-668 | any change confined to width / 8 consecutive bytes changes the remainder |
| CrcLaws.ByteBurstChangesChecksum | UPZP-GameProcess/inc/CRC.h:434-441 | and therefore the checksum |
| CrcLaws.BitBurstChangesChecksum | UPZP-GameProcess/inc/CRC.h:434-441 | any change within one CRC width of transmitted bits changes the checksum |
| CrcLaws.ZeroResidue | UPZP-GameProcess/inc/CRC.h:613-639 | data followed by a stored check leaves zero if and only if the check is the data's remainder |
| CrcParity.StepKeepsParity | UPZP-GameProcess/inc/CRC.h:622-637 | when the generator has an even number of terms a register step keeps the parity of the register |
| CrcParity.RemainderParity | UPZP-GameProcess/inc/CRC.h:613-668 | the remainder then has the parity of data and start value together |
| CrcParity.EvenTermsNeeded | UPZP-GameProcess/inc/CRC.h:613-668 | any other generator has two strings that differ in an odd number of bits and are never told apart, whatever the start value |
| CrcParity.OddDetectionExact | UPZP-GameProcess/inc/CRC.h:613-668 | all errors of an odd number of bits are detected if and only if the generator has an even number of terms |
| CrcParity.OddDetectionInUse | UPZP-GameProcess/inc/CRC.h:1162-1166 | CRC-16/ARC detects all of them, CRC-32 does not |
| Frame.NumberRoundTrip | UPZP-GameProcess/datagram/datagram.cpp:151-153 | the four length bytes and the number determine each other |
| Frame.StoredPair | UPZP-GameProcess/datagram/datagram_stream.cpp:58-62 | two stored checksum bytes are read little-endian |
| Frame.StoredNumber | UPZP-GameProcess/datagram/datagram.cpp:36-60 | so are four bytes |
| Frame.HeaderInBytes | UPZP-GameProcess/datagram/datagram_stream.cpp:49-63 | a header is correct if and only if it opens with DA AB and its last two bytes, little-endian, are the CRC-16/ARC of those before them, with twelve or sixteen bytes by bit 7 of byte 3 |
| CrcCheck.KnownHeader | UPZP-GameProcess/datagram/datagram_stream.cpp:49-63 | DA AB 0A 00 00 00 00 00 00 00 2F C1 is a correct header |
| Frame.LoadedInBytes | UPZP-GameProcess/datagram/datagram.cpp:17-74 | which bytes each loaded field is read from |
| Frame.PrintedInBytes | UPZP-GameProcess/datagram/datagram.cpp:139-177 | every byte of a printed message, checksums included |
| Frame.SerializeIsFrame | UPZP-GameProcess/datagram/datagram.cpp:139-177 | whatever is printed opens with a correct header that announces its exact length, whatever follows |
| Frame.SerializeCarries | UPZP-GameProcess/datagram/datagram.cpp:139-177 | every field of the message stands where the parser looks for it |
| Frame.ParseAfterPrint | UPZP-GameProcess/datagram/datagram.cpp:17-93 | parsing what was printed restores flag and payload, passes the payload check, and restores the version if and only if it is below 256 |
| Frame.PrintAfterParse | UPZP-GameProcess/datagram/datagram.cpp:139-177 | printing what was parsed reproduces the frame if and only if its spare bits are clear and its payload is correct |
| DatagramObject.Datagram.Load | UPZP-GameProcess/datagram/datagram.cpp:17-74 | succeeds if and only if a correct header and its whole payload are there; which failure for which buffer; the fields after success and after each failure |
| DatagramObject.LengthCheckWraps | UPZP-GameProcess/datagram/datagram.cpp:70 | a correct 12-byte header exists whose length passes the 32-bit check without its payload being there |
| DatagramObject.WidthMatters | UPZP-GameProcess/datagram/datagram_stream.cpp:109-121 | were the frame length kept in 32 bits, the bytes handed to `Load` would hold a correct header if and only if it is below 2^32 |
| DatagramObject.Datagram.PayloadCorrectness | UPZP-GameProcess/datagram/datagram.cpp:83-93 | true if and only if the length agrees and, if flagged, the stored checksum is the CRC-32 of the payload |
| DatagramObject.Datagram.SetVersion | UPZP-GameProcess/datagram/datagram.cpp:111-113 | keeps the version modulo 2^15, negative arguments included |
| DatagramObject.Datagram.SetPayloadChecksum | UPZP-GameProcess/datagram/datagram.cpp:119-121 | sets the flag only |
| DatagramObject.Datagram.SetPayload | UPZP-GameProcess/datagram/datagram.cpp:128-133 | replaces payload and length together, or neither beyond 32 bits |
| DatagramObject.Datagram.Get | UPZP-GameProcess/datagram/datagram.cpp:139-177 | filling the buffer in place yields the serialization the round trips are about, of the version its 15 low bits; it points past the buffer if and only if the payload is empty |
| Scan.JudgeStable | UPZP-GameProcess/datagram/datagram_stream.cpp:71-125 | a decision taken on the bytes so far never changes when more arrive |
| Scan.ScanAppend | UPZP-GameProcess/datagram/datagram_stream.cpp:71-125 | scanning a + b is scanning a, then what it left together with b |
| Scan.ScanSettles | UPZP-GameProcess/datagram/datagram_stream.cpp:71-125 | what is left over is undecided |
| Scan.BytesConserved | UPZP-GameProcess/datagram/datagram_stream.cpp:71-125 | received = skipped + delivered in frames + left, and what is left is a suffix of what was received |
| ScanLaws.ChunkingIndependence | UPZP-GameProcess/main_process_comm/main_process_comm.cpp:169-186 | frames, skipped bytes and leftover are the same for every way of cutting the stream into chunks |
| ScanLaws.ScanIsLeftmost | UPZP-GameProcess/datagram/datagram_stream.cpp:30-125 | each frame starts at the least correct header at or after the end of the frame before it |
| ScanLaws.PlacedUnique | UPZP-GameProcess/datagram/datagram_stream.cpp:30-125 | that rule determines the frames: of two lists it allows, the shorter opens the longer |
| ScanLaws.HeldForOneFrame | UPZP-GameProcess/datagram/datagram_stream.cpp:90-122 | sixteen or more bytes stay undecided only for one incomplete frame, which starts at the least correct header behind the last frame delivered |
| ScanLaws.UndecidedRest | UPZP-GameProcess/datagram/datagram_stream.cpp:71-125 | between the last frame delivered and the undecided bytes no correct header begins |
| ScanLaws.HeldBackAt | UPZP-GameProcess/datagram/datagram_stream.cpp:90-122 | a complete frame at the next header in turn that is not delivered stands two or three bytes behind a flagged begin sequence, with 14 or 15 bytes undecided |
| ScanLaws.HeldBackExactly | UPZP-GameProcess/datagram/datagram_stream.cpp:90-122 | a complete frame is held back if and only if the undecided bytes have that form |
| ScanLaws.MessageHeldBack | UPZP-GameProcess/datagram/datagram_stream.cpp:90-122 | a whole printed message behind two stray bytes DA AB stays undelivered |
| ScanLaws.MessageReleased | UPZP-GameProcess/datagram/datagram_stream.cpp:90-122 | and is delivered once sixteen bytes are there and do not open with a correct header |
| ScanLaws.ScanIsLongest | UPZP-GameProcess/datagram/datagram_stream.cpp:30-125 | a longer list of frames obeys the leftmost rule if and only if the undecided bytes hold back a complete frame |
| ScanLaws.NothingLeft | UPZP-GameProcess/datagram/datagram_stream.cpp:109-115 | nothing stays undecided if and only if the last frame ends where the bytes end, or there are no bytes |
| ScanLaws.NoHeaderLost | UPZP-GameProcess/datagram/datagram_stream.cpp:71-125 | a discarded byte starts no correct header, however the stream continues |
| ScanLaws.FramesAreFramed | UPZP-GameProcess/datagram/datagram_stream.cpp:109-115 | everything delivered is one whole frame with a correct header |
| ScanLaws.SeenIndependent | UPZP-GameProcess/datagram/datagram.cpp:17-93 | version, payload and correctness seen do not depend on the datagram loaded before |
| ScanLaws.NoiseSkipped | UPZP-GameProcess/datagram/datagram_stream.cpp:76-88 | noise without the begin sequence is skipped completely in front of a frame |
| ScanLaws.NoiseAlone | UPZP-GameProcess/datagram/datagram_stream.cpp:79-82 | of noise alone exactly the last byte stays |
| ScanLaws.HarmlessSkipped | UPZP-GameProcess/datagram/datagram_stream.cpp:76-107 | noise is skipped completely in front of more bytes when it is quiet, or when no correct header begins in it and at least fifteen bytes follow; it may hold begin sequences |
| ScanLaws.FrameDelivered | UPZP-GameProcess/datagram/datagram_stream.cpp:90-115 | a printed message in front of anything is delivered as it is |
| ScanLaws.FramesDelivered | UPZP-GameProcess/datagram/datagram_stream.cpp:71-125 | whole frames with such noise in front of each arrive unchanged and in order, and the bytes behind them are scanned as if they came alone |
| ScanLaws.LosslessThroughNoise | UPZP-GameProcess/datagram/datagram_stream.cpp:71-125 | printed messages arrive all, in order and correct, through noise that may hold begin sequences, whatever follows them |
| ScanLaws.Lossless | UPZP-GameProcess/datagram/datagram_stream.cpp:71-125 | printed messages with quiet noise around them arrive all, in order, correct, with nothing else |
| ScanLaws.LosslessInChunks | UPZP-GameProcess/main_process_comm/main_process_comm.cpp:169-186 | the same for every way of cutting the stream |
| Stream.DatagramStream.FindBeginSequence | UPZP-GameProcess/datagram/datagram_stream.cpp:30-40 | returns the first begin sequence, or reports that there is none; says when the buffer it searched was empty |
| Stream.DatagramStream.HeaderCorrect | UPZP-GameProcess/datagram/datagram_stream.cpp:49-63 | true if and only if a correct header stands at the front |
| Stream.DatagramStream.SkipToBeginSequence | UPZP-GameProcess/datagram/datagram_stream.cpp:76-88 | drops only bytes the scan skips and stops at a begin sequence or with at most one byte; says when the buffer was empty |
| Stream.DatagramStream.CheckHeader | UPZP-GameProcess/datagram/datagram_stream.cpp:96-107 | accepts a correct header unchanged, else drops one byte the scan skips |
| Stream.DatagramStream.ReadHeader | UPZP-GameProcess/datagram/datagram_stream.cpp:76-107 | the states before the payload drop only bytes the scan skips, reject a header at the cost of one byte, and otherwise end where more bytes or the payload are needed |
| Stream.DatagramStream.DecodePayload | UPZP-GameProcess/datagram/datagram_stream.cpp:109-121 | loads and cuts off the first frame; loading never fails there |
| Stream.DatagramStream.FlushData | UPZP-GameProcess/datagram/datagram_stream.cpp:71-125 | keeps the state invariant, ends, and either takes the scan's first frame or leaves exactly what the scan leaves; it searches an empty buffer if and only if it is entered with one |
| Stream.DatagramStream.AddData | UPZP-GameProcess/datagram/datagram_stream.cpp:17-21 | the same for the buffer with the new bytes behind it |
| MainProcess.MainProcessComm.Handle | UPZP-GameProcess/main_process_comm/main_process_comm.cpp:170-185 | logs the decoded datagram, and hands its payload on if and only if that is correct and of version 10 |
| MainProcess.MainProcessComm.Process | UPZP-GameProcess/main_process_comm/main_process_comm.cpp:169-186 | the handler's decoding and draining of one chunk does what the scan of all bytes does, and searches an empty buffer if and only if that scan leaves nothing |
| MainProcess.MainProcessComm.Receive | UPZP-GameProcess/main_process_comm/main_process_comm.cpp:169-186 | after every chunk, log, client lists, buffer and state are those of the scan of all bytes received; an empty buffer was searched in it if and only if they leave nothing undecided |
| MainProcess.EmptySearchedExactly | UPZP-GameProcess/datagram/datagram_stream.cpp:30-88 | a connection has searched an empty buffer if and only if some chunk ended where a frame of the stream ends, or no byte had arrived by then |
| MainProcess.MessagesClearBuffer | UPZP-GameProcess/main_process_comm/main_process_comm.cpp:169-186 | a chunk that ends with a whole message leads to such a search |
| MainProcess.OneMessageClearsBuffer | UPZP-GameProcess/main_process_comm/main_process_comm.cpp:169-186 | so does one printed message in one chunk |
| MainProcess.FrameShortens | UPZP-GameProcess/main_process_comm/main_process_comm.cpp:177-185 | each decoded datagram takes at least 12 bytes out of the buffer, so draining ends |
| MainProcess.ChunksDoNotMatter | UPZP-GameProcess/main_process_comm/main_process_comm.cpp:154-190 | two connections that received the same bytes agree in log, client lists, buffer and state |
| MainProcess.MessagesArrive | UPZP-GameProcess/main_process_comm/main_process_comm.cpp:154-190 | a connection that received printed messages through noise has logged exactly those messages |
| MainProcess.ClientListsExact | UPZP-GameProcess/main_process_comm/main_process_comm.cpp:63-65 | the lists handed on are the payloads of exactly the log entries that are correct and of version 10, in their order |
| MainProcess.ClientListsOf | UPZP-GameProcess/main_process_comm/main_process_comm.cpp:169-186 | in every connection |
| MainProcess.MessagesHandedOn | UPZP-GameProcess/main_process_comm/main_process_comm.cpp:169-186 | of messages sent through quiet noise exactly the payloads of version 10 modulo 256 are handed on |
| MainProcess.DamageNotHandedOn | UPZP-GameProcess/main_process_comm/main_process_comm.cpp:169-186 | with one checksummed payload damaged within 32 bits, that one is not handed on and the others are as before |
| Corruption.PayloadBurstRejected | UPZP-GameProcess/datagram/datagram.cpp:83-93 | a checksummed payload altered only within 32 consecutive bits, wherever bytes end, is reported incorrect |
| Corruption.ShortPayloadChangeRejected | UPZP-GameProcess/datagram/datagram.cpp:83-93 | any change to a checksummed payload of at most four bytes is reported incorrect |
| Corruption.PayloadDamageReported | UPZP-GameProcess/datagram/datagram.cpp:17-93 | the same for a payload inside a whole frame, which is still read as a frame |
| Corruption.OneReplacedPayload | UPZP-GameProcess/datagram/datagram_stream.cpp:71-125 | of messages sent through quiet noise with any one payload replaced by one of its length, that one is delivered with the new payload, as correct if and only if nothing is checked or the checksums agree, and all others as they were sent |
| Corruption.OneDamagedPayload | UPZP-GameProcess/datagram/datagram_stream.cpp:71-125 | with one checksummed payload altered within 32 consecutive bits, that message is delivered as incorrect and all others as they were sent |
| Corruption.HeaderResidue | UPZP-GameProcess/datagram/datagram_stream.cpp:49-63 | a header is correct if and only if its CRC-16 register, checksum included, ends at zero |
| Corruption.HeaderBurstRejected | UPZP-GameProcess/datagram/datagram_stream.cpp:49-63 | a header altered only within 16 consecutive bits, flag bit apart, is not correct |
| Corruption.CorrectHeaderIsEven | UPZP-GameProcess/datagram/datagram_stream.cpp:49-63 | in a correct header an even number of bits is set |
| Corruption.OddHeaderDamageRejected | UPZP-GameProcess/datagram/datagram_stream.cpp:49-63 | a header with an odd number of flipped bits anywhere, flag bit apart, is not correct |
| Corruption.OneLostMessage | UPZP-GameProcess/datagram/datagram_stream.cpp:71-125 | when no correct header begins in the bytes put in place of one frame or in the noise before it, exactly that message is missing and all others arrive |
| Corruption.OneDamagedHeader | UPZP-GameProcess/datagram/datagram_stream.cpp:71-125 | so with a header damaged by an odd number of flips or within 16 consecutive bits, provided no other correct header has come up in its place |
| Geometry.NearestAttained | UPZP-GameProcess/game_logic/game.cpp:167-191 | the point measured to lies on the move, a move of zero length included |
| Geometry.NearestIsLeast | UPZP-GameProcess/game_logic/game.cpp:157-196 | no point of the move is nearer to the box |
| Geometry.WithinReach | UPZP-GameProcess/game_logic/game.cpp:136-137 | the computed distance is below a bound if and only if some moment of the move is |
| GameObjects.Team.AddPlayer | UPZP-GameProcess/game_logic/team.cpp:9-11 | appends the player |
| GameObjects.Team.GetScore | UPZP-GameProcess/game_logic/team.cpp:17-23 | the sum of the players' points |
| GameObjects.Team.SetPlayerInput | UPZP-GameProcess/game_logic/team.cpp:29-36 | changes the input of one player as the specification says |
| GameLaws.FirstWithIdHears | UPZP-GameProcess/game_logic/team.cpp:29-36 | exactly the first player with the id takes the input over |
| GameObjects.Team.GenerateView | UPZP-GameProcess/game_logic/team.cpp:45-54 | score and player views in order |
| GameObjects.Game.SetPlayerInput | UPZP-GameProcess/game_logic/game.cpp:24-27 | both teams hear the input |
| GameObjects.Game.AddPlayer | UPZP-GameProcess/game_logic/game.cpp:36-51 | appends a player with its name, id, vehicle and place, without points or input, to the chosen team; the other team stays |
| GameObjects.Game.RedTeamWon | UPZP-GameProcess/game_logic/game.cpp:57-59 | red score has reached the goal |
| GameObjects.Game.BlueTeamWon | UPZP-GameProcess/game_logic/game.cpp:65-67 | blue score has reached the goal |
| GameObjects.Game.GeneratePointBox | UPZP-GameProcess/game_logic/game.cpp:72-85 | appends one box worth 100 |
| GameObjects.Game.CheckForPointBox | UPZP-GameProcess/game_logic/game.cpp:132-145 | erasing while iterating leaves the boxes out of reach and returns the value of the others |
| GameLaws.KeptExact | UPZP-GameProcess/game_logic/game.cpp:132-145 | what is left are exactly the boxes out of reach, in their original order |
| GameLaws.SweepPartition | UPZP-GameProcess/game_logic/game.cpp:132-145 | boxes left and boxes taken make up the boxes there were, each once |
| GameLaws.TakenOnTheWay | UPZP-GameProcess/game_logic/game.cpp:132-145 | a box is taken if and only if some moment of the move is within five metres of it |
| GameObjects.Game.CalculatePlayerMovement | UPZP-GameProcess/game_logic/game.cpp:101-121 | moves one player, adds the points it collects, and removes those boxes |
| GameObjects.Game.MovePlayers | UPZP-GameProcess/game_logic/game.cpp:91-94 | the players of a team move one after the other |
| GameObjects.Game.CalculateMovement | UPZP-GameProcess/game_logic/game.cpp:90-95 | red moves first, then blue on the boxes that are left |
| GameRuns.ReachInMetres | UPZP-GameProcess/game_logic/game.cpp:157-221 | a box is in reach if and only if at some moment of the move the distance, by the metre formulas with 40075 km and 111320 m, is below 5 |
| GameRuns.PlayersAfterTick | UPZP-GameProcess/game_logic/game.cpp:101-121 | in a tick every player with `move` is carried its speed (5.0, 9.0 or 13.88) times dt in its direction and credited that distance, every other one stays; name, id, vehicle and input never change |
| GameLaws.FirstToPassTakes | UPZP-GameProcess/game_logic/game.cpp:90-121 | each player gets every copy of the boxes it is the first of its team to pass, and no other box |
| GameLaws.RedShare | UPZP-GameProcess/game_logic/game.cpp:90-121 | in a whole tick a red player gains exactly the boxes that no red player before it passes |
| GameLaws.BlueShare | UPZP-GameProcess/game_logic/game.cpp:90-121 | in a whole tick a blue player gains exactly the boxes that no red player and no blue player before it passes |
| GameLaws.TickPartition | UPZP-GameProcess/game_logic/game.cpp:90-145 | in a whole tick the boxes left and those taken by all red and blue players make up the boxes there were, each once |
| GameLaws.SurvivingBoxes | UPZP-GameProcess/game_logic/game.cpp:90-121 | a box survives a tick, in all its copies, if and only if no player of either team passes it |
| GameLaws.CollectConserves | UPZP-GameProcess/game_logic/game.cpp:119-121 | a player's gain is exactly the value that leaves the map |
| GameObjects.GameLogic.constructor | UPZP-GameProcess/game_logic/game_logic.cpp:16-42 | an empty game whose last spawn is the time of its making |
| GameObjects.GameLogic.AddPlayer | UPZP-GameProcess/game_logic/game_logic.cpp:49-55 | one join step |
| GameObjects.GameLogic.SetPlayerMovement | UPZP-GameProcess/game_logic/game_logic.cpp:136-142 | one input step |
| GameObjects.GameLogic.Tick | UPZP-GameProcess/game_logic/game_logic.cpp:87-100 | one tick step: spawn if more than a period has passed, move all, count |
| GameObjects.GameLogic.GameFinished | UPZP-GameProcess/game_logic/game_logic.cpp:109-114 | some team has reached the goal |
| GameObjects.GameLogic.GetGameStatus | UPZP-GameProcess/game_logic/game_logic.cpp:122-128 | the snapshot of the guarded state |
| GameRuns.EventOnTeams | UPZP-GameProcess/game_logic/game_logic.cpp:49-142 | what each locked step does to each team: a join appends the new player to the chosen team, an input reaches the first player with its id in both teams, a tick moves all, nothing else changes a team |
| GameRuns.BoxesOnlyByTicks | UPZP-GameProcess/game_logic/game_logic.cpp:49-142 | no locked step but a tick changes the boxes |
| GameRuns.RosterIsJoins | UPZP-GameProcess/game_logic/game_logic.cpp:49-55 | over every run a team is those it had and those who joined it, in order |
| GameRuns.StillPlayerStays | UPZP-GameProcess/game_logic/game.cpp:101-121 | over every run a player that never hears an order to move keeps its place |
| GameRuns.SequenceCountsTicks | UPZP-GameProcess/game_logic/game_logic.cpp:87-100 | over every run the sequence number counts the ticks |
| GameRuns.SpawnClock | UPZP-GameProcess/game_logic/game_logic.cpp:90-94 | over every run boxes appear more than a period apart, and the last of their times is what the game remembers |
| GameRuns.SpawnsWhenDue | UPZP-GameProcess/game_logic/game_logic.cpp:90-94 | a tick brings a box if and only if it comes more than a period after the last one |
| GameRuns.ScoreIsSum | UPZP-GameProcess/game_logic/team.cpp:17-23 | a score adds up the points of the players and nothing else |
| GameRuns.CheckStops | UPZP-GameProcess/game_logic/game_logic.cpp:66-69 | the loop ends at a check if and only if either team has reached the goal or it was told to stop |
| GameRuns.TerminateStops | UPZP-GameProcess/game_logic/game_logic.cpp:66-74 | once told to stop, the game makes at most one more tick |
| GameRuns.SnapshotShows | UPZP-GameProcess/game_logic/game.cpp:231-253 | a snapshot shows each team with its score and its players field by field, the boxes, the sequence number, and whether either team has won |
| GameLaws.StepConserves | UPZP-GameProcess/game_logic/game_logic.cpp:49-142 | every locked step keeps the balance of points and lets no score fall |
| GameLaws.RunPartition | UPZP-GameProcess/game_logic/game.cpp:90-145 | over every run the boxes generated are the boxes left and all boxes taken by all players in all ticks, each once |
| GameLaws.PointsConserved | UPZP-GameProcess/game_logic/game.cpp:90-145 | in every run red score + blue score + boxes left = 100 times the boxes generated |
| GameLaws.EarliestWin | UPZP-GameProcess/game_logic/game_logic.cpp:87-114 | a win needs ceil(goal / 100) boxes, and more than that many periods since the game was made |
| GameLaws.SnapshotsProgress | UPZP-GameProcess/game_logic/game_logic.cpp:122-128 | along a run sequence number and scores never fall and a finished game stays finished |
| GameLaws.SameSequenceSameContent | UPZP-GameProcess/game_logic/game.cpp:231-253 | without a join, equal sequence numbers mean equal snapshots, whatever inputs arrived |
| GameLaws.WinFreezesGame | UPZP-GameProcess/game_logic/game_logic.cpp:65-74 | after a win no tick follows: boxes, scores, positions and sequence number stay |
| ClientInput.ClientUdp.constructor | UPZP-GameProcess/client_communication/client_udp.cpp:13-21 | a still input and sequence number 0 |
| ClientInput.ClientUdp.DecodeDatagram | UPZP-GameProcess/client_communication/client_udp.cpp:37-54 | throws, reads outside the buffer, or returns, each if and only if its condition on the buffer holds; accepts if and only if it is a newer report for this client, and changes nothing else |
| ClientInput.DatagramIgnored | UPZP-GameProcess/client_communication/client_udp.cpp:37-54 | a datagram that is no whole correct frame, not of version 101 or for another client leaves no trace in any run |
| ClientInput.DatagramHeard | UPZP-GameProcess/client_communication/client_udp.cpp:44-48 | any other is acted on if and only if it is newer than all before, and then in full |
| ClientInput.LastSequenceIsMaximum | UPZP-GameProcess/client_communication/client_udp.cpp:44-48 | after any run the sequence number is the highest among the whole correct frames of version 101 for the client, and the input is what one of those asks for; 0 and a still input without any |
| ClientInput.OrderAndCopiesDoNotMatter | UPZP-GameProcess/client_communication/client_udp.cpp:37-54 | runs with the same reports in any order and number end with the same input and sequence number, provided the reports with the highest sequence number agree |
| ClientInput.OrderFreeExactly | UPZP-GameProcess/client_communication/client_udp.cpp:37-54 | every order of a run ends alike if and only if the reports with the highest nonzero sequence number ask for the same move and direction |
| ClientInput.AcceptedIncrease | UPZP-GameProcess/client_communication/client_udp.cpp:44-48 | accepted sequence numbers strictly increase |

## Left out

- Stream.DatagramStream.FindBeginSequence: on an empty buffer the contract states the documented outcome, not found, since C++ leaves the original's undefined; when that happens is stated exactly.
- Stream.DatagramStream.SkipToBeginSequence: on an empty buffer, likewise, nothing is erased.
- Stream.DatagramStream.FlushData: entered with an empty buffer it is described as if that search had the documented outcome.
- MainProcess.MainProcessComm.Receive: after such a search the state described is that of the documented outcome.
- DatagramObject.Datagram.Load: the host is little-endian and unaligned reads succeed; where the original would copy beyond the caller's buffer the model ends with `OutOfBuffer` and says nothing about the copied bytes.
- ClientInput.ClientUdp.DecodeDatagram: a datagram that ends `Load` with `OutOfBuffer` gives `ReadOutside`, and nothing is said of what the copied bytes decode to; the FlatBuffers payload decoder is a given total function.
- CRC widths below 8 bits, registers wider than their CRC with the masks they need, and the branchless build option: none is compiled here.
- The check values of the parameter sets of CRC.h that this program does not use.
- Fields of a datagram object before they are first set are indeterminate in the original and arbitrary here; `Payload` and `Version` only return a field.
- GameObjects.GameLogic.constructor: stands for construction followed by `NewGame`; calls made before there is a game do nothing in the original and are not modelled.
- Corruption.OneDamagedHeader: says what arrives once at least fifteen bytes follow the damaged frame; before that the scan may still be waiting.
- Threads, mutexes, timers and sockets: each locked operation is one step, the tick loop of `StartGame` is the pair of steps Tick and Check of `GameLaws.Next`, and restarting a stopped game is not modelled.
- Wrap-around of scores, point values and the snapshot sequence number at 64 bits.
- Floating-point rounding: positions, times and distances are exact reals; distances are compared as squares.
- Cosine, the formula for the position reached by a move, and the random places of players and boxes are given from outside.
- FlatBuffers building, game statistics in MySQL, command-line settings, map tables, the client registry and the communication mockers.
