# RS485 protocol core in Dafny

This project models the protocol core of the RS485 WinForms tool
(`RS485_WinForms/RS485_protocol.cs`). The form talks to an RS485 device
that sends 16-byte status frames. It sends 16-byte command frames back and
runs a dual "automatic mode". Six parts are modelled:

- **`Crc16`** (`crc16.dfy`): the CRC-16/BUYPASS checksum.
  - The class `Crc16Buypass` fills the 256-entry table with the source's
    nested loops and folds it over a byte sequence.
  - The table-driven checksum is proved equal to the bit-by-bit shift
    register of the CRC catalogue (polynomial 0x8005, initial value 0, no
    reflection, no final xor).
  - The catalogue check value 0xFEE8 for ASCII "123456789" is proved.
  - `bv16` arithmetic gives exactly the truncation of the source's `ushort` casts.
- **`Frame`** (`frame.dfy`): the byte layout of both directions.
  - Encoding: `Encode` is the layout of a command frame,
    `[0x22, 0x10, 0x03, 0x85, payload(9), CRC high, CRC low, 0x33]`, with the
    CRC over bytes 1 to 12. `WellFormed` and `PayloadOf` are its inverse, with
    a round trip in both directions. `BuildPacket` is the array-filling part
    of `SendPacket`, proved equal to `Encode`.
  - Receiving: `Resync` is the receive loop's resynchronising scan as a
    function. Its lemmas show that it loses and reorders nothing, that every
    frame is 16 bytes starting with 0x44, that every dropped byte is not
    0x44, what the residue is, and that how the bytes are split into
    deliveries does not change the frames.
- **`Automation`** (`automation.dfy`): the two press-release-press channels
  as pure functions.
  - The handlers, the end of a break and the polling tick's choice of payload.
  - Mutual exclusion of the channels.
  - Full channel cycles.
- **`Controller`** (`controller.dfy`): the form as a class, `ProtocolForm`.
  - Fields: the receive buffer, both channel stages, the running flag, whether
    the port is open, the CRC table, and a ghost log `sent` of every frame
    written to the port.
  - Each event handler is a method proved against the functions above.
    `DataReceived` ignores an empty delivery and otherwise runs the receive
    loop (`ConsumeFrames`) on the buffer, with loop invariants tying it to
    `Frame.Resync` and `Automation.OnPackets`.
- **`Wrappers`** (`wrappers.dfy`): `Option`.
- **`Sequences`** (`sequences.dfy`): small facts about sequence
  concatenation and slicing that the other proofs call.

The class invariant `Valid()` holds the CRC table's correctness, the mutual
exclusion of the two channels, and a receive buffer shorter than one frame.
Every public method keeps it. Inside a delivery the buffer may be longer;
the methods that run there (the handlers, sending) need only the first two
parts, `Consistent()`.

Three behaviours of the code are modelled as written:

1. Stopping the automatic mode only clears the running flag (line 335). The
   channel stages are kept.
2. A buffer shorter than 16 bytes is never examined (line 410). A short tail
   made only of noise therefore stays in the buffer.
3. While a channel is breaking, the polling tick sends the all-zero status
   request (lines 139-158).

## Model

| member | source | states |
|---|---|---|
| Crc16.TableEntry | RS485_WinForms/RS485_protocol.cs:33-47 | definition: table entry `i` is the register loaded with `i << 8` and clocked eight times (shift left, xor 0x8005 when the top bit was set), truncated to 16 bits |
| Crc16.TableUpdate | RS485_WinForms/RS485_protocol.cs:56 | definition: one table step, `(crc << 8) ^ Table[(crc >> 8) ^ b]` on 16 bits |
| Crc16.Checksum | RS485_WinForms/RS485_protocol.cs:51-59 | definition: the table step folded over the bytes from 0, first byte first; `ChecksumIsBitwise` states what it equals |
| Crc16.BitwiseCrc | RS485_WinForms/RS485_protocol.cs:24-59 | definition: the catalogue CRC-16/BUYPASS, each byte xored into the high half and the register clocked eight times; the reference the table-driven checksum is proved against |
| Crc16.TableUpdateIsBitwise | RS485_WinForms/RS485_protocol.cs:29-59 | one table lookup step `(crc << 8) ^ Table[((crc >> 8) ^ b) & 0xFF]` equals xoring the byte into the high half and clocking the MSB-first 0x8005 register eight times, for every register value and byte |
| Crc16.ChecksumIsBitwise | RS485_WinForms/RS485_protocol.cs:51-59 | the table-driven checksum equals the catalogue bit-by-bit CRC-16/BUYPASS for every input |
| Crc16.ChecksumPrefix | RS485_WinForms/RS485_protocol.cs:53-57 | the checksum of one more byte is the table update of the checksum of the prefix |
| Crc16.CheckValue | RS485_WinForms/RS485_protocol.cs:24-59 | the checksum of ASCII "123456789" is 0xFEE8, by both definitions |
| Crc16.SlotStepClocks | RS485_WinForms/RS485_protocol.cs:37-45 | one pass of the inner loop clocks the register `value ^ temp` once |
| Crc16.SlotIsTableEntry | RS485_WinForms/RS485_protocol.cs:33-47 | eight passes of the inner loop for index `i` leave table entry `i` (the register loaded with `i << 8` clocked eight times) in `value` |
| Crc16.Crc16Buypass.TableSlot | RS485_WinForms/RS485_protocol.cs:33-47 | the inner loop returns table entry `i` |
| Crc16.Crc16Buypass.constructor | RS485_WinForms/RS485_protocol.cs:29-49 | after the outer loop every one of the 256 slots holds its table entry |
| Crc16.Crc16Buypass.ComputeChecksum | RS485_WinForms/RS485_protocol.cs:51-59 | the fold over the table returns the CRC-16/BUYPASS of the bytes |
| Frame.Encode | RS485_WinForms/RS485_protocol.cs:380-389 | the command frame of a payload is 16 bytes: header, payload, big-endian CRC of bytes 1 to 12, trailer |
| Frame.WellFormed | RS485_WinForms/RS485_protocol.cs:380-389 | definition: 16 bytes, the fixed header and trailer, and CRC bytes equal to the checksum of bytes 1 to 12 |
| Frame.PayloadOf | RS485_WinForms/RS485_protocol.cs:380-389 | a payload is found exactly when the frame is well formed, and it encodes back to that very frame |
| Frame.Pad | RS485_WinForms/RS485_protocol.cs:380-387 | a payload of up to nine bytes copied into the zeroed field keeps its bytes and is zero after them |
| Frame.PadFull | RS485_WinForms/RS485_protocol.cs:384 | a nine-byte payload is copied unchanged |
| Frame.CrcBytes | RS485_WinForms/RS485_protocol.cs:388 | the high and low CRC bytes recombine big-endian to the CRC |
| Frame.EncodeWellFormed | RS485_WinForms/RS485_protocol.cs:380-389 | every encoded frame has the fixed header and trailer, a CRC field equal to the checksum of bytes 1 to 12, and gives its payload back |
| Frame.WellFormedIsEncoded | RS485_WinForms/RS485_protocol.cs:380-389 | every well-formed frame is the encoding of its payload, so the encoding is the only well-formed frame for a payload |
| Frame.NewBytes | RS485_WinForms/RS485_protocol.cs:380 | a new byte array is all zeros |
| Frame.BlockCopy | RS485_WinForms/RS485_protocol.cs:384 | the source bytes land from the offset on and the rest of the array is unchanged |
| Frame.CrcBuffer | RS485_WinForms/RS485_protocol.cs:382-384 | the twelve-byte buffer is `[0x10, 0x03, 0x85]` followed by the padded payload |
| Frame.FrameBuffer | RS485_WinForms/RS485_protocol.cs:386-389 | the sixteen-byte buffer is the frame layout around the padded payload and the CRC bytes |
| Frame.BuildPacket | RS485_WinForms/RS485_protocol.cs:380-389 | the bytes built are the encoding of the padded payload; they are well formed and give the payload back |
| Frame.Resync | RS485_WinForms/RS485_protocol.cs:410-426 | the scan of a buffer: one dropped run before each frame cut out and one more at the end, then the residue kept |
| Frame.FindIndex | RS485_WinForms/RS485_protocol.cs:412 | the result is -1 or an index holding the byte sought |
| Frame.FindIndexFirst | RS485_WinForms/RS485_protocol.cs:412 | the result is -1 exactly when the byte is absent, and no earlier index holds it |
| Frame.ResyncRebuilds | RS485_WinForms/RS485_protocol.cs:410-426 | the dropped runs and the frames in turn, then the residue, are exactly the buffer: nothing is lost or reordered |
| Frame.ResyncFramesAnchored | RS485_WinForms/RS485_protocol.cs:412-416 | every frame cut out is 16 bytes and starts with 0x44 |
| Frame.ResyncGapsClean | RS485_WinForms/RS485_protocol.cs:412-414 | no dropped byte (trimmed prefix or cleared buffer) is 0x44 |
| Frame.ResyncResidueShort | RS485_WinForms/RS485_protocol.cs:410 | fewer than 16 bytes remain after the scan |
| Frame.ShortBufferKept | RS485_WinForms/RS485_protocol.cs:410 | a buffer under 16 bytes yields no frame and is left exactly as it was |
| Frame.NoStxCleared | RS485_WinForms/RS485_protocol.cs:413 | a buffer of 16 or more bytes without 0x44 is emptied and yields no frame |
| Frame.ResidueShape | RS485_WinForms/RS485_protocol.cs:410-415 | the residue is empty, starts with 0x44, or is an unexamined short tail right after the last frame |
| Frame.SkipNoise | RS485_WinForms/RS485_protocol.cs:412-414 | bytes without 0x44 in front of the stream do not change the frames |
| Frame.PartialFrameKept | RS485_WinForms/RS485_protocol.cs:414-415 | when fewer than 16 bytes follow the first 0x44, no frame is cut and the bytes from that 0x44 on stay |
| Frame.FullFrameCut | RS485_WinForms/RS485_protocol.cs:412-426 | otherwise the first frame is the 16 bytes at the first 0x44 and the scan goes on after them |
| Frame.ResyncChunked | RS485_WinForms/RS485_protocol.cs:408-426 | scanning a delivery, then its residue followed by the next delivery, yields the frames of scanning both deliveries at once |
| Frame.TwoFramesBehindNoise | RS485_WinForms/RS485_protocol.cs:410-426 | `[0xFF, 0xFF] ++ frame1 ++ [0xFF] ++ frame2` yields exactly `[frame1, frame2]` |
| Frame.TwoFramesAnySplit | RS485_WinForms/RS485_protocol.cs:408-426 | split into two deliveries at any point, mid-frame included, that stream still yields exactly `[frame1, frame2]` |
| Frame.TrimStep | RS485_WinForms/RS485_protocol.cs:412-414 | dropping the bytes before the first 0x44 of a full-length buffer changes neither the frames nor the residue |
| Frame.PacketStep | RS485_WinForms/RS485_protocol.cs:416-426 | a full-length buffer starting with 0x44 yields its first 16 bytes, then the frames of the rest |
| Automation.Detect | RS485_WinForms/RS485_protocol.cs:439-472 | one channel's press-release-press detector: a command goes out only on a press, the hold command from rest and the break command when armed, and a channel away from rest never returns to rest on a frame |
| Automation.Handle1 | RS485_WinForms/RS485_protocol.cs:434-473 | channel 1's handler never changes channel 2; it sends only hold 1 or break 1, only while channel 2 rests, and leaves channel 1 away from rest when it does |
| Automation.Handle2 | RS485_WinForms/RS485_protocol.cs:475-516 | channel 2's handler never changes channel 1; it sends only hold 2 or break 2, only while channel 1 rests, and leaves channel 2 away from rest when it does |
| Automation.OnPacket | RS485_WinForms/RS485_protocol.cs:421-425 | a frame goes through channel 1's handler, then channel 2's on what the first left; at most one command goes out |
| Automation.OnPackets | RS485_WinForms/RS485_protocol.cs:408-426 | frames handled in order; no more commands go out than frames came in |
| Automation.FinishBreak1 | RS485_WinForms/RS485_protocol.cs:464-466 | definition: the end of channel 1's break sends the all-zero reset and returns channel 1 to rest, channel 2 untouched |
| Automation.FinishBreak2 | RS485_WinForms/RS485_protocol.cs:507-509 | definition: the same for channel 2 |
| Automation.TickPayload | RS485_WinForms/RS485_protocol.cs:139-158 | the tick payload is hold 1, hold 2 or the all-zero status request; `TickChoice` states when each is chosen |
| Automation.HandlersKeepExclusive | RS485_WinForms/RS485_protocol.cs:437-478 | each handler, and both in turn, keep at least one channel at rest |
| Automation.OnPacketsKeepExclusive | RS485_WinForms/RS485_protocol.cs:421-426 | so does any run of frames |
| Automation.ResetIsExclusive | RS485_WinForms/RS485_protocol.cs:320-322 | starting the automatic mode leaves at most one channel away from rest |
| Automation.FinishBreak1KeepsExclusive | RS485_WinForms/RS485_protocol.cs:464-466 | the end of channel 1's break keeps the channels exclusive and leaves channel 2 as it was |
| Automation.FinishBreak2KeepsExclusive | RS485_WinForms/RS485_protocol.cs:507-509 | the end of channel 2's break keeps the channels exclusive and leaves channel 1 as it was |
| Automation.AtMostOneCommand | RS485_WinForms/RS485_protocol.cs:421-425 | one frame makes at most one command go out; it is hold 1 exactly when channel 1 leaves rest |
| Automation.Channel1Blocks2 | RS485_WinForms/RS485_protocol.cs:475-478 | while channel 1 is away from rest, a frame leaves channel 2 where it was, does not bring channel 1 back to rest, and sends neither of channel 2's commands |
| Automation.Channel2Blocks1 | RS485_WinForms/RS485_protocol.cs:434-437 | while channel 2 is away from rest, a frame leaves channel 1 where it was, does not bring channel 2 back to rest, and sends neither of channel 1's commands |
| Automation.OnPacketsAppend | RS485_WinForms/RS485_protocol.cs:410-426 | one more frame is handled from where the earlier ones left the channels |
| Automation.OnPacketsConcat | RS485_WinForms/RS485_protocol.cs:410-426 | handling two runs of frames in turn is handling their concatenation |
| Automation.TriggersDisjoint | RS485_WinForms/RS485_protocol.cs:76 | channel 1's trigger frame does not press channel 2 (its byte 10 is 0x12) |
| Automation.OnThree | RS485_WinForms/RS485_protocol.cs:421-425 | three frames handled in turn |
| Automation.Channel1Cycle | RS485_WinForms/RS485_protocol.cs:439-471 | from rest, press, release, press sends `[0,0x50,…]` then `[0,0xA0,…]` and leaves channel 1 breaking; the end of the break sends all zeros and returns to rest |
| Automation.Channel1HeldPress | RS485_WinForms/RS485_protocol.cs:441-470 | press, press, release, press sends the hold command once, then the break command |
| Automation.HeldSteps | RS485_WinForms/RS485_protocol.cs:441-470 | the four steps of that sequence, one at a time |
| Automation.Channel2Cycle | RS485_WinForms/RS485_protocol.cs:482-515 | the same cycle for channel 2 with `[0,0,0x05,…]` and `[0,0,0x0A,…]`, driven by byte 10 |
| Automation.Press2FromRest | RS485_WinForms/RS485_protocol.cs:484-490 | a channel 2 press at rest turns its vacuum on, channel 1 staying at rest |
| Automation.NoBreakWithoutRelease | RS485_WinForms/RS485_protocol.cs:449-455 | a held press does not arm the break: nothing changes and nothing is sent |
| Automation.BreakingIgnoresPackets | RS485_WinForms/RS485_protocol.cs:471 | while a channel breaks, frames change nothing and send nothing |
| Automation.TickChoice | RS485_WinForms/RS485_protocol.cs:139-158 | the tick sends hold 1 exactly while channel 1 holds the vacuum, hold 2 exactly while channel 1 rests and channel 2 holds, and the all-zero request otherwise |
| Controller.Wire | RS485_WinForms/RS485_protocol.cs:390 | the frames written for a run of payloads are their encodings, in order |
| Controller.ArrivalsCompose | RS485_WinForms/RS485_protocol.cs:399-427 | two deliveries handled by two receive events give the frames, the channel stages and the commands of one delivery of both |
| Controller.FramesLongEnough | RS485_WinForms/RS485_protocol.cs:480 | every frame cut out holds channel 2's trigger byte |
| Controller.ScanCleared | RS485_WinForms/RS485_protocol.cs:413 | clearing a buffer without 0x44 keeps the loop's account of the scan |
| Controller.ScanTrim | RS485_WinForms/RS485_protocol.cs:414 | so does trimming up to the first 0x44 |
| Controller.ScanAdvance | RS485_WinForms/RS485_protocol.cs:416-426 | cutting a frame moves it from the pending scan to the frames handled |
| Controller.ScanDone | RS485_WinForms/RS485_protocol.cs:410 | when the loop stops, the frames handled are all the frames of the scan and the buffer is its residue |
| Controller.HandledStep | RS485_WinForms/RS485_protocol.cs:421-425 | one more frame, handled only while running, extends the loop's account of the handlers |
| Controller.ProtocolForm.constructor | RS485_WinForms/RS485_protocol.cs:71-79 | empty buffer, both channels at rest, not running, nothing sent |
| Controller.ProtocolForm.SendPacket | RS485_WinForms/RS485_protocol.cs:375-397 | writes the encoding of the padded payload when the port is open and the payload fits; otherwise nothing |
| Controller.ProtocolForm.Send | RS485_WinForms/RS485_protocol.cs:375-390 | a nine-byte command goes out as its encoding when the port is open |
| Controller.ProtocolForm.HandleAutoMode1 | RS485_WinForms/RS485_protocol.cs:434-473 | the stages and the frames sent follow channel 1's handler |
| Controller.ProtocolForm.HandleAutoMode2 | RS485_WinForms/RS485_protocol.cs:475-516 | the stages and the frames sent follow channel 2's handler |
| Controller.ProtocolForm.FinishBreakTask1 | RS485_WinForms/RS485_protocol.cs:464-466 | sends the all-zero reset and returns channel 1 to rest |
| Controller.ProtocolForm.FinishBreakTask2 | RS485_WinForms/RS485_protocol.cs:507-509 | sends the all-zero reset and returns channel 2 to rest |
| Controller.ProtocolForm.PollingTimerTick | RS485_WinForms/RS485_protocol.cs:133-162 | while running on an open port, exactly one frame goes out, carrying the tick payload for the current stages; otherwise nothing |
| Controller.ProtocolForm.StartAutoMode | RS485_WinForms/RS485_protocol.cs:317-322 | on an open port the mode runs and both channels are at rest; on a closed port nothing changes |
| Controller.ProtocolForm.StopAutoMode | RS485_WinForms/RS485_protocol.cs:333-335 | only the running flag is cleared |
| Controller.ProtocolForm.Dispatch | RS485_WinForms/RS485_protocol.cs:421-425 | while running a frame goes through both handlers in turn; otherwise nothing changes |
| Controller.NothingArrived | RS485_WinForms/RS485_protocol.cs:404 | an empty delivery onto a short buffer yields no frame and leaves the buffer as it is |
| Controller.ProtocolForm.DataReceived | RS485_WinForms/RS485_protocol.cs:399-432 | the buffer ends as the residue of scanning the old buffer plus the delivery; while running, the stages and the frames sent are those of handling every frame of that scan in order; otherwise nothing else changes; an empty delivery changes nothing at all |
| Controller.ProtocolForm.ConsumeFrames | RS485_WinForms/RS485_protocol.cs:409-427 | the loop leaves the residue of scanning the buffer, under 16 bytes, and handles every frame of that scan in order while running |

## Left out

- User interface and logging: the layout, the command grid, the analysis labels, `Log`, and the description filter on logging at line 391. They change nothing on the wire.
- Serial port plumbing. `LoadPorts`, connecting, disconnecting, `BytesToRead`/`Read`, and closing the form are not modelled. Whether the port is open is a constructor parameter that stays fixed. A write is an append to the ghost log `sent`. A delivery is the `chunk` parameter of `DataReceived`.
- Sending a custom raw frame (lines 355-373). It parses hex text and writes it unchanged, without the frame encoder.
- Threading and time. `Task.Run`, `Task.Delay(1000)`, `Invoke` marshalling and the `volatile` flag are not modelled; every method is one atomic step.
- The break command is sent at the handler step. The source sends it first thing inside the task it starts.
- The rest of that task (the reset frame, then the channel back to rest) is `FinishBreakTask1`/`FinishBreakTask2`.
- Controller.ProtocolForm.FinishBreakTask1: has no precondition tying it to a pending break, so it may run at any time. This over-approximates when the continuation runs, and Stop does not cancel it either (the same holds for FinishBreakTask2).
- The polling timer's 100 ms period: a tick is a method the environment may call at any time.
- Exceptions other than the one the block copy throws for a payload over nine bytes. That one is modelled: nothing is sent.
- Controller.ProtocolForm.DataReceived: its loop cuts the same frames as the source but keeps the buffer as a `seq`, not as a `List` changed in place by `RemoveRange`/`Clear`.
