# A verified model of the Goodix GXFP51A0 "Milan-SPI" tools

The repository talks to a fingerprint sensor over SPI, from a Linux kernel driver and from a set of Python
tools, and takes the vendor's Windows driver apart to learn the protocol. This project models that code in
Dafny 4.11 and proves properties of the model. `dafny verify dfyconfig.toml` checks all of it.

| file | models |
|---|---|
| `Bits.dfy`, `Bytes.dfy`, `Masks.dfy` | shifts and masks on unbounded integers, bytes, byte sums; the proof that the arithmetic spelling used elsewhere equals the source's bit operators |
| `Codec.dfy`, `Detection.dfy` | the transport header and the inner message of `tools/gxfp.py`; which corruptions the receiver notices |
| `Wire.dfy` | `Sensor.send` and `Sensor.read_packet`: frames on the bus, reading whole streams back, and what a part hears of a bus with reads on it |
| `Rewrites.dfy` | the rewrites of the codec in `framing.py`, `refseq.py`, `dialects.py`, `sweep_low.py`, `cshigh_repro.py` |
| `HexText.dfy`, `Spelling.dfy`, `Driver.dfy` | the text formats of the debugfs files and `kernel/gxfp.c`, one call at a time, on arrays updated in place |
| `Interleaving.dfy` | every interleaving of the interrupt handler with any number of threads in the `cmd` and `raw` files: what every run keeps, and what the bus carries |
| `Schedules.dfy`, `Races.dfy`, `Alone.dfy` | runs of that model built step by step: the interrupt storm; when racing `raw` writes stay exact; one thread by itself compared with `Driver.dfy` |
| `PadProbe.dfy` | the pad sampler and the receiver-unlock attempt of the driver |
| `Snoop.dfy` | the sampling loop, event log and verdict of `spisnoop/spisnoop.c` |
| `Thumb.dfy`, `Pe.dfy`, `Pdata.dfy`, `Records.dfy` | the binary-analysis tools |
| `Gpio.dfy`, `Dump.dfy` | the polarity-inverting GPIO wrapper; the tail-collapsing dump |

Conventions. A byte is an integer from 0 to 255, and 8- and 16-bit truncation is written out. What the code
does not control (bytes that arrive, return codes of the bus, allocation, clocks, pin levels, the scheduler)
is a parameter or a step of a state machine. A bus is the list of its transactions, each given by the bytes
the host clocks out: a frame is two of them (one in the one-transfer style of `framing.py`), and a read is a
transaction of zeros, which the Python tools send explicitly and which the kernel documents for a transfer without
a transmit buffer. A part that has nothing more to say clocks out one idle byte for ever. `Listen` is what a part takes for command bodies when it
follows the transactions of a bus. `strim`, `strsep`, `kstrtouint`, `memdup_user_nul` and
`sprintf("%02x ")` are modelled as the kernel documents them, since the kernel is not part of the repository.
The interrupt handler is requested as a threaded one-shot handler, so it does not overlap itself.

What the proofs turned up:

- `parse_message` reads a zero length field as length -1 and takes the third byte for the checksum; such a
  body passes exactly when its command byte is 0xAA (`ZeroLengthField`).
- `Ref.read` of `refseq.py` does not test the packet type and so accepts headers the other readers refuse
  (`ReadersCompared`). `docs/PROTOCOL.md`, section 11.3, says an all-zero header fails the checksum test; it
  passes the sum, and is refused for its type or its zero length (`IdleRefusedByAll`).
- `parse_message` flags the GetMcuState packet of `refseq.py`, because the "checksum plus one" is the
  ordinary checksum of a command byte with bit 0 clear (`McuPacketIsMessage`); it passes only at times whose two
  bytes add up to 0x19 modulo 256 (`McuPacketFlagged`). The packet the source quotes is flagged (`McuExamples`).
- The `cmd` file takes any white space around its text and any blanks and tabs between payload bytes, but refuses two
  blanks between its first two fields (`AnyCmdText`, `DoubleBlankRefused`).
- Payload tokens after the 256th are dropped without an error by the `cmd` file (`CmdCapExact`).
- The `raw` file stores its tokens in the shared transmit buffer before it takes the mutex, so two writers can
  send each other's bytes (`RacingWriters`). Every write is exact in every run if and only if any two of the strings
  written agree as far as both go (`ExactIffAgreed`).
- A command without payload that fails between its header and its body leaves a header that announces four bytes,
  and the next header has four bytes. A part that pairs headers with bodies as `Listen` does (this project's own reader,
  since the repository has no code for the part) takes the one for the body of the other. `SwallowingRun` is such a
  run. It is the only way in which commands from many threads are not heard one by one
  (`ConcurrentCommandsDecode`; with `raw` transfers among them, `ConcurrentUnitsDecode`).
- A receive that fails in its body leaves the old length over new bytes (`ReadAfterFailure` says when the next read
  shows it, `StaleRead` is an instance).
- The mutex covers one read call. A transfer between two reads of one text makes the reader collect the text of
  neither buffer, unless the buffers agree on what the first read covered or on what it left (`TransferBetweenReads`).
  Cut between two bytes, what is collected is the text of a buffer that never was (`MixtureIsText`).
- The comment in `gxfp_isr` says userspace can re-arm the interrupt through debugfs. No file does: once the
  line is masked it stays so, and every later command waits out its timeout (`DisabledForGood`). `Storm` is a run
  that masks it, and `WakesExact` says exactly from which states `data_ready` can still be set.
- The verdict "CS is toggling" of `spisnoop` is about the whole register, not about chip select
  (`VerdictAboutChipSelect`, `TogglingWithoutToggle`).
- The LEA scan does not look at the last seven bytes of the section (`LastInstructionMissed`).
- The lookup in the function table can answer "past-end" for an address inside a function, exactly when some
  function outlasts one that starts after it and no further entry takes over there (`SearchExact`). With disjoint raw
  ranges, the round trip from file offsets to addresses and back fails exactly when a section is shadowed by an
  earlier one (`FileRoundTripExact`); with disjoint virtual ranges, the other round trip fails exactly when raw ranges
  overlap (`RvaRoundTripExact`).
- A firmware record is found if and only if its name has as many characters as bytes (`RecordFound`).
- The GPIO wrapper inverts Python truth while the plain line takes `v & 1`; they part on non-zero even values. A
  script also sees the wrapper when it reads line 264 before it has driven it (`WrapperMirrors`, `WrapperShows`).

## Model

| member | source | states |
|---|---|---|
| Masks.ByteFieldsAreMasks | tools/gxfp.py:24-32 | the low byte, high byte and little-endian pair of the model are the source's masks, shifts and `or` |
| Masks.TypeByteIsMask | tools/gxfp.py:23 | the type byte is `((ptype << 4) & 0xF0) \| (flags & 0x0F)` for all integers |
| Masks.CmdByteIsMask | tools/gxfp.py:36 | the command byte is `((cmd0 << 4) \| (cmd1 << 1)) & 0xFF` for all integers, fields that overlap included |
| Codec.CmdFieldsExact | tools/gxfp.py:36-53 | the two fields read back out of the command byte exactly when they fit 4 and 3 bits; bit 0 is never set |
| Masks.NibblesAreMasks | tools/gxfp.py:53 | the fields read back from a command byte are `cmd >> 4` and `(cmd >> 1) & 7` |
| Codec.CheckHeaderExact | tools/gxfp.py:21-32 | `check_header` accepts exactly the headers `spi_header` builds for the two packet types, any flags, and recovers the length |
| Codec.CheckOfSpiHeader | tools/gxfp.py:21-32 | a built header reads back as its length modulo 2^16, for the two known types and no other |
| Codec.HeaderDetectsAnyByte | tools/gxfp.py:27-32 | replacing any single byte of an accepted header makes it rejected |
| Codec.HeaderMissesSwap | tools/gxfp.py:31 | exchanging the two length bytes goes unnoticed |
| Codec.FillerIsNoHeader | tools/gxfp.py:27-32 | four equal bytes are never a header, whatever the byte |
| Codec.ParseOfMessage | tools/gxfp.py:34-54 | a message of up to 65534 payload bytes parses back to its command byte, the fields of that byte and its payload, whatever follows it |
| Codec.RoundTripLimit | tools/gxfp.py:37-38 | the payload survives if and only if it has at most 65534 bytes |
| Codec.PrefixRejected | tools/gxfp.py:46-52 | every proper prefix of a message yields None or a failed checksum |
| Codec.PrefixReport | tools/gxfp.py:46-54 | what is reported of a message cut off anywhere: its fields, the payload as far as it came, and no checksum |
| Codec.MessageImage | tools/gxfp.py:34-54 | exactly which byte strings `message` can produce, in terms of what `parse_message` reports |
| Codec.ZeroLengthField | tools/gxfp.py:49-52 | a zero length field reads as length -1 and passes exactly for command byte 0xAA |
| Detection.ContentCorruption | tools/gxfp.py:40-52 | any other command byte and payload of the same length pass if and only if the stored checksum is 0x88 or the byte sums agree modulo 256 |
| Detection.PayloadByteCorruption | tools/gxfp.py:50-52 | one changed payload byte is noticed if and only if the message's own checksum is not 0x88 |
| Detection.CommandByteCorruption | tools/gxfp.py:50-52 | the same for the command byte |
| Detection.ChecksumByteCorruption | tools/gxfp.py:51-52 | a changed checksum byte passes only as 0x88, or as the checksum an unchecked message omitted |
| Detection.LengthCorruption | tools/gxfp.py:49-52 | a changed length field: asking for more bytes is always noticed, asking for fewer passes exactly when the byte it lands on serves as a checksum |
| Detection.PermutationUnnoticed | tools/gxfp.py:40-41 | permuting the payload leaves the checksum as it is |
| Wire.FramesRoundTrip | tools/gxfp.py:79-100 | any list of bodies of 1 to 4096 bytes, framed and followed by any amount of filler, reads back as exactly that list, with the filler untouched |
| Wire.StreamRoundTrip | tools/gxfp.py:79-100 | so does any list of commands, and every body parses to its command |
| Wire.FrameLimit | tools/gxfp.py:29-98 | a frame is read back whole if and only if its type is a message or a TLS packet and its payload has at most 4092 bytes |
| Wire.UniquelyDecodable | tools/gxfp.py:79-86 | equal wire bytes come from equal commands, up to whether a checksum of 0x88 was computed |
| Wire.IdleAcceptsNothing | tools/gxfp.py:88-100 | an idle bus yields no packet, and every accepted packet consumes pending bytes |
| Wire.Sensor.Send | tools/gxfp.py:79-86 | two transactions, header of the given type then body, and as many bytes clocked in and thrown away |
| Wire.Sensor.ReadPacket | tools/gxfp.py:88-100 | without an interrupt nothing is clocked; otherwise a header of zeros goes out, then exactly as many zeros as the announced body has bytes |
| Wire.ListenToFrame | tools/gxfp.py:79-86 | a part that follows the bus takes the body of a frame, whatever comes after it |
| Wire.ListenToReads | tools/gxfp.py:93-99 | reads of any lengths in front of any bus are not heard |
| Wire.ListenSplit | tools/gxfp.py:79-99 | a bus in two parts: each is heard as if by itself, unless the first ends with a header that announces the length of the next transaction |
| Wire.ReadsExact | tools/gxfp.py:79-99 | reads anywhere on a bus are not heard, except that the first is taken for the body of a header just before it that announces its length |
| Rewrites.HeadersAgree | tools/refseq.py:71-74 | all header builders equal `spi_header` for every type byte and length; the unmasked one fails exactly from 2^16 on |
| Rewrites.MilanAgrees | tools/dialects.py:39-43 | the `dialects.py` builder equals `message` |
| Rewrites.MilanFrameAgrees | tools/sweep_low.py:28-34 | the one-string builder yields the wire bytes of `send`, for any cmd0 and cmd1, and fails exactly when the body length needs more than 16 bits |
| Rewrites.ReadersCompared | tools/refseq.py:108-123 | `Link.read` accepts what `read_packet` accepts; `Ref.read` agrees if and only if the type is known, or the sum fails, or the length is 0 or above 4096 |
| Rewrites.RefAcceptsUnknownType | tools/refseq.py:77-78 | a header only `Ref.read` accepts |
| Rewrites.IdleRefusedByAll | tools/framing.py:92-104 | all three readers refuse an idle bus; the all-zero header passes the bare sum |
| Rewrites.NopIsCommand | tools/framing.py:42 | the NOP preamble is the message of command 0/0 with four zero bytes and no checksum |
| Rewrites.Link.FrameOut | tools/framing.py:76-84 | one transfer or two, as the style says |
| Rewrites.Link.CommandOut | tools/framing.py:86-90 | the transactions of the style; both styles clock the same bytes, preamble first |
| Rewrites.Link.Read | tools/framing.py:92-108 | a header of zeros, then the announced body; the packet is the one `read_packet` would have returned |
| Rewrites.RunLink | tools/framing.py:111-126 | the loop over any list of bodies, reads included: every transaction, what the part has left to say, and whether a reply was read |
| Rewrites.LinkDelivers | tools/framing.py:69-126 | in all four styles, and whatever the part answers, every body of 1 to 4096 bytes is heard in order, each behind a NOP when the preamble is on, and nothing else |
| Rewrites.PreamblePositions | tools/framing.py:86-90 | where each body stands among those heard |
| Rewrites.SilentRun | tools/framing.py:117-126 | against a silent part, one look for a header follows each command, and no reply is counted |
| Rewrites.McuMillisMeaning | tools/refseq.py:136-138 | the field is the time in milliseconds modulo one minute and fits 16 bits |
| Rewrites.McuPacketIsMessage | tools/refseq.py:130-139 | the packet is the message 0xA/7 with bit 0 of its first byte set, at every time |
| Rewrites.McuPacketFlagged | tools/refseq.py:130-139 | `parse_message` flags it unless the low and high byte of the time add up to 0x19 modulo 256 |
| Rewrites.McuExamples | tools/refseq.py:133-139 | the quoted packet is the one of 48 + 253/256 seconds past the minute and is flagged; the one of 13/512 seconds passes |
| Rewrites.FramingSweepHeard | tools/framing.py:51-126 | the list of framing.py in all four styles: the four commands its literal bodies spell, with good checksums, then the GetMcuState packet, each behind a NOP when the preamble is on |
| HexText.TokenCount | kernel/gxfp.c:656-663 | a string of L bytes holds at most (L + 1) / 2 non-empty tokens |
| HexText.PrintThenParse | kernel/gxfp.c:656-700 | the printed text of any buffer parses back to it |
| Spelling.DigitTables | kernel/gxfp.c:608-696 | the digits read and printed are those of the character tables, both cases read, lower case printed |
| Spelling.SpaceTable | kernel/gxfp.c:606-657 | the characters trimmed and the characters that separate tokens |
| Spelling.RawTextAt | kernel/gxfp.c:695-700 | every character of the text of a read, blanks and final newline included |
| Spelling.CaseIgnored | kernel/gxfp.c:592-668 | neither file tells upper case from lower case, in any text |
| Spelling.UpperRoundTrips | kernel/gxfp.c:592-702 | both round trips hold for the text in upper case |
| Spelling.TokenExact | kernel/gxfp.c:608-661 | exactly which tokens are numbers, and which number each is: sign, prefix, digits place by place, line end, below 2^32 |
| Spelling.StoredByte | kernel/gxfp.c:617-662 | of a number the value of the last two digits is kept |
| Spelling.AnyRawText | kernel/gxfp.c:656-666 | any way of writing down a list of numbers is read by the `raw` file as that list, if it has at most 4096 characters |
| Spelling.AnyCmdText | kernel/gxfp.c:606-622 | the same for a command, up to 1024 characters, with the fields cut to 4 and 3 bits and the payload to 256 bytes |
| Spelling.DoubleBlankRefused | kernel/gxfp.c:607-610 | two blanks between the first two fields make the write fail |
| Driver.MakeSpiHdr | kernel/gxfp.c:64-70 | the buffer is filled with the Python header |
| Driver.CheckSpiHdrAgrees | kernel/gxfp.c:72-81 | same verdict and length as `check_header`; the error code tells which test failed first |
| Driver.FillBody | kernel/gxfp.c:103-116 | the body built in place with an 8-bit running sum equals the Python message |
| Driver.Gxfp.Send | kernel/gxfp.c:87-135 | return value and transactions for every outcome of allocation and bus |
| Driver.SendRefinesPython | kernel/gxfp.c:91-97 | fails its size check exactly above 4092 payload bytes, otherwise sends what the Python `send` sends |
| Driver.Gxfp.Recv | kernel/gxfp.c:138-160 | return value, and bus, length and whole buffer after every outcome, partial transfers included |
| Driver.RecvAgrees | kernel/gxfp.c:147-152 | a body is fetched exactly when the Python reader would fetch one |
| Driver.RecvErrors | kernel/gxfp.c:72-152 | each error code exactly, and the one an idle bus gives |
| Driver.Gxfp.Isr | kernel/gxfp.c:164-186 | counts, wakes, and disables the line exactly at 200 |
| Driver.Gxfp.Exchange | kernel/gxfp.c:620-629 | the part under the mutex: the frame and the reads on the bus, length and whole receive buffer after every outcome |
| Driver.Gxfp.CmdWrite | kernel/gxfp.c:592-632 | error codes, and the exchange of the command the text denotes |
| Driver.Gxfp.RawWrite | kernel/gxfp.c:642-684 | error codes, the bytes transferred, and both buffers after a complete or a partial transfer |
| Driver.Gxfp.RawRead | kernel/gxfp.c:686-705 | serves the requested window of the hex text; every formatted character, NULs included, fits the 3n + 2 bytes |
| Driver.RawCapUnreachable | kernel/gxfp.c:650-663 | accepted input has at most 2048 tokens, so the cap of 4096 never drops one |
| Driver.RawFileRoundTrip | kernel/gxfp.c:642-702 | writing back what a read served stores the same bytes if and only if there are 1 to 1365 |
| Driver.CmdFileRoundTrip | kernel/gxfp.c:607-622 | a command written as text is the command sent, cut to 256 payload bytes; above 340 the write is refused |
| Driver.CmdWritableExact | kernel/gxfp.c:592-622 | the commands some text makes the `cmd` file send are exactly those with a checksum and at most 256 payload bytes |
| Driver.WritableLengths | kernel/gxfp.c:642-666 | any 1 to 1365 bytes can be written to the `raw` file, and never more than 2048 |
| Driver.CmdCapExact | kernel/gxfp.c:612-618 | the payload sent has one byte per payload token if and only if there are at most 256 tokens, whatever the later ones look like |
| Driver.CmdEndToEnd | kernel/gxfp.c:592-632 | from the text in the `cmd` file to the one command the part hears, however the receive turns out |
| Driver.ReadAfterFailure | kernel/gxfp.c:154-157 | on any device, after a receive that fails in its body, the next read prints the old text if and only if every byte stored within the old length equals the one it replaced |
| Driver.StaleTextExact | kernel/gxfp.c:154-157 | the same on buffers |
| Driver.StaleRead | kernel/gxfp.c:154-157 | an instance: one byte of two replaced, and the read prints a mixture |
| Driver.WindowsReassemble | kernel/gxfp.c:686-705 | reads of any lengths, one after another, reassemble the text while it stays the same |
| Driver.TransferBetweenReads | kernel/gxfp.c:686-705 | the buffer changes between two reads: the text collected is that of the new buffer if and only if the two agree on what the first read covered, that of the old one if and only if they agree on what it left, otherwise of neither |
| Driver.MixtureIsText | kernel/gxfp.c:686-705 | cut between two bytes of buffers of one length, it is the text of the bytes of one followed by those of the other |
| HexText.PrefixExact | kernel/gxfp.c:695-700 | the first k characters of two texts agree exactly when whole bytes and the nibbles of a cut one do |
| HexText.SuffixExact | kernel/gxfp.c:695-700 | the same for the rest of the texts from character k on |
| Interleaving.StepKeepsInv | kernel/gxfp.c:164-186 | every step of the handler or of a thread keeps the invariant |
| Interleaving.RunsAreSafe | kernel/gxfp.c:138-186 | in every state of every run: count at most 200, one disable, exactly at 200; length within the buffer; one thread in the mutex; every read exact, and of the last completed transfer if and only if the buffer still held it |
| Interleaving.DisabledForGood | kernel/gxfp.c:172-184 | once disabled, the line stays disabled, the count stands still, and `data_ready` is never set again |
| Interleaving.CommandsTimeOutAfterStorm | kernel/gxfp.c:620-627 | a command started after the storm never sees `data_ready` |
| Schedules.Storm | kernel/gxfp.c:164-186 | from any state between two handlers, interrupts alone lead to the disabled line |
| Schedules.StormFromStart | kernel/gxfp.c:162-186 | from the start that takes exactly 200 handlers |
| Schedules.WakesExact | kernel/gxfp.c:164-186 | in any reachable state, some continuation sets `data_ready` if and only if it is set, a handler has still to set it, or fewer than 200 interrupts have come; interrupts alone then do it |
| Interleaving.FramesStayWhole | kernel/gxfp.c:620-628 | whenever the mutex is free the bus has carried whole units, each a frame with the reads of its answer, a header that failed, or a `raw` transfer |
| Interleaving.UnitsHeard | kernel/gxfp.c:87-160 | for any list of units, the part hears what each has to say by itself if and only if no header without body is followed by a transaction of the announced length |
| Interleaving.ConcurrentUnitsDecode | kernel/gxfp.c:592-684 | the same for the bus of every run of any number of threads, whenever the mutex is free |
| Interleaving.ConcurrentCommandsDecode | kernel/gxfp.c:592-632 | runs of commands only: the part hears exactly those that went through, in mutex order, if and only if none without payload broke off after its header with another to follow |
| Races.AgreeingWritesAreExact | kernel/gxfp.c:656-679 | if overlapping `raw` writes agree as far as both go, each transfers exactly its own bytes |
| Races.RacingWriters | kernel/gxfp.c:656-668 | for any two strings p and q that texts can denote, and any n, there is a run in which the writer of p transfers n bytes of q and the rest of p |
| Races.ExactIffAgreed | kernel/gxfp.c:642-684 | for any set of strings that texts can denote: every transfer of every run that writes only these is exact if and only if any two of them agree as far as both go |
| Alone.CommandAlone | kernel/gxfp.c:592-632 | one thread's uninterrupted steps through a command leave what `gxfp_cmd_write` is specified to leave, for every outcome, and a buffer that counts as clean exactly after a whole transfer |
| Alone.WriteAlone | kernel/gxfp.c:642-684 | the same for a `raw` write, with both buffers |
| Alone.ReadAlone | kernel/gxfp.c:686-705 | the same for a `raw` read, which serves the text of the buffer and changes nothing else |
| Alone.SwallowingRun | kernel/gxfp.c:87-160 | for any command without payload and any other there is a run in which the first breaks off after its header and what is heard is not just the second |
| PadProbe.ChangedBits | kernel/gxfp.c:472-487 | a bit is in both accumulators if and only if two samples differ in it |
| PadProbe.ExpectedWords | kernel/gxfp.c:438-441 | the expected values are the four words of the source |
| PadProbe.ValueBits | kernel/gxfp.c:492-494 | a register reads as its configuration with the pin in bit 1 |
| PadProbe.PadBank.Sample | kernel/gxfp.c:472-479 | the accumulators tally every pad's reads |
| PadProbe.PadBank.ClearReceivers | kernel/gxfp.c:501-510 | what every pad reads as after the write: bit 9 clear unless it is locked, bit 1 the pin, the rest as before |
| PadProbe.PadBank.TryUnlock | kernel/gxfp.c:497-534 | the same values are reported, for every pattern of locked pads the configuration is restored, and "took" means some pad was unlocked |
| PadProbe.PadBank.Probe | kernel/gxfp.c:451-538 | configuration unchanged on every path; the full path runs exactly when all four values match |
| PadProbe.ReportChange | kernel/gxfp.c:482-489 | the reported bit is live if and only if two reads of that pad differed in it |
| Snoop.ChangesExact | spisnoop/spisnoop.c:104-111 | the list of changes is in order and holds exactly the positions that differ from the sample before |
| Snoop.BitsTested | spisnoop/spisnoop.c:40-43 | each of the three tests reads its one bit and nothing else |
| Snoop.CountsExact | spisnoop/spisnoop.c:97-102 | each counter is the number of samples with its bit as said |
| Snoop.LogShows | spisnoop/spisnoop.c:104-111 | what a logged event says: the three registers as read, the time on a 64-bit clock; 64 events at most |
| Snoop.SnapShow | spisnoop/spisnoop.c:84-142 | counters, the first 64 changes in the log, and the verdict, over any stream of readings |
| Snoop.VerdictExact | spisnoop/spisnoop.c:134-142 | with traffic the three verdicts are exhaustive and exact about the register |
| Snoop.UnchangingVerdict | spisnoop/spisnoop.c:134-142 | with traffic and a register that never changes, bit 1 of it decides between "held asserted" and "never asserted" |
| Snoop.VerdictAboutChipSelect | spisnoop/spisnoop.c:134-142 | when the printed words are right about chip select itself |
| Snoop.TogglingWithoutToggle | spisnoop/spisnoop.c:104 | a run that prints "toggling" with chip select deasserted throughout |
| Thumb.PrefixIsMask | tools/thumbcalls.py:12 | the prefix test as a mask |
| Thumb.BranchIsMask | tools/thumbcalls.py:14 | the BL and BLX tests as masks |
| Thumb.FieldsAreMasks | tools/thumbcalls.py:16-20 | the five fields as shifts and masks |
| Thumb.InvertedIsMask | tools/thumbcalls.py:21-22 | the inverted bits as complement of exclusive or |
| Thumb.AssembleIsMask | tools/thumbcalls.py:23 | the offset fields as shifts and `or` |
| Thumb.DecodeThenEncode | tools/thumbcalls.py:16-25 | every BL pair decodes to an even offset in [-2^24, 2^24 - 2], and encoding it gives the pair back |
| Thumb.EncodeThenDecode | tools/thumbcalls.py:16-25 | every such offset has a BL pair that decodes to it |
| Thumb.BlTargets | tools/thumbcalls.py:7-28 | the loop returns the scan of the image |
| Thumb.ScanExact | tools/thumbcalls.py:9-27 | exactly the even positions that match, with source and target |
| Thumb.ScanAscends | tools/thumbcalls.py:9-27 | in strictly increasing address order |
| Thumb.CallsFound | tools/thumbcalls.py:7-28 | a BL with any offset in range, at any even position of any image, is reported with the target it reaches |
| Thumb.EntriesAreCalls | tools/thumbcalls.py:7-28 | every BL entry is such a call, byte for byte |
| Pe.FileRoundTrip | tools/pexref.py:20-29 | `rva2f` undoes `f2rva` on every mapped offset when virtual ranges are disjoint |
| Pe.RvaRoundTrip | tools/pexref.py:20-29 | `f2rva` undoes `rva2f` where defined when raw ranges are disjoint |
| Pe.NoneExact | tools/pexref.py:20-29 | for any table: exactly when each direction answers None, and exactly when None from `rva2f` means that no section backs the address |
| Pe.NoneWhenDisjoint | tools/pexref.py:24-29 | with disjoint virtual ranges it always means that |
| Pe.FileRoundTripExact | tools/pexref.py:20-29 | with disjoint raw ranges, every mapped offset survives the round trip if and only if no section's file-backed part meets the virtual range of an earlier one |
| Pe.RvaRoundTripExact | tools/pexref.py:20-29 | with disjoint virtual ranges, every file-backed address survives the round trip if and only if the raw ranges are disjoint |
| Pe.OverlapBreaksRoundTrip | tools/pexref.py:24-28 | an instance: two sections at one address |
| Pe.OverlapBreaksRvaRoundTrip | tools/pexref.py:20-23 | an instance for the other round trip: two sections on one piece of the file |
| Pe.PE.Sec | tools/pexref.py:30-33 | the loop returns the first section of the name |
| Pe.FindSecExact | tools/pexref.py:30-33 | that is the one with no earlier section of the name, or None if there is none at all |
| Pe.PE.F2Rva | tools/pexref.py:20-23 | the search returns the first section's answer |
| Pe.PE.Rva2F | tools/pexref.py:24-29 | the same for the other direction |
| Pe.FiltersAreOneTest | tools/pexref.py:50-53 | the two stacked ModRM filters are one test: mod 00 and rm 101 |
| Pe.PE.ScanLea | tools/pexref.py:37-56 | the loop yields the scan of the text section, up to a read past the end of the file |
| Pe.LeaScanExact | tools/pexref.py:41-56 | exactly the matching offsets in range, each with the next RVA plus the signed displacement |
| Pe.LeaFound | tools/pexref.py:37-56 | an LEA of any register and displacement, placed in the section but not in its last seven bytes, is reported with the address it forms |
| Pe.LeaAtExact | tools/pexref.py:41-54 | what the scan looks for is such an instruction, byte for byte, and nothing else |
| Pe.LeaFoundInFile | tools/pexref.py:37-56 | an LEA placed in the text section of a file is reported, with the address it forms from where the section is mapped |
| Pe.EntriesAreLeas | tools/pexref.py:37-56 | every entry reported for a file is an LEA, byte for byte, and its target is the RVA of its offset plus seven plus its displacement |
| Pe.LeasRaise | tools/pexref.py:39-54 | exactly when the scan of a file ends without an exception |
| Pe.LastInstructionMissed | tools/pexref.py:41 | complete for the section if and only if no LEA fills its last seven bytes |
| Pe.LastInstructionMissedInFile | tools/pexref.py:37-56 | the same for the text section of a file |
| Pdata.EntriesOfTable | tools/pdata.py:14-17 | a table written anywhere in a file reads back as its functions, padding left out |
| Pdata.Funcs | tools/pdata.py:9-19 | the table of the file is the sorted list of the non-zero entries of its section |
| Pdata.FuncsOfTable | tools/pdata.py:9-19 | a table written at the raw offset of the section, wherever it is mapped, is what the file's functions are, sorted and without padding |
| Pdata.FuncsRaise | tools/pdata.py:10-15 | no section, no functions; reading raises exactly when the last entry runs past the end of the file |
| Pdata.SortSorts | tools/pdata.py:18 | sorted, and a permutation |
| Pdata.BisectRight | tools/pdata.py:29 | the split point of a sorted list |
| Pdata.Lookup | tools/pdata.py:22-35 | the answer names the greatest entry at or below the address, for a table in any order |
| Pdata.LookupInFile | tools/pdata.py:22-35 | from the file to the answer |
| Pdata.AnswerInFile | tools/pdata.py:9-35 | for a file with a written table it is the answer for the functions written |
| Pdata.AnswerAgreesWithSearch | tools/pdata.py:29-35 | for disjoint functions the three answers agree with linear search |
| Pdata.SearchExact | tools/pdata.py:29-35 | for any table: "INSIDE" is the answer for exactly the addresses some function contains, if and only if no function outlasts a later one without a further entry taking over |
| Pdata.OverlapHidesFunction | tools/pdata.py:32-33 | an instance: an address of the first function is answered with "past-end" of the second |
| Pdata.AnswerUnique | tools/pdata.py:18-35 | the answer depends on the entries of the table, not on their order |
| Records.Find | tools/extract_firmware.py:51 | the first occurrence at or after a position |
| Records.FindRecords | tools/extract_firmware.py:46-55 | the loop terminates and returns the ends of all occurrences of character count and encoded name; too long a name fails |
| Records.EndsExact | tools/extract_firmware.py:46-55 | exactly the ends of all occurrences, overlapping ones included |
| Records.EndsAscend | tools/extract_firmware.py:50-55 | in strictly increasing order |
| Records.RecordFound | tools/extract_firmware.py:8-10 | a record anywhere in a file is found, with the offset of its image, if and only if its name has as many characters as bytes |
| Gpio.GpioLine.Request | tools/gpio_raw.py:30-51 | when a request is granted and what it drives |
| Gpio.GpioLine.Set | tools/gpio_raw.py:53-55 | drives the low bit of the value |
| Gpio.LowBitIsMask | tools/gpio_raw.py:38-54 | the level driven is `v & 1`, for any integer |
| Gpio.DrivenIsRead | tools/gpio_raw.py:30-60 | what a line is driven with, at the request or later, is what is read, and no other line changes |
| Gpio.InvertedEnable.Request | tools/lowstate.py:26-30 | the initial value of line 264 is inverted, every other is not |
| Gpio.InvertedEnable.Set | tools/lowstate.py:32-33 | the same for later values |
| Gpio.InvertedEnable.Get | tools/lowstate.py:35-37 | the level of line 264 is read inverted |
| Gpio.DrivenIsReadInverted | tools/lowstate.py:25-37 | through the wrapper, line 264 reads as the truth of its value and is physically the opposite; other lines are as without it |
| Gpio.Script.Run | tools/lowstate.py:25-45 | a script run on the objects, with either class, does what it does on values |
| Gpio.StepMirrors | tools/lowstate.py:25-37 | one operation in both runs: which levels end up equal or complemented, and equal results, except that a read of line 264 while it is not complemented is opposite |
| Gpio.WrapperMirrors | tools/lowstate.py:25-45 | any script from the same hardware: line 264 ends complemented exactly if last driven with 0 or an odd value and not pulled since, all others equal; equal results if and only if 264 is only read in that state |
| Gpio.ScriptUnaware | tools/lowstate.py:25-45 | a script that takes line 264 as an output first and drives with 0 and 1 sees equal results and leaves exactly that line complemented |
| Gpio.WrapperShows | tools/gpio_raw.py:53-60 | reading line 264 before driving it, or after driving it with 2, shows the wrapper |
| Dump.DumpBytes | tools/cshigh_repro.py:43-53 | the loop prints the listing |
| Dump.DumpIsLossless | tools/cshigh_repro.py:43-53 | the rows and the tail reconstruct any buffer |
| Dump.RowsExact | tools/cshigh_repro.py:45-53 | every row is printed with its offset and holds the sixteen bytes from there on, or as many as are left |
| Dump.CollapseMeans | tools/cshigh_repro.py:48 | the test: not the first row, and all bytes from there on equal |
| Dump.CollapsePoint | tools/cshigh_repro.py:48-50 | the tail collapses at the first row after row 0 from which the buffer is constant, if there is one |

## Left out

- FillBody: takes a 4-bit cmd0 and a 3-bit cmd1, to which `gxfp_cmd_write` masks them; and the payload length stays at or below 65531, where the 16-bit body length of `gxfp_send` does not wrap; its callers pass at most 256 bytes.
- McuMillis: the clock is a real number; the rounding of Python's floats is not modelled.
- SnapShow: the sample counters and the clock are unbounded, except for the 64-bit subtraction of times.
- GpioLine: a released line keeps its last level until something outside pulls it, which is a step of the script; a name in use is not bound a second time, and other processes hold no lines.
- PE: the parsing of the headers by `PE.__init__`; sections are given.
- Parsed: the display name of a command, and all other printed text.
- `gxfp_cstest_show`, `gxfp_replay_show` and the transfers of `gxfp_padprobe_show`, which also use the driver's buffers, and the `enable` and `reset` files.
- Interleaving: shared accesses are sequentially consistent, and a wait may end at any time, by interrupt, timeout or signal.
- A `raw` transfer or body receive is modelled byte by byte; what a transfer that the bus reports as failed did on the bus is not recorded.
- Listen: it tells frames by their headers and lengths; chip-select timing and the sensor's reaction are not modelled.
- BLX targets: `thumbcalls.py` applies the BL formula to them.
- The command-line parts of the tools, the address given as VA or file offset in `pdata.py`, hashing and file output in `extract_firmware.py`.
- The sweep drivers (`bruteforce.py`, `wider.py`, `cs_timing_low.py`, `reset_low.py`, `sigfrodr_exact.py`, `recover_probe.py`, `suspendtest.py`, `touchwatch.py`, `cswatch.py`): finite parameter lists and printing.
- `board.py`, `lpssregs.py`, the register dumps, the ACPI call, probe and remove: discovery, library calls and output.
- The sensor's side of the protocol, TLS, key extraction and imaging, which the repository only documents.
