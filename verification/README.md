# iCE40 bitstream decoder, modelled in Dafny

This project models `Ice40Bitstream::from_file` from `src/main.rs`. That function is a streaming decoder for Lattice iCE40 FPGA configuration bitstreams. It works in two stages:

- **Preamble synchroniser.** It shifts bytes one at a time into a 32-bit window until the window holds `0x7EAA997E`. It counts the bytes it consumed in the record's `offset` field.
- **Command-stream decoder.** It reads one command byte at a time. The high nibble is the opcode and the low nibble is the payload length. The payload bytes are folded big-endian into a `u32`. The decoder then dispatches on the opcode and updates a small record: bank, width, height, offset, CRAM/BRAM extents, CRC register, warm-boot/no-sleep flags and frequency range. Sub-commands 0x01 (CRAM) and 0x03 (BRAM) skip `(width*height)/8` data bytes and a 2-byte trailer. The loop ends only on sub-command 0x06 (wakeup).

The model works on an immutable byte sequence (`seq<bv8>`) with an explicit read position. Each panic on malformed input (an unknown opcode, sub-command or flag value) becomes an arm of the `Error` datatype. Reading past the end of the sequence becomes `EndOfStream`. Read failures cannot occur and are described under "Left out".

| module (file) | contents |
|---|---|
| `Bytes` (bytes.dfy) | the byte type, the `u32` shift register shared by the preamble window and the payload, its big-endian reference value, and the nibble split of a command byte |
| `Bitstream` (bitstream.dfy) | the `Ice40` record, `FrequencyRange`, `FeatureFlag`, the initial record, `Error` and `Result` |
| `Preamble` (preamble.dfy) | the magic constant and the preamble search |
| `Commands` (commands.dfy) | reading one command, dispatching it, one decoding step, and lemmas about a single step |
| `Decoder` (decoder.dfy) | the command loop (`Run`), the whole decode (`Decode`), the source's loops written as methods and proved equal to them, and lemmas about whole runs |
| `Cells` (cells.dfy) | where the bits of a data block would be placed. **This models commented-out code only** (src/main.rs:113-128, 153-171); the live source never stores those bits |
| `Scenarios` (scenarios.dfy) | worked streams: a complete bitstream decoded end to end, and single commands |

In these places the model follows what the code does, which differs from what one might expect of the format:

- `offset` counts only the bytes the preamble search consumed. It is not a running count of every byte read.
- A block whose bit count is not a multiple of 8 is not an error. The byte count is rounded down by integer division.
- `currentWidth` starts at 0, not 1. It is at least 1 only after an opcode-6 command.
- The payload is truncated to 32 bits, because it accumulates in a `u32`.
- Opcodes 3 and 4 abort the decode (`Unimplemented`). Opcodes 10 to 15 abort it too (`UnknownCommand`).

## Model

| member | source | states |
|---|---|---|
| Bytes.ShiftInDropsTopByte | src/main.rs:78-79 | one shift step puts the new byte in the lowest place, moves the lower three bytes of the register up one place and drops its top byte |
| Bytes.RegisterIsTruncatedBigEndian | src/main.rs:91-96 | the register after folding in any byte string equals the big-endian value of that string reduced mod 2^32 |
| Bytes.RegisterKeepsLastFour | src/main.rs:78-79 | once four or more bytes are in, the register equals the big-endian value of the last four bytes; earlier bytes have been shifted out |
| Bytes.RegisterOfShort | src/main.rs:69-79 | with fewer than four bytes in, the register (zero-initialised) has its top byte clear |
| Bytes.CommandByteSplit | src/main.rs:89-90 | opcode and length are each below 16, and opcode*16 + length recovers the command byte |
| Preamble.FourBytesAreMagic | src/main.rs:80 | four bytes read big-endian equal 0x7EAA997E exactly when they are 7E AA 99 7E |
| Preamble.WindowSeesMagic | src/main.rs:74-84 | the window after n bytes equals the magic value if and only if those n bytes end with 7E AA 99 7E |
| Preamble.SeekPreamble | src/main.rs:74-84 | from position n, the search returns the end of the first magic sequence ending after n; it fails with EndOfStream only when no such sequence remains |
| Preamble.FindPreamble | src/main.rs:69-84 | the search returns the position p just past the first 7E AA 99 7E; no earlier position ends a magic sequence; it fails exactly when the stream contains no magic sequence |
| Decoder.FindPreambleIsFirstMatch | src/main.rs:74-84 | if a magic sequence ends at n and none ends earlier, the search returns n |
| Decoder.FindPreambleReadsOnlyPrefix | src/main.rs:74-84 | the search reads nothing past the end of the first magic sequence; any stream with the same prefix gives the same result |
| Decoder.SyncPreamble | src/main.rs:73-84 | the source's preamble loop (shift, count, compare) returns the same result as FindPreamble |
| Commands.ReadCommand | src/main.rs:88-96 | reading succeeds exactly when the command byte and its length payload bytes are present; opcode is the high nibble; the payload is the big-endian value mod 2^32; exactly 1 + length bytes are consumed |
| Decoder.ReadCommandBytes | src/main.rs:88-96 | the source's inner payload loop computes the same command as ReadCommand |
| Commands.BlockBytesRoundsDown | src/main.rs:119 | a block's byte count is its bit count (width times height) divided by 8 rounded down: it covers every whole byte of bits, and fewer than 8 bits are left over |
| Commands.Extend | src/main.rs:111-112 | a CRAM block grows only the CRAM extent (a BRAM block only the BRAM extent); the new extent covers width current_width and height current_offset + current_height; each new value is either the old extent or the block's |
| Commands.ExtendIdempotent | src/main.rs:151-152 | announcing the same block twice leaves the extents as they were after the first |
| Commands.Frequency | src/main.rs:207-213 | payloads 0, 1, 2 give Low, Medium, High; any other payload gives Unknown carrying that payload; never Undefined |
| Commands.FeatureFlags | src/main.rs:234-252 | only payloads 0, 1, 32, 33 are accepted; warm boot is on for 32 and 33, no-sleep is on for the odd ones; any other payload is BadFeatureFlags |
| Commands.Dispatch | src/main.rs:98-256 | dispatch fails exactly for opcodes 3, 4 and 10-15, for opcode 0 with a sub-command outside {1,3,5,6}, and for opcode 9 with bad flags; it wakes exactly on opcode 0 payload 6; it starts a data block exactly on sub-commands 1 and 3; extents never shrink |
| Commands.Step | src/main.rs:87-257 | a successful step advances the position and stays within the stream; it never shrinks an extent and never changes offset |
| Commands.TruncatedCommandFails | src/main.rs:88-96 | a command cut off by the end of the stream fails with EndOfStream |
| Commands.SetterStep | src/main.rs:200-233 | opcodes 1, 6, 7 and 8 set bank, payload+1 as width, height and offset respectively; opcode 5 sets the frequency range; opcode 2 changes nothing; no other field changes and exactly 1 + length bytes are consumed |
| Commands.CrcResetStep | src/main.rs:185-188 | sub-command 0x05 sets the CRC register to 0xFFFF and changes nothing else |
| Commands.FeatureFlagStep | src/main.rs:234-251 | opcode 9 succeeds exactly for payloads 0, 1, 32 and 33; it sets (warmboot, nosleep) from the payload and changes no other field; any other payload fails with BadFeatureFlags |
| Commands.DataBlockStep | src/main.rs:101-183 | a CRAM/BRAM command succeeds exactly when the header, (w*h)/8 data bytes and 2 trailer bytes all fit; it resumes right after them, with only that memory's extent grown |
| Commands.WakeupStep | src/main.rs:190-193 | a step ends the loop if and only if it reads opcode 0 with payload 6; the record is then unchanged |
| Commands.RejectedStep | src/main.rs:195-255 | a framed command aborts with a non-EOF error exactly for opcodes 3, 4, 10-15, unknown sub-commands and bad feature flags, and reports Unimplemented, UnknownCommand or UnknownSubcommand accordingly |
| Commands.StepReadsOnlyHeader | src/main.rs:119-139 | data and trailer bytes are skipped unread; changing them (a non-zero trailer included) never changes a step's outcome |
| Commands.StepReadsOnlyPrefix | src/main.rs:88-183 | a successful step reads nothing at or after the position it returns |
| Decoder.Run | src/main.rs:87-257 | a successful command loop ends inside the stream; its extents are at least the starting ones; offset is preserved |
| Decoder.RunCommands | src/main.rs:86-257 | the source's while-not-woken loop computes the same result as Run |
| Decoder.StartState | src/main.rs:47-67 | the record as the decoder creates it, with offset set to the end of the preamble: every other number is 0 (width included), both feature flags are Disabled and the frequency range is Undefined. These ensures clauses are the definition written out field by field |
| Decoder.Decode | src/main.rs:46-259 | no preamble means EndOfStream; on success the record's offset is the position just past the preamble |
| Decoder.DecodeSucceedsIffWakeup | src/main.rs:46-259 | a decode returns a record if and only if the stream has a preamble and some iteration of the command loop started after it is a wakeup; the record returned is the one at that wakeup |
| Decoder.FromBytes | src/main.rs:46-259 | the source's preamble loop followed by its command loop computes the same result as Decode |
| Decoder.RunSucceedsIffWakeup | src/main.rs:87-258 | the loop returns a record if and only if some iteration is a wakeup; the record returned is the one at that wakeup |
| Decoder.RunFromIterate | src/main.rs:87-258 | if some iteration is a wakeup, the loop returns that record and that end position |
| Decoder.RunEndsWithWakeup | src/main.rs:190-193 | a successful loop ends immediately after an opcode-0, payload-6 command |
| Decoder.RunReadsOnlyPrefix | src/main.rs:87-258 | a successful loop reads nothing past its wakeup command |
| Decoder.DecodeIgnoresTrailingBytes | src/main.rs:87-258 | appending any bytes to a stream that decodes leaves the decoded record unchanged |
| Cells.BitsRoundTrip | src/main.rs:122-128 | (dead code) packing a data byte's eight placed bits, most significant first, gives the byte back |
| Cells.CellOf | src/main.rs:123-127 | (dead code) bit k lands in column x < width and row y >= offset with k = (y - offset)*width + x |
| Cells.CellOfInjective | src/main.rs:162-171 | (dead code) distinct bits of a block land in distinct cells |
| Cells.CellOfInsideBlock | src/main.rs:162-171 | (dead code) every bit of a width-by-height block lands in a row below offset + height |
| Cells.CellOfCoversBlock | src/main.rs:162-171 | (dead code) every cell of the block's rectangle receives a bit |
| Cells.BlockFitsExtent | src/main.rs:111-128 | (dead code) every bit of a block lands inside the extent that the live code computes for that block |
| Scenarios.ExampleDecodes | src/main.rs:46-259 | a stream with padding, preamble, bank 1, width 8, height 1, offset 0, one CRAM byte and trailer, wakeup and a trailing byte decodes to the expected record with a CRAM extent of 8 by 1 |
| Scenarios.WidthExample | src/main.rs:222-225 | command 62 00 27 sets the width to 40 |
| Scenarios.BothFlagsExample | src/main.rs:247-250 | command 91 21 turns on both warm boot and no-sleep |
| Scenarios.BadFlagsExample | src/main.rs:251 | command 91 02 is rejected with BadFeatureFlags(2) |

## Left out

- End of input. Rust's `Read::read` returns `Ok(0)` at end of file and leaves the buffer unchanged. The source therefore reuses the last byte and can loop forever. The model deliberately treats reading past the end of the sequence as the `EndOfStream` error instead.
- Read errors. An I/O error from `read` makes the source panic (`expect("Couldn't read")`). The input is a sequence here, so no read can fail except at its end.
- `main`, `File::open` and the hard-coded `top.bin` (src/main.rs:261-265) are I/O and are not modelled. Neither is any `println!` diagnostic, including the warning for a non-zero trailer. StepReadsOnlyHeader states that the trailer never affects decoding.
- Commands.Dispatch: `u32` overflow is not modelled. This affects `bs.offset + 1` (the preamble byte count, src/main.rs:75), `payload + 1` (width), `current_height * current_width` (block size) and `current_offset + current_height` (extent). The record's fields are unbounded naturals, so these never wrap or panic here. The payload itself is truncated to 32 bits, as in the source.
- CRC computation and checking. The source only resets the register (sub-command 0x05) and only logs opcode 2, so nothing more is modelled.
- The bank-indexed CRAM/BRAM bit matrices. They exist only as commented-out code. Module `Cells` models only where each bit would be placed, and does not store the bits.
- Error positions. The source's panic messages carry the opcode or payload but no byte offset. The errors here carry the same values.
