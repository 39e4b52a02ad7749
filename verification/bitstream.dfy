/**
 * The device-configuration record the decoder builds (`Ice40Bitstream` in
 * src/main.rs), its two enumerations, and the ways a decode can fail.
 */
module Bitstream {

  import opened Bytes

  /** Oscillator frequency range, set by opcode 5. */
  datatype FrequencyRange = Undefined | Low | Medium | High | Unknown(code: u32)

  datatype FeatureFlag = Enabled | Disabled

  /** The decoder's record. Numeric fields are unbounded: `currentWidth` is a
      payload plus one and the extents hold sums and maxima of payloads, which
      the source keeps in `u32` without guarding against overflow. */
  datatype Ice40 = Ice40(
    offset: nat,           // bytes consumed by the preamble search
    currentBank: nat,
    currentWidth: nat,
    currentHeight: nat,
    currentOffset: nat,
    cramWidth: nat,
    cramHeight: nat,
    bramWidth: nat,
    bramHeight: nat,
    crc: u16,              // the CRC register; only ever reset
    warmboot: FeatureFlag,
    nosleep: FeatureFlag,
    frequencyRange: FrequencyRange)

  /** The record as `from_file` creates it, before any byte is read. */
  const Initial: Ice40 :=
    Ice40(0, 0, 0, 0, 0, 0, 0, 0, 0, 0, Disabled, Disabled, Undefined)

  /** The value a CRC reset (sub-command 0x05) puts in the register. */
  const CrcReset: u16 := 0xFFFF

  /** One arm per place the source aborts. `EndOfStream` stands for reading
      past the last byte, which the source does not detect. */
  datatype Error =
    | EndOfStream
    | UnknownSubcommand(sub: u32)       // opcode 0, payload not 1, 3, 5 or 6
    | Unimplemented(opcode: nat)        // opcodes 3 and 4
    | BadFeatureFlags(flags: u32)       // opcode 9, payload not 0, 1, 32 or 33
    | UnknownCommand(opcode: nat)       // opcodes 10 to 15

  datatype Result<T> = Ok(value: T) | Err(error: Error) {

    predicate IsFailure()
    {
      Err?
    }

    function PropagateFailure<U>(): Result<U>
      requires Err?
    {
      Err(error)
    }

    function Extract(): T
      requires Ok?
    {
      value
    }
  }

  /** Whether `st` is at least `before` in every CRAM and BRAM extent. */
  predicate ExtentsGrow(before: Ice40, st: Ice40)
  {
    && before.cramWidth <= st.cramWidth && before.cramHeight <= st.cramHeight
    && before.bramWidth <= st.bramWidth && before.bramHeight <= st.bramHeight
  }
}
