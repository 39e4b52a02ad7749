/**
 * The command-stream decoder's single step: the body of the second loop of
 * `from_file`. A command byte carries the opcode in its high nibble and the
 * payload length in its low nibble; the payload is folded big-endian into a
 * `u32`; the opcode then updates the record, starts a CRAM or BRAM data block,
 * wakes the device (ending the stream) or aborts the decode.
 */
module Commands {

  import opened Bytes
  import opened Bitstream

  /** A decoded command header; `next` is the position just past its payload. */
  datatype Command = Command(opcode: nat, payload: u32, next: nat)

  /** Whether a whole command header (byte and payload) lies inside `s`. */
  predicate Framed(s: seq<byte>, pos: nat)
  {
    pos < |s| && pos + 1 + Length(s[pos]) <= |s|
  }

  /** The payload of a well-framed command at `pos`, as the big-endian value
      of its payload bytes truncated to 32 bits. */
  function PayloadAt(s: seq<byte>, pos: nat): nat
    requires Framed(s, pos)
  {
    BigEndian(s[pos + 1..pos + 1 + Length(s[pos])]) % U32Modulus
  }

  /** Reads the command byte at `pos` and its payload. */
  function ReadCommand(s: seq<byte>, pos: nat): (r: Result<Command>)
    ensures r.Ok? <==> Framed(s, pos)
    ensures r.Ok? ==> r.value.opcode == Opcode(s[pos])
    ensures r.Ok? ==> r.value.next == pos + 1 + Length(s[pos])
    ensures r.Ok? ==> r.value.payload == PayloadAt(s, pos)
    ensures r.Err? ==> r.error == EndOfStream
  {
    if pos >= |s| then
      Err(EndOfStream)
    else
      var next := pos + 1 + Length(s[pos]);
      if next > |s| then
        Err(EndOfStream)
      else
        RegisterIsTruncatedBigEndian(s[pos + 1..next]);
        Ok(Command(Opcode(s[pos]), Register(s[pos + 1..next]), next))
  }

  datatype Memory = Cram | Bram

  /** What a successfully dispatched command asks of the decoder: carry on
      with a new record, carry on after skipping a data block, or stop. */
  datatype Effect = Update(st: Ice40) | Block(mem: Memory, st: Ice40) | Wake

  function Max(a: nat, b: nat): (m: nat)
    ensures m >= a && m >= b && (m == a || m == b)
  {
    if a >= b then a else b
  }

  /** The record after a data block for `mem` is announced: that memory's
      extent grows to cover the block's declared rectangle. */
  function Extend(st: Ice40, mem: Memory): (r: Ice40)
    ensures mem == Cram ==> r == st.(cramWidth := r.cramWidth, cramHeight := r.cramHeight)
    ensures mem == Bram ==> r == st.(bramWidth := r.bramWidth, bramHeight := r.bramHeight)
    ensures ExtentsGrow(st, r)
    ensures mem == Cram ==> st.currentWidth <= r.cramWidth && st.currentOffset + st.currentHeight <= r.cramHeight
    ensures mem == Bram ==> st.currentWidth <= r.bramWidth && st.currentOffset + st.currentHeight <= r.bramHeight
    ensures mem == Cram ==> r.cramWidth in {st.cramWidth, st.currentWidth}
    ensures mem == Cram ==> r.cramHeight in {st.cramHeight, st.currentOffset + st.currentHeight}
    ensures mem == Bram ==> r.bramWidth in {st.bramWidth, st.currentWidth}
    ensures mem == Bram ==> r.bramHeight in {st.bramHeight, st.currentOffset + st.currentHeight}
  {
    match mem
    case Cram =>
      st.(cramWidth := Max(st.cramWidth, st.currentWidth),
          cramHeight := Max(st.cramHeight, st.currentOffset + st.currentHeight))
    case Bram =>
      st.(bramWidth := Max(st.bramWidth, st.currentWidth),
          bramHeight := Max(st.bramHeight, st.currentOffset + st.currentHeight))
  }

  /** Announcing the same block twice grows the extents no further. */
  lemma ExtendIdempotent(st: Ice40, mem: Memory)
    ensures Extend(Extend(st, mem), mem) == Extend(st, mem)
  {
  }

  /** Opcode 5's payload as a frequency range. */
  function Frequency(payload: u32): (f: FrequencyRange)
    ensures f != Undefined
    ensures payload == 0 <==> f == Low
    ensures payload == 1 <==> f == Medium
    ensures payload == 2 <==> f == High
    ensures f.Unknown? <==> payload > 2
    ensures f.Unknown? ==> f.code == payload
  {
    match payload
    case 0 => Low
    case 1 => Medium
    case 2 => High
    case _ => Unknown(payload)
  }

  /** Opcode 9's payload as the (warmboot, nosleep) pair: bit 5 is warm boot,
      bit 0 is no-sleep, and no other bit may be set. */
  function FeatureFlags(payload: u32): (r: Result<(FeatureFlag, FeatureFlag)>)
    ensures r.Ok? <==> payload in {0, 1, 32, 33}
    ensures r.Ok? ==> (r.value.0 == Enabled <==> payload >= 32)
    ensures r.Ok? ==> (r.value.1 == Enabled <==> payload % 2 == 1)
    ensures r.Err? ==> r.error == BadFeatureFlags(payload)
  {
    match payload
    case 0 => Ok((Disabled, Disabled))
    case 1 => Ok((Disabled, Enabled))
    case 32 => Ok((Enabled, Disabled))
    case 33 => Ok((Enabled, Enabled))
    case _ => Err(BadFeatureFlags(payload))
  }

  /** Dispatch on the opcode, and for opcode 0 on the payload. */
  function Dispatch(st: Ice40, opcode: nat, payload: u32): (r: Result<Effect>)
    ensures r.Err? <==>
      || opcode in {3, 4} || opcode >= 10
      || (opcode == 0 && payload !in {1, 3, 5, 6})
      || (opcode == 9 && payload !in {0, 1, 32, 33})
    ensures r == Ok(Wake) <==> opcode == 0 && payload == 6
    ensures r.Ok? && r.value.Block? <==> opcode == 0 && payload in {1, 3}
    ensures r.Ok? && r.value.Block? ==> r.value.st == Extend(st, r.value.mem)
    ensures r.Ok? && !r.value.Wake? ==> ExtentsGrow(st, r.value.st)
  {
    match opcode
    case 0 =>
      if payload == 0x01 then Ok(Block(Cram, Extend(st, Cram)))
      else if payload == 0x03 then Ok(Block(Bram, Extend(st, Bram)))
      else if payload == 0x05 then Ok(Update(st.(crc := CrcReset)))
      else if payload == 0x06 then Ok(Wake)
      else Err(UnknownSubcommand(payload))
    case 1 => Ok(Update(st.(currentBank := payload)))
    case 2 => Ok(Update(st))
    case 3 => Err(Unimplemented(3))
    case 4 => Err(Unimplemented(4))
    case 5 => Ok(Update(st.(frequencyRange := Frequency(payload))))
    case 6 => Ok(Update(st.(currentWidth := payload + 1)))
    case 7 => Ok(Update(st.(currentHeight := payload)))
    case 8 => Ok(Update(st.(currentOffset := payload)))
    case 9 =>
      var flags :- FeatureFlags(payload);
      Ok(Update(st.(warmboot := flags.0, nosleep := flags.1)))
    case _ => Err(UnknownCommand(opcode))
  }

  /** Bytes of configuration data in a block of the record's current
      dimensions (the bit count divided by 8, rounding down). */
  function BlockBytes(st: Ice40): nat
  {
    (st.currentWidth * st.currentHeight) / 8
  }

  /** A block's byte count holds all its whole bytes of bits; fewer than 8
      bits are left over and dropped. */
  lemma BlockBytesRoundsDown(st: Ice40)
    ensures 8 * BlockBytes(st) <= st.currentWidth * st.currentHeight < 8 * BlockBytes(st) + 8
  {
    var bits := st.currentWidth * st.currentHeight;
    assert bits == 8 * (bits / 8) + bits % 8;
  }

  /** Bytes after a data block that are expected to be zero. */
  const TrailerBytes: nat := 2

  /** The decoder either carries on from `next` or has been woken up. */
  datatype Outcome = Continue(next: nat, st: Ice40) | Done(next: nat, st: Ice40)

  /** One iteration of the command loop at position `pos`. */
  function Step(s: seq<byte>, pos: nat, st: Ice40): (r: Result<Outcome>)
    ensures r.Ok? ==> pos < r.value.next <= |s|
    ensures r.Ok? ==> ExtentsGrow(st, r.value.st)
    ensures r.Ok? ==> r.value.st.offset == st.offset
  {
    var cmd :- ReadCommand(s, pos);
    var effect :- Dispatch(st, cmd.opcode, cmd.payload);
    match effect
    case Update(st') => Ok(Continue(cmd.next, st'))
    case Wake => Ok(Done(cmd.next, st))
    case Block(_, st') =>
      var end := cmd.next + BlockBytes(st) + TrailerBytes;
      if end > |s| then Err(EndOfStream) else Ok(Continue(end, st'))
  }

  /** A command cut short by the end of the stream fails with `EndOfStream`. */
  lemma TruncatedCommandFails(s: seq<byte>, pos: nat, st: Ice40)
    requires !Framed(s, pos)
    ensures Step(s, pos, st) == Err(EndOfStream)
  {
  }

  /** Setter commands write their payload to their own field and nothing else,
      and consume exactly the command byte and its payload. */
  lemma SetterStep(s: seq<byte>, pos: nat, st: Ice40)
    requires Framed(s, pos)
    ensures var p, next := PayloadAt(s, pos), pos + 1 + Length(s[pos]);
      && (Opcode(s[pos]) == 1 ==> Step(s, pos, st) == Ok(Continue(next, st.(currentBank := p))))
      && (Opcode(s[pos]) == 2 ==> Step(s, pos, st) == Ok(Continue(next, st)))
      && (Opcode(s[pos]) == 5 ==> Step(s, pos, st) == Ok(Continue(next, st.(frequencyRange := Frequency(p)))))
      && (Opcode(s[pos]) == 6 ==> Step(s, pos, st) == Ok(Continue(next, st.(currentWidth := p + 1))))
      && (Opcode(s[pos]) == 7 ==> Step(s, pos, st) == Ok(Continue(next, st.(currentHeight := p))))
      && (Opcode(s[pos]) == 8 ==> Step(s, pos, st) == Ok(Continue(next, st.(currentOffset := p))))
  {
  }

  /** Sub-command 0x05 resets the CRC register and changes nothing else. */
  lemma CrcResetStep(s: seq<byte>, pos: nat, st: Ice40)
    requires Framed(s, pos) && Opcode(s[pos]) == 0 && PayloadAt(s, pos) == 5
    ensures Step(s, pos, st) == Ok(Continue(pos + 1 + Length(s[pos]), st.(crc := 0xFFFF)))
  {
  }

  /** Opcode 9 sets both feature flags at once from the four legal payloads
      and rejects every other payload. */
  lemma FeatureFlagStep(s: seq<byte>, pos: nat, st: Ice40)
    requires Framed(s, pos) && Opcode(s[pos]) == 9
    ensures var p, r := PayloadAt(s, pos), Step(s, pos, st);
      && (r.Ok? <==> p in {0, 1, 32, 33})
      && (r.Err? ==> r.error == BadFeatureFlags(p))
      && (r.Ok? ==> r.value.Continue? && r.value.next == pos + 1 + Length(s[pos]))
      && (r.Ok? ==> r.value.st == st.(warmboot := r.value.st.warmboot, nosleep := r.value.st.nosleep))
      && (r.Ok? ==> (r.value.st.warmboot == Enabled <==> p in {32, 33}))
      && (r.Ok? ==> (r.value.st.nosleep == Enabled <==> p in {1, 33}))
  {
  }

  /** A CRAM (0x01) or BRAM (0x03) data command skips exactly the block's
      data bytes and the two trailer bytes, and grows only its own memory's
      extent. */
  lemma DataBlockStep(s: seq<byte>, pos: nat, st: Ice40)
    requires Framed(s, pos) && Opcode(s[pos]) == 0 && PayloadAt(s, pos) in {1, 3}
    ensures var mem, r := if PayloadAt(s, pos) == 1 then Cram else Bram, Step(s, pos, st);
      var end := pos + 1 + Length(s[pos]) + BlockBytes(st) + 2;
      && (r.Ok? <==> end <= |s|)
      && (r.Err? ==> r.error == EndOfStream)
      && (r.Ok? ==> r == Ok(Continue(end, Extend(st, mem))))
  {
  }

  /** The only command that ends the loop is sub-command 0x06, and it leaves
      the record as it was. */
  lemma WakeupStep(s: seq<byte>, pos: nat, st: Ice40)
    ensures Step(s, pos, st).Ok? && Step(s, pos, st).value.Done? <==>
      Framed(s, pos) && Opcode(s[pos]) == 0 && PayloadAt(s, pos) == 6
    ensures Step(s, pos, st).Ok? && Step(s, pos, st).value.Done? ==>
      Step(s, pos, st).value == Done(pos + 1 + Length(s[pos]), st)
  {
  }

  /** The commands that abort the decode, and the error each one reports. */
  lemma RejectedStep(s: seq<byte>, pos: nat, st: Ice40)
    requires Framed(s, pos)
    ensures var op, p, r := Opcode(s[pos]), PayloadAt(s, pos), Step(s, pos, st);
      && (r.Err? && r.error != EndOfStream <==>
           || op in {3, 4} || op >= 10
           || (op == 0 && p !in {1, 3, 5, 6})
           || (op == 9 && p !in {0, 1, 32, 33}))
      && (op in {3, 4} ==> r == Err(Unimplemented(op)))
      && (op >= 10 ==> r == Err(UnknownCommand(op)))
      && (op == 0 && p !in {1, 3, 5, 6} ==> r == Err(UnknownSubcommand(p)))
  {
  }

  /** A step inspects only the command header: the bytes of a data block and
      its trailer are skipped unread, so their values (a non-zero trailer
      included) never change the outcome. */
  lemma StepReadsOnlyHeader(s: seq<byte>, t: seq<byte>, pos: nat, st: Ice40)
    requires Framed(s, pos)
    requires |t| == |s| && t[..pos + 1 + Length(s[pos])] == s[..pos + 1 + Length(s[pos])]
    ensures Step(t, pos, st) == Step(s, pos, st)
  {
    var next := pos + 1 + Length(s[pos]);
    assert t[pos] == t[..next][pos];
    assert t[pos + 1..next] == t[..next][pos + 1..];
    assert s[pos + 1..next] == s[..next][pos + 1..];
  }

  lemma SliceOfPrefix(s: seq<byte>, end: nat, i: nat, j: nat)
    requires i <= j <= end <= |s|
    ensures s[..end][i..j] == s[i..j]
  {
  }

  /** A successful step reads nothing at or beyond the position it returns,
      so any stream agreeing up to that position steps the same way. */
  lemma StepReadsOnlyPrefix(s: seq<byte>, t: seq<byte>, pos: nat, st: Ice40)
    requires Step(s, pos, st).Ok?
    requires Step(s, pos, st).value.next <= |t|
    requires t[..Step(s, pos, st).value.next] == s[..Step(s, pos, st).value.next]
    ensures Step(t, pos, st) == Step(s, pos, st)
  {
    var end := Step(s, pos, st).value.next;
    var next := pos + 1 + Length(s[pos]);
    assert ReadCommand(s, pos).Ok? && ReadCommand(s, pos).value.next == next <= end;
    assert t[pos] == t[..end][pos];
    SliceOfPrefix(t, end, pos + 1, next);
    SliceOfPrefix(s, end, pos + 1, next);
  }
}
