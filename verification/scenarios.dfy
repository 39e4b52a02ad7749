/**
 * Worked streams: a complete small bitstream decoded end to end, and the
 * framing of single commands.
 */
module Scenarios {

  import opened Bytes
  import opened Bitstream
  import opened Preamble
  import opened Commands
  import opened Decoder

  /** Two bytes of padding, the preamble, then: bank 1, width 8, height 1,
      offset 0, one CRAM byte with its zero trailer, wakeup, and one byte that
      is never read. */
  const Example: seq<byte> := [
    0xFF, 0x00, 0x7E, 0xAA, 0x99, 0x7E,
    0x11, 0x01,
    0x62, 0x00, 0x07,
    0x71, 0x01,
    0x81, 0x00,
    0x01, 0x01, 0xFF, 0x00, 0x00,
    0x01, 0x06,
    0xAB]

  /** The record after each command of the example. */
  const S0: Ice40 := StartState(6)
  const S1: Ice40 := S0.(currentBank := 1)
  const S2: Ice40 := S1.(currentWidth := 8)
  const S3: Ice40 := S2.(currentHeight := 1)
  const S4: Ice40 := S3.(currentOffset := 0)
  const S5: Ice40 := S4.(cramWidth := 8, cramHeight := 1)

  lemma ExampleDecodes()
    ensures Decode(Example) == Ok(S5)
    ensures S5 == Initial.(offset := 6, currentBank := 1, currentWidth := 8,
      currentHeight := 1, cramWidth := 8, cramHeight := 1)
  {
    ExamplePreamble();
    ExampleCommands();
  }

  /** The preamble of the example ends at position 6. */
  lemma ExamplePreamble()
    ensures FindPreamble(Example) == Ok(6)
  {
    assert Example[2..6] == MagicBytes;
    assert MagicEndsAt(Example, 6);
    forall q: nat | q < 6
      ensures !MagicEndsAt(Example, q)
    {
      if 4 <= q {
        assert Example[q - 4..q][0] == Example[q - 4] != MagicBytes[0];
      }
    }
    FindPreambleIsFirstMatch(Example, 6);
  }

  /** The example's command stream, run from the end of its preamble. */
  lemma ExampleCommands()
    ensures Run(Example, 6, S0) == Ok(Finished(S5, 22))
  {
    SetBankStep();
    SetWidthStep();
    SetHeightStep();
    SetOffsetStep();
    CramStep();
    WakeupAtEnd();
    assert Run(Example, 15, S4) == Ok(Finished(S5, 22));
    assert Run(Example, 11, S2) == Ok(Finished(S5, 22));
  }

  lemma SetBankStep()
    ensures Step(Example, 6, S0) == Ok(Continue(8, S1))
  {
    CommandAt(Example, 6, 1, 1, 1, 8);
  }

  lemma SetWidthStep()
    ensures Step(Example, 8, S1) == Ok(Continue(11, S2))
  {
    CommandAt2(Example, 8, 6, 0x00, 0x07, 7, 11);
  }

  lemma SetHeightStep()
    ensures Step(Example, 11, S2) == Ok(Continue(13, S3))
  {
    CommandAt(Example, 11, 7, 1, 1, 13);
  }

  lemma SetOffsetStep()
    ensures Step(Example, 13, S3) == Ok(Continue(15, S4))
  {
    CommandAt(Example, 13, 8, 0, 0, 15);
  }

  lemma CramStep()
    ensures Step(Example, 15, S4) == Ok(Continue(20, S5))
  {
    CommandAt(Example, 15, 0, 1, 1, 17);
    assert BlockBytes(S4) == 1;
  }

  lemma WakeupAtEnd()
    ensures Step(Example, 20, S5) == Ok(Done(22, S5))
  {
    CommandAt(Example, 20, 0, 6, 6, 22);
  }

  /** `62 00 27`: opcode 6 with the two-byte payload 39 sets the width to 40. */
  lemma WidthExample(st: Ice40)
    ensures Step([0x62, 0x00, 0x27], 0, st) == Ok(Continue(3, st.(currentWidth := 40)))
  {
    CommandAt2([0x62, 0x00, 0x27], 0, 6, 0x00, 0x27, 39, 3);
  }

  /** `91 21`: feature flags 33 turn on both warm boot and no-sleep. */
  lemma BothFlagsExample(st: Ice40)
    ensures Step([0x91, 0x21], 0, st) == Ok(Continue(2, st.(warmboot := Enabled, nosleep := Enabled)))
  {
    CommandAt([0x91, 0x21], 0, 9, 0x21, 33, 2);
  }

  /** `91 02`: feature flags 2 are rejected. */
  lemma BadFlagsExample(st: Ice40)
    ensures Step([0x91, 0x02], 0, st) == Err(BadFeatureFlags(2))
  {
    CommandAt([0x91, 0x02], 0, 9, 0x02, 2, 2);
  }

  /** A command byte with one payload byte. */
  lemma CommandAt(s: seq<byte>, pos: nat, opcode: nat, p: byte, payload: u32, next: nat)
    requires pos + 2 == next <= |s| && s[pos] as nat == opcode * 16 + 1 && opcode < 16
    requires s[pos + 1] == p && p as nat == payload
    ensures ReadCommand(s, pos) == Ok(Command(opcode, payload, next))
  {
    CommandByteSplit(s[pos]);
    assert Length(s[pos]) == 1 && Opcode(s[pos]) == opcode;
    var bs := s[pos + 1..next];
    assert bs[..0] == [] && bs[0] == p;
    assert BigEndian(bs) == payload;
  }

  /** A command byte with two payload bytes. */
  lemma CommandAt2(s: seq<byte>, pos: nat, opcode: nat, hi: byte, lo: byte, payload: u32, next: nat)
    requires pos + 3 == next <= |s| && s[pos] as nat == opcode * 16 + 2 && opcode < 16
    requires s[pos + 1] == hi && s[pos + 2] == lo && hi as nat * 256 + lo as nat == payload
    ensures ReadCommand(s, pos) == Ok(Command(opcode, payload, next))
  {
    CommandByteSplit(s[pos]);
    assert Length(s[pos]) == 2 && Opcode(s[pos]) == opcode;
    var bs := s[pos + 1..next];
    assert BigEndian(bs) == payload by {
      assert bs[..1][..0] == [] && bs[..1] == [hi] && bs[1] == lo;
      assert BigEndian(bs[..1]) == hi as nat;
    }
    assert PayloadAt(s, pos) == payload;
  }
}
