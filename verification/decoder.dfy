/**
 * The whole decode, `Ice40Bitstream::from_file`: find the preamble, then run
 * the command loop from the record's initial value until the wakeup command.
 * `Run` and `Decode` are the reference definitions; `FromBytes` is the same
 * computation written as the source's two loops.
 */
module Decoder {

  import opened Bytes
  import opened Bitstream
  import opened Preamble
  import opened Commands

  /** A finished command loop: the record at wakeup and the position just
      past the wakeup command. */
  datatype Finished = Finished(st: Ice40, end: nat)

  /** The command loop from position `pos` with record `st`. */
  function Run(s: seq<byte>, pos: nat, st: Ice40): (r: Result<Finished>)
    ensures r.Ok? ==> pos < r.value.end <= |s|
    ensures r.Ok? ==> ExtentsGrow(st, r.value.st)
    ensures r.Ok? ==> r.value.st.offset == st.offset
    decreases |s| - pos
  {
    var out :- Step(s, pos, st);
    match out
    case Done(next, st') => Ok(Finished(st', next))
    case Continue(next, st') => Run(s, next, st')
  }

  /** The record the command loop starts from once the preamble ends at `start`. */
  function StartState(start: nat): (r: Ice40)
    ensures r.offset == start
    ensures r.currentBank == 0 && r.currentWidth == 0 && r.currentHeight == 0 && r.currentOffset == 0
    ensures r.cramWidth == 0 && r.cramHeight == 0 && r.bramWidth == 0 && r.bramHeight == 0
    ensures r.crc == 0 && r.warmboot == Disabled && r.nosleep == Disabled
    ensures r.frequencyRange == Undefined
  {
    Initial.(offset := start)
  }

  /** Decoding a whole byte stream. */
  function Decode(s: seq<byte>): (r: Result<Ice40>)
    ensures FindPreamble(s).Err? ==> r == Err(EndOfStream)
    ensures r.Ok? ==> FindPreamble(s).Ok? && r.value.offset == FindPreamble(s).value
  {
    var start :- FindPreamble(s);
    var fin :- Run(s, start, StartState(start));
    Ok(fin.st)
  }

  /** The preamble loop as the source writes it: shift each byte into the
      window and count it, until the window holds the magic value. */
  method SyncPreamble(s: seq<byte>) returns (r: Result<nat>)
    ensures r == FindPreamble(s)
  {
    var offset: nat := 0;
    var window: u32 := 0;
    while true
      invariant offset <= |s| && window == Register(s[..offset])
      invariant SeekPreamble(s, offset, window) == FindPreamble(s)
      decreases |s| - offset
    {
      if offset == |s| {
        return Err(EndOfStream);
      }
      assert s[..offset + 1][..offset] == s[..offset];
      window := ShiftIn(window, s[offset]);
      offset := offset + 1;
      if window == Magic {
        return Ok(offset);
      }
    }
  }

  /** Reading one command as the source does: the command byte, then a loop
      shifting each payload byte into a `u32`. */
  method ReadCommandBytes(s: seq<byte>, pos: nat) returns (r: Result<Command>)
    ensures r == ReadCommand(s, pos)
  {
    if pos >= |s| {
      return Err(EndOfStream);
    }
    var b := s[pos];
    var len := Length(b);
    var payload: u32 := 0;
    var i := 0;
    while i < len
      invariant i <= len && pos + 1 + i <= |s|
      invariant payload == Register(s[pos + 1..pos + 1 + i])
    {
      if pos + 1 + i == |s| {
        return Err(EndOfStream);
      }
      assert s[pos + 1..pos + 2 + i][..i] == s[pos + 1..pos + 1 + i];
      payload := ShiftIn(payload, s[pos + 1 + i]);
      i := i + 1;
    }
    return Ok(Command(Opcode(b), payload, pos + 1 + len));
  }

  /** The command loop as the source writes it: one command per iteration
      while the wakeup flag is clear. */
  method RunCommands(s: seq<byte>, start: nat, init: Ice40) returns (r: Result<Finished>)
    ensures r == Run(s, start, init)
  {
    var st := init;
    var pos := start;
    var wakeup := Disabled;
    while wakeup == Disabled
      invariant wakeup == Disabled ==> Run(s, pos, st) == Run(s, start, init)
      invariant wakeup == Enabled ==> Run(s, start, init) == Ok(Finished(st, pos))
      invariant wakeup == Enabled ==> pos <= |s|
      decreases |s| - pos, wakeup == Disabled
    {
      ghost var here, before := pos, st;
      var cmd :- ReadCommandBytes(s, pos);
      var effect :- Dispatch(st, cmd.opcode, cmd.payload);
      match effect {
        case Update(st') =>
          assert Step(s, here, before) == Ok(Continue(cmd.next, st'));
          st, pos := st', cmd.next;
        case Block(_, st') =>
          // The data bytes and the trailer are skipped.
          var end := cmd.next + BlockBytes(st) + TrailerBytes;
          if end > |s| {
            assert Step(s, here, before) == Err(EndOfStream);
            return Err(EndOfStream);
          }
          assert Step(s, here, before) == Ok(Continue(end, st'));
          st, pos := st', end;
        case Wake =>
          assert Step(s, here, before) == Ok(Done(cmd.next, st));
          pos, wakeup := cmd.next, Enabled;
      }
    }
    return Ok(Finished(st, pos));
  }

  /** The decoder as the source writes it: the preamble loop, then the
      command loop from the initial record. */
  method FromBytes(s: seq<byte>) returns (r: Result<Ice40>)
    ensures r == Decode(s)
  {
    var start :- SyncPreamble(s);
    var fin :- RunCommands(s, start, StartState(start));
    return Ok(fin.st);
  }

  /** The loop's state after `k` further iterations from `pos` (or the
      outcome of the iteration that stopped it earlier). */
  function Iterate(s: seq<byte>, pos: nat, st: Ice40, k: nat): Result<Outcome>
    decreases k
  {
    var out :- Step(s, pos, st);
    if k == 0 || out.Done? then Ok(out) else Iterate(s, out.next, out.st, k - 1)
  }

  /** The command loop succeeds exactly when some iteration is a wakeup; the
      record it returns is the record at that wakeup. */
  lemma {:induction false} RunSucceedsIffWakeup(s: seq<byte>, pos: nat, st: Ice40, f: Finished)
    ensures Run(s, pos, st) == Ok(f) <==> exists k: nat :: Iterate(s, pos, st, k) == Ok(Done(f.end, f.st))
    decreases |s| - pos
  {
    if Run(s, pos, st) == Ok(f) {
      var out := Step(s, pos, st).value;
      if out.Done? {
        assert Iterate(s, pos, st, 0) == Ok(Done(f.end, f.st));
      } else {
        RunSucceedsIffWakeup(s, out.next, out.st, f);
        var k: nat :| Iterate(s, out.next, out.st, k) == Ok(Done(f.end, f.st));
        assert Iterate(s, pos, st, k + 1) == Ok(Done(f.end, f.st));
      }
    }
    if exists k: nat :: Iterate(s, pos, st, k) == Ok(Done(f.end, f.st)) {
      var k: nat :| Iterate(s, pos, st, k) == Ok(Done(f.end, f.st));
      RunFromIterate(s, pos, st, k, f);
    }
  }

  lemma {:induction false} RunFromIterate(s: seq<byte>, pos: nat, st: Ice40, k: nat, f: Finished)
    requires Iterate(s, pos, st, k) == Ok(Done(f.end, f.st))
    ensures Run(s, pos, st) == Ok(f)
    decreases k
  {
    var out := Step(s, pos, st).value;
    if out.Continue? {
      RunFromIterate(s, out.next, out.st, k - 1, f);
    }
  }

  /** A successful command loop ends just after a wakeup command, which
      leaves the record unchanged. */
  lemma {:induction false} RunEndsWithWakeup(s: seq<byte>, pos: nat, st: Ice40)
    requires Run(s, pos, st).Ok?
    ensures var f := Run(s, pos, st).value;
      exists q :: pos <= q < f.end && Framed(s, q) && q + 1 + Length(s[q]) == f.end
        && Opcode(s[q]) == 0 && PayloadAt(s, q) == 6 && Step(s, q, f.st) == Ok(Done(f.end, f.st))
    decreases |s| - pos
  {
    var f := Run(s, pos, st).value;
    var out := Step(s, pos, st).value;
    WakeupStep(s, pos, st);
    if out.Continue? {
      RunEndsWithWakeup(s, out.next, out.st);
    } else {
      WakeupStep(s, pos, f.st);
      assert Framed(s, pos) && Step(s, pos, f.st) == Ok(Done(f.end, f.st));
    }
  }

  /** A successful command loop reads nothing past its wakeup command. */
  lemma {:induction false} RunReadsOnlyPrefix(s: seq<byte>, t: seq<byte>, pos: nat, st: Ice40)
    requires Run(s, pos, st).Ok?
    requires Run(s, pos, st).value.end <= |t|
    requires t[..Run(s, pos, st).value.end] == s[..Run(s, pos, st).value.end]
    ensures Run(t, pos, st) == Run(s, pos, st)
    decreases |s| - pos
  {
    var end := Run(s, pos, st).value.end;
    var out := Step(s, pos, st).value;
    assert t[..out.next] == t[..end][..out.next];
    assert s[..out.next] == s[..end][..out.next];
    StepReadsOnlyPrefix(s, t, pos, st);
    if out.Continue? {
      RunReadsOnlyPrefix(s, t, out.next, out.st);
    }
  }

  /** The first magic sequence is found wherever it lies. */
  lemma FindPreambleIsFirstMatch(s: seq<byte>, n: nat)
    requires MagicEndsAt(s, n)
    requires forall q: nat :: q < n ==> !MagicEndsAt(s, q)
    ensures FindPreamble(s) == Ok(n)
  {
  }

  /** The preamble search reads nothing past the end of the first magic sequence. */
  lemma FindPreambleReadsOnlyPrefix(s: seq<byte>, t: seq<byte>)
    requires FindPreamble(s).Ok?
    requires FindPreamble(s).value <= |t|
    requires t[..FindPreamble(s).value] == s[..FindPreamble(s).value]
    ensures FindPreamble(t) == FindPreamble(s)
  {
    var n := FindPreamble(s).value;
    forall q: nat | q <= n
      ensures MagicEndsAt(t, q) <==> MagicEndsAt(s, q)
    {
      if 4 <= q {
        assert t[q - 4..q] == t[..n][q - 4..q];
        assert s[q - 4..q] == s[..n][q - 4..q];
      }
    }
    FindPreambleIsFirstMatch(t, n);
  }

  /** Bytes after the wakeup command are never read: appending anything to a
      stream that decodes leaves the result unchanged. */
  lemma DecodeIgnoresTrailingBytes(s: seq<byte>, extra: seq<byte>)
    requires Decode(s).Ok?
    ensures Decode(s + extra) == Decode(s)
  {
    var t := s + extra;
    var start := FindPreamble(s).value;
    assert t[..start] == s[..start];
    FindPreambleReadsOnlyPrefix(s, t);
    var fin := Run(s, start, StartState(start)).value;
    assert t[..fin.end] == s[..fin.end];
    RunReadsOnlyPrefix(s, t, start, StartState(start));
  }

  /** A decode succeeds with record `st` exactly when the stream holds a
      preamble and the command loop started after it reaches a wakeup command
      whose record is `st`. */
  lemma DecodeSucceedsIffWakeup(s: seq<byte>, st: Ice40)
    ensures Decode(s) == Ok(st) <==>
      && FindPreamble(s).Ok?
      && var p := FindPreamble(s).value;
         exists k: nat, e: nat :: Iterate(s, p, StartState(p), k) == Ok(Done(e, st))
  {
    if FindPreamble(s).Ok? {
      var p := FindPreamble(s).value;
      if Decode(s) == Ok(st) {
        var f := Run(s, p, StartState(p)).value;
        RunSucceedsIffWakeup(s, p, StartState(p), f);
        var k: nat :| Iterate(s, p, StartState(p), k) == Ok(Done(f.end, f.st));
        assert Iterate(s, p, StartState(p), k) == Ok(Done(f.end, st));
      }
      if exists k: nat, e: nat :: Iterate(s, p, StartState(p), k) == Ok(Done(e, st)) {
        var k: nat, e: nat :| Iterate(s, p, StartState(p), k) == Ok(Done(e, st));
        var f := Finished(st, e);
        assert Iterate(s, p, StartState(p), k) == Ok(Done(f.end, f.st));
        RunSucceedsIffWakeup(s, p, StartState(p), f);
        assert Run(s, p, StartState(p)) == Ok(f);
      }
    }
  }
}
