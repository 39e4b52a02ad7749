/**
 * The preamble synchroniser: the first loop of `from_file`. Bytes are shifted
 * into a 32-bit window one at a time until the window holds 0x7EAA997E; the
 * number of bytes consumed is where the command stream starts.
 */
module Preamble {

  import opened Bytes
  import opened Bitstream

  const Magic: u32 := 0x7EAA997E

  const MagicBytes: seq<byte> := [0x7E, 0xAA, 0x99, 0x7E]

  /** The first `n` bytes of `s` end with the magic sequence. */
  predicate MagicEndsAt(s: seq<byte>, n: nat)
  {
    4 <= n <= |s| && s[n - 4..n] == MagicBytes
  }

  /** The big-endian value of four bytes, written out. */
  lemma BigEndianOfFour(w: seq<byte>)
    requires |w| == 4
    ensures BigEndian(w) == ((w[0] as nat * 256 + w[1] as nat) * 256 + w[2] as nat) * 256 + w[3] as nat
  {
    assert w[..3][..2][..1][..0] == [];
    assert w[..3][..2] == w[..2] && w[..2][..1] == w[..1];
    assert BigEndian(w[..1]) == w[0] as nat;
    assert BigEndian(w[..2]) == w[0] as nat * 256 + w[1] as nat;
    assert BigEndian(w[..3]) == (w[0] as nat * 256 + w[1] as nat) * 256 + w[2] as nat;
  }

  /** Base-256 digits are unique, so only one digit string spells the magic value. */
  lemma MagicDigits(a: nat, b: nat, c: nat, d: nat)
    requires a < 256 && b < 256 && c < 256 && d < 256
    ensures ((a * 256 + b) * 256 + c) * 256 + d == Magic <==>
      a == 0x7E && b == 0xAA && c == 0x99 && d == 0x7E
  {
  }

  /** Four bytes read big-endian give the magic value exactly when they are
      the magic sequence. */
  lemma FourBytesAreMagic(w: seq<byte>)
    requires |w| == 4
    ensures BigEndian(w) == Magic <==> w == MagicBytes
  {
    BigEndianOfFour(w);
    MagicDigits(w[0] as nat, w[1] as nat, w[2] as nat, w[3] as nat);
    if BigEndian(w) == Magic {
      assert w == [w[0], w[1], w[2], w[3]];
    }
  }

  /** The window after `n` bytes equals the magic value exactly when those
      `n` bytes end with the magic sequence: the zero-initialised window cannot
      match early, and older bytes have been shifted out. */
  lemma WindowSeesMagic(s: seq<byte>, n: nat)
    requires n <= |s|
    ensures Register(s[..n]) == Magic <==> MagicEndsAt(s, n)
  {
    if n < 4 {
      RegisterOfShort(s[..n]);
    } else {
      RegisterKeepsLastFour(s[..n]);
      assert s[..n][n - 4..] == s[n - 4..n];
      FourBytesAreMagic(s[n - 4..n]);
    }
  }

  /** The search loop from position `n` with the window `window` built so far.
      It succeeds with the position just past the first magic sequence ending
      after `n`, and fails only when no such sequence remains. */
  function SeekPreamble(s: seq<byte>, n: nat, window: u32): (r: Result<nat>)
    requires n <= |s| && window == Register(s[..n])
    ensures r.Ok? ==> n < r.value <= |s| && MagicEndsAt(s, r.value)
    ensures r.Ok? ==> forall q :: n < q < r.value ==> !MagicEndsAt(s, q)
    ensures r.Err? ==> r.error == EndOfStream
    ensures r.Err? ==> forall q :: n < q <= |s| ==> !MagicEndsAt(s, q)
    decreases |s| - n
  {
    if n == |s| then
      Err(EndOfStream)
    else
      var w := ShiftIn(window, s[n]);
      assert s[..n + 1][..n] == s[..n];
      WindowSeesMagic(s, n + 1);
      if w == Magic then Ok(n + 1) else SeekPreamble(s, n + 1, w)
  }

  /** The whole preamble search: the position just past the first magic
      sequence in `s`, which is also the number of bytes consumed. */
  function FindPreamble(s: seq<byte>): (r: Result<nat>)
    ensures r.Ok? ==> MagicEndsAt(s, r.value)
    ensures r.Ok? ==> forall q: nat :: q < r.value ==> !MagicEndsAt(s, q)
    ensures r.Err? <==> forall q: nat :: !MagicEndsAt(s, q)
    ensures r.Err? ==> r.error == EndOfStream
  {
    SeekPreamble(s, 0, 0)
  }
}
