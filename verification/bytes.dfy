/**
 * Bytes and the 32-bit shift register the decoder folds them into.
 *
 * Both the preamble window and a command's payload are accumulated with the
 * same step, `acc = (acc << 8) | byte` on a `u32`: the top byte falls off.
 * `ShiftIn` states that step on unbounded integers, reduced modulo 2^32;
 * `BigEndian` is the untruncated value of a byte string, the reference the
 * register is proved against.
 */
module Bytes {

  type byte = bv8

  const U32Modulus: nat := 0x1_0000_0000

  /** The values of a Rust `u32`. */
  type u32 = x: nat | x < 0x1_0000_0000

  /** The values of a Rust `u16`. */
  type u16 = x: nat | x < 0x1_0000

  /** One step of the shift register: shift left by a byte, bring in `b`. */
  function ShiftIn(acc: u32, b: byte): u32
  {
    (acc * 256 + b as nat) % U32Modulus
  }

  /** A shift step drops the register's top byte, moves the other three up
      one place and puts `b` in the lowest. */
  lemma ShiftInDropsTopByte(acc: u32, b: byte)
    ensures ShiftIn(acc, b) % 256 == b as nat
    ensures ShiftIn(acc, b) / 256 == acc % 0x100_0000
  {
    var q, low := acc / 0x100_0000, acc % 0x100_0000;
    var v := low * 256 + b as nat;
    assert v < U32Modulus;
    assert acc * 256 + b as nat == q * U32Modulus + v by {
      assert acc == q * 0x100_0000 + low;
    }
    assert ShiftIn(acc, b) == v by {
      ModAfterMultiple(q, v);
    }
    DigitSplit(low, b as nat);
  }

  /** In 32-bit arithmetic a left shift by 8 followed by an OR of a byte is a
      multiply-add. Multiplication and addition on `bv32` wrap modulo 2^32,
      which is the reduction `ShiftIn` makes, so `ShiftIn` is the source's
      `(acc << 8) | b` read as an unsigned number. */
  lemma ShiftOrIsMulAdd(acc: bv32, b: byte)
    ensures (acc << 8) | (b as bv32) == acc * 256 + b as bv32
  {
  }

  /** The register after shifting in every byte of `bs`, starting from 0. */
  function Register(bs: seq<byte>): u32
  {
    if |bs| == 0 then 0 else ShiftIn(Register(bs[..|bs| - 1]), bs[|bs| - 1])
  }

  /** The unbounded big-endian value of `bs`. */
  function BigEndian(bs: seq<byte>): nat
  {
    if |bs| == 0 then 0 else BigEndian(bs[..|bs| - 1]) * 256 + bs[|bs| - 1] as nat
  }

  /** The last base-256 digit and the rest of a number are unique. */
  lemma DigitSplit(hi: nat, lo: nat)
    requires lo < 256
    ensures (hi * 256 + lo) % 256 == lo && (hi * 256 + lo) / 256 == hi
  {
  }

  lemma ModAfterMultiple(k: int, t: int)
    ensures (k * U32Modulus + t) % U32Modulus == t % U32Modulus
  {
  }

  /** Reducing before a shift step does not change the result. */
  lemma ShiftInOfReduced(x: nat, b: byte)
    ensures ShiftIn(x % U32Modulus, b) == (x * 256 + b as nat) % U32Modulus
  {
    var q, r := x / U32Modulus, x % U32Modulus;
    assert x * 256 + b as nat == (q * 256) * U32Modulus + (r * 256 + b as nat);
    ModAfterMultiple(q * 256, r * 256 + b as nat);
  }

  /** The register holds the big-endian value of everything shifted in,
      truncated to 32 bits. */
  lemma {:induction false} RegisterIsTruncatedBigEndian(bs: seq<byte>)
    ensures Register(bs) == BigEndian(bs) % U32Modulus
  {
    if |bs| > 0 {
      var init := bs[..|bs| - 1];
      RegisterIsTruncatedBigEndian(init);
      ShiftInOfReduced(BigEndian(init), bs[|bs| - 1]);
    }
  }

  function Pow256(n: nat): nat
  {
    if n == 0 then 1 else Pow256(n - 1) * 256
  }

  lemma ShiftPastTail(a: int, p: int, c: int, x: int)
    ensures (a * p + c) * 256 + x == a * (p * 256) + (c * 256 + x)
  {
  }

  lemma SmallPowers()
    ensures Pow256(0) == 1 && Pow256(1) == 0x100 && Pow256(2) == 0x1_0000
    ensures Pow256(3) == 0x100_0000 && Pow256(4) == U32Modulus
  {
    assert Pow256(1) == 0x100;
    assert Pow256(2) == 0x1_0000;
    assert Pow256(3) == 0x100_0000;
  }

  /** The big-endian value of a concatenation: the head shifted past the tail. */
  lemma {:induction false} BigEndianAppend(hd: seq<byte>, tl: seq<byte>)
    ensures BigEndian(hd + tl) == BigEndian(hd) * Pow256(|tl|) + BigEndian(tl)
  {
    if |tl| > 0 {
      var init := tl[..|tl| - 1];
      var x := tl[|tl| - 1] as nat;
      assert (hd + tl)[..|hd + tl| - 1] == hd + init;
      BigEndianAppend(hd, init);
      calc {
        BigEndian(hd + tl);
        BigEndian(hd + init) * 256 + x;
        (BigEndian(hd) * Pow256(|init|) + BigEndian(init)) * 256 + x;
        { ShiftPastTail(BigEndian(hd), Pow256(|init|), BigEndian(init), x); }
        BigEndian(hd) * (Pow256(|init|) * 256) + (BigEndian(init) * 256 + x);
      }
    } else {
      assert hd + tl == hd;
    }
  }

  /** A big-endian value of n bytes fits in n bytes. */
  lemma {:induction false} BigEndianBound(bs: seq<byte>)
    ensures BigEndian(bs) < Pow256(|bs|)
  {
    if |bs| > 0 {
      BigEndianBound(bs[..|bs| - 1]);
    }
  }

  /** Only the last four bytes shifted in survive in the register. */
  lemma RegisterKeepsLastFour(bs: seq<byte>)
    requires |bs| >= 4
    ensures Register(bs) == BigEndian(bs[|bs| - 4..])
  {
    var n := |bs|;
    var hd, last := bs[..n - 4], bs[n - 4..];
    var a, c := BigEndian(hd), BigEndian(last);
    SmallPowers();
    assert BigEndian(bs) == a * U32Modulus + c by {
      assert bs == hd + last;
      BigEndianAppend(hd, last);
    }
    assert c < U32Modulus by {
      BigEndianBound(last);
    }
    RegisterIsTruncatedBigEndian(bs);
    ModAfterMultiple(a, c);
  }

  /** Fewer than four bytes leave the register's top byte clear. */
  lemma RegisterOfShort(bs: seq<byte>)
    requires |bs| < 4
    ensures Register(bs) < 0x100_0000
  {
    RegisterIsTruncatedBigEndian(bs);
    BigEndianBound(bs);
    SmallPowers();
  }

  /** The high nibble of a command byte: the opcode. */
  function Opcode(b: byte): nat
  {
    (b >> 4) as nat
  }

  /** The low nibble of a command byte: how many payload bytes follow. */
  function Length(b: byte): nat
  {
    (b & 0xF) as nat
  }

  /** The two nibbles are a base-16 split of the command byte. */
  lemma CommandByteSplit(b: byte)
    ensures Opcode(b) < 16 && Length(b) < 16
    ensures Opcode(b) * 16 + Length(b) == b as nat
  {
  }
}
