/**
 * Where the bits of a CRAM or BRAM data block would go. The source skips the
 * data bytes; the placement below models its commented-out code (dead code,
 * never run): bit `j` of data byte `i`, most significant bit first, is bit
 * `k = 8 * i + j` of the block and lands in column `k % width`, row
 * `k / width + offset` of the current bank's matrix.
 */
module Cells {

  import opened Bytes
  import opened Bitstream
  import opened Commands

  /** Bit `j` of a data byte counted from the most significant, as the dead
      code's `((byte << j) & 0x80) != 0`. */
  function BitOf(b: byte, j: nat): bool
    requires j < 8
  {
    ((b << j) & 0x80) != 0
  }

  /** The eight bits of a data byte in the order they are placed. */
  function Bits(b: byte): (bits: seq<bool>)
    ensures |bits| == 8
  {
    [BitOf(b, 0), BitOf(b, 1), BitOf(b, 2), BitOf(b, 3),
     BitOf(b, 4), BitOf(b, 5), BitOf(b, 6), BitOf(b, 7)]
  }

  function BitValue(bit: bool): nat
  {
    if bit then 1 else 0
  }

  /** Reassembles bits, most significant first, into a number. */
  function Pack(bits: seq<bool>): nat
  {
    if |bits| == 0 then 0 else Pack(bits[..|bits| - 1]) * 2 + BitValue(bits[|bits| - 1])
  }

  /** Eight bits packed most significant first. */
  lemma PackEight(bits: seq<bool>)
    requires |bits| == 8
    ensures Pack(bits) == ((((((BitValue(bits[0]) * 2 + BitValue(bits[1])) * 2 + BitValue(bits[2])) * 2 + BitValue(bits[3])) * 2 + BitValue(bits[4])) * 2 + BitValue(bits[5])) * 2 + BitValue(bits[6])) * 2 + BitValue(bits[7])
  {
    var v := seq(8, j requires 0 <= j < 8 => BitValue(bits[j]));
    assert bits[..1][..0] == [];
    assert Pack(bits[..1]) == v[0];
    assert bits[..2][..1] == bits[..1];
    assert Pack(bits[..2]) == v[0] * 2 + v[1];
    assert bits[..3][..2] == bits[..2];
    assert Pack(bits[..3]) == (v[0] * 2 + v[1]) * 2 + v[2];
    assert bits[..4][..3] == bits[..3];
    assert Pack(bits[..4]) == ((v[0] * 2 + v[1]) * 2 + v[2]) * 2 + v[3];
    assert bits[..5][..4] == bits[..4];
    assert Pack(bits[..5]) == (((v[0] * 2 + v[1]) * 2 + v[2]) * 2 + v[3]) * 2 + v[4];
    assert bits[..6][..5] == bits[..5];
    assert Pack(bits[..6]) == ((((v[0] * 2 + v[1]) * 2 + v[2]) * 2 + v[3]) * 2 + v[4]) * 2 + v[5];
    assert bits[..7][..6] == bits[..6];
    assert Pack(bits[..7]) == (((((v[0] * 2 + v[1]) * 2 + v[2]) * 2 + v[3]) * 2 + v[4]) * 2 + v[5]) * 2 + v[6];
    assert bits[..8][..7] == bits[..7];
    assert bits[..8] == bits;
  }

  /** A byte is the sum of its bits weighted most significant first. */
  lemma ByteFromBits(b: byte)
    ensures b as nat == ((((((BitValue(Bits(b)[0]) * 2 + BitValue(Bits(b)[1])) * 2 + BitValue(Bits(b)[2])) * 2 + BitValue(Bits(b)[3])) * 2 + BitValue(Bits(b)[4])) * 2 + BitValue(Bits(b)[5])) * 2 + BitValue(Bits(b)[6])) * 2 + BitValue(Bits(b)[7])
  {
  }

  /** No bit of a data byte is lost or reordered: packing its placed bits
      gives the byte back. */
  lemma BitsRoundTrip(b: byte)
    ensures Pack(Bits(b)) == b as nat
  {
    PackEight(Bits(b));
    ByteFromBits(b);
  }

  /** The matrix cell, as (column, row), that bit `k` of a block with the given
      width and row offset lands in. */
  function CellOf(k: nat, width: nat, offset: nat): (c: (nat, nat))
    requires width >= 1
    ensures c.0 < width && offset <= c.1
    ensures k == (c.1 - offset) * width + c.0
  {
    (k % width, k / width + offset)
  }

  lemma MulAtLeast(a: nat, w: nat)
    requires a >= 1
    ensures a * w >= w
  {
  }

  /** Quotient and remainder by a positive divisor are unique. */
  lemma DivisionUnique(k: nat, w: nat, q1: nat, r1: nat, q2: nat, r2: nat)
    requires w >= 1 && r1 < w && r2 < w
    requires k == q1 * w + r1 && k == q2 * w + r2
    ensures q1 == q2 && r1 == r2
  {
    if q1 > q2 {
      assert (q1 - q2) * w == r2 - r1;
      MulAtLeast(q1 - q2, w);
      assert false;
    } else if q2 > q1 {
      assert (q2 - q1) * w == r1 - r2;
      MulAtLeast(q2 - q1, w);
      assert false;
    }
  }

  /** Distinct bits of a block land in distinct cells. */
  lemma CellOfInjective(k1: nat, k2: nat, width: nat, offset: nat)
    requires width >= 1
    requires CellOf(k1, width, offset) == CellOf(k2, width, offset)
    ensures k1 == k2
  {
  }

  /** The bits of a `width` by `height` block land inside its rectangle. */
  lemma CellOfInsideBlock(k: nat, width: nat, height: nat, offset: nat)
    requires width >= 1 && k < width * height
    ensures CellOf(k, width, offset).1 < offset + height
  {
    var c := CellOf(k, width, offset);
    if c.1 >= offset + height {
      assert (c.1 - offset) * width >= height * width by {
        MulMonotone(height, c.1 - offset, width);
      }
      assert false;
    }
  }

  lemma MulMonotone(a: nat, b: nat, w: nat)
    requires a <= b
    ensures a * w <= b * w
  {
  }

  /** Every cell of a `width` by `height` block's rectangle receives a bit:
      the one at index `(y - offset) * width + x`. */
  lemma CellOfCoversBlock(x: nat, y: nat, width: nat, height: nat, offset: nat)
    requires x < width && offset <= y < offset + height
    ensures (y - offset) * width + x < width * height
    ensures CellOf((y - offset) * width + x, width, offset) == (x, y)
  {
    var k := (y - offset) * width + x;
    MulMonotone(y - offset + 1, height, width);
    var c := CellOf(k, width, offset);
    DivisionUnique(k, width, c.1 - offset, c.0, y - offset, x);
  }

  /** Every bit of a data block lands inside the extent the block announces,
      so the extents computed by the live code are large enough for the
      placement of the dead code. */
  lemma BlockFitsExtent(st: Ice40, mem: Memory, k: nat)
    requires k < 8 * BlockBytes(st)
    ensures st.currentWidth >= 1
    ensures var c, e := CellOf(k, st.currentWidth, st.currentOffset), Extend(st, mem);
      mem == Cram ==> c.0 < e.cramWidth && c.1 < e.cramHeight
    ensures var c, e := CellOf(k, st.currentWidth, st.currentOffset), Extend(st, mem);
      mem == Bram ==> c.0 < e.bramWidth && c.1 < e.bramHeight
  {
    var w, h := st.currentWidth, st.currentHeight;
    assert 8 * BlockBytes(st) <= w * h;
    assert w >= 1;
    CellOfInsideBlock(k, w, h, st.currentOffset);
  }
}
