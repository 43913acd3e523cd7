/** Messages are byte sequences whose bits are numbered from the most significant
    bit of the first byte. This module fixes that numbering once, for the checksum,
    the error patterns and the field extraction helpers. Bits are numbered from 0
    here; the helpers of Fields number them from 1, as mode_s.h does. */
module Bits {

  /** The mask `1 << (7 - i)` selecting bit i of a byte. */
  function Mask(i: nat): bv8
    requires i < 8
  {
    if i == 0 then 0x80 else if i == 1 then 0x40 else if i == 2 then 0x20 else if i == 3 then 0x10
    else if i == 4 then 0x08 else if i == 5 then 0x04 else if i == 6 then 0x02 else 0x01
  }

  predicate Selects(m: bv8, b: bv8) {
    b & m != 0
  }

  predicate BitOfByte(b: bv8, i: nat)
    requires i < 8
  {
    Selects(Mask(i), b)
  }

  predicate Bit(msg: seq<bv8>, k: nat)
    requires k < 8 * |msg|
  {
    BitOfByte(msg[k / 8], k % 8)
  }

  function ByteBits(b: bv8): (s: seq<bool>)
    ensures |s| == 8
    ensures forall i :: 0 <= i < 8 ==> s[i] == BitOfByte(b, i)
  {
    [BitOfByte(b, 0), BitOfByte(b, 1), BitOfByte(b, 2), BitOfByte(b, 3),
     BitOfByte(b, 4), BitOfByte(b, 5), BitOfByte(b, 6), BitOfByte(b, 7)]
  }

  function BitsOf(msg: seq<bv8>): (s: seq<bool>)
    ensures |s| == 8 * |msg|
    ensures forall k {:trigger s[k]} {:trigger Bit(msg, k)} :: 0 <= k < 8 * |msg| ==> s[k] == Bit(msg, k)
  {
    seq(8 * |msg|, k requires 0 <= k < 8 * |msg| => Bit(msg, k))
  }

  lemma BitsOfAppend(a: seq<bv8>, b: seq<bv8>)
    ensures BitsOf(a + b) == BitsOf(a) + BitsOf(b)
  {
    var s, t := BitsOf(a + b), BitsOf(a) + BitsOf(b);
    forall k | 0 <= k < |s| ensures s[k] == t[k] {
      if k >= 8 * |a| {
        assert (a + b)[k / 8] == b[(k - 8 * |a|) / 8];
      }
    }
  }

  lemma BitsOfByte(b: bv8)
    ensures BitsOf([b]) == ByteBits(b)
  {
  }

  /** Two bytes with the same bits are the same byte. */
  lemma ByteExtensionality(a: bv8, b: bv8)
    requires forall i :: 0 <= i < 8 ==> BitOfByte(a, i) == BitOfByte(b, i)
    ensures a == b
  {
    assert BitOfByte(a, 0) == BitOfByte(b, 0) && BitOfByte(a, 1) == BitOfByte(b, 1)
        && BitOfByte(a, 2) == BitOfByte(b, 2) && BitOfByte(a, 3) == BitOfByte(b, 3);
    assert BitOfByte(a, 4) == BitOfByte(b, 4) && BitOfByte(a, 5) == BitOfByte(b, 5)
        && BitOfByte(a, 6) == BitOfByte(b, 6) && BitOfByte(a, 7) == BitOfByte(b, 7);
  }

  lemma MessageExtensionality(a: seq<bv8>, b: seq<bv8>)
    requires |a| == |b|
    requires forall k :: 0 <= k < 8 * |a| ==> Bit(a, k) == Bit(b, k)
    ensures a == b
  {
    forall n | 0 <= n < |a| ensures a[n] == b[n] {
      forall i | 0 <= i < 8 ensures BitOfByte(a[n], i) == BitOfByte(b[n], i) {
        assert Bit(a, 8 * n + i) == Bit(b, 8 * n + i);
      }
      ByteExtensionality(a[n], b[n]);
    }
  }

  /** The message with bit k inverted. */
  function FlipBit(msg: seq<bv8>, k: nat): (r: seq<bv8>)
    requires k < 8 * |msg|
    ensures |r| == |msg|
  {
    msg[k / 8 := msg[k / 8] ^ Mask(k % 8)]
  }

  lemma XorRaw(a: bv8, b: bv8)
    ensures ((a ^ b) & 0x80 != 0) == ((a & 0x80 != 0) != (b & 0x80 != 0))
    ensures ((a ^ b) & 0x40 != 0) == ((a & 0x40 != 0) != (b & 0x40 != 0))
    ensures ((a ^ b) & 0x20 != 0) == ((a & 0x20 != 0) != (b & 0x20 != 0))
    ensures ((a ^ b) & 0x10 != 0) == ((a & 0x10 != 0) != (b & 0x10 != 0))
    ensures ((a ^ b) & 0x08 != 0) == ((a & 0x08 != 0) != (b & 0x08 != 0))
    ensures ((a ^ b) & 0x04 != 0) == ((a & 0x04 != 0) != (b & 0x04 != 0))
    ensures ((a ^ b) & 0x02 != 0) == ((a & 0x02 != 0) != (b & 0x02 != 0))
    ensures ((a ^ b) & 0x01 != 0) == ((a & 0x01 != 0) != (b & 0x01 != 0))
  {
  }

  lemma XorSelects(a: bv8, b: bv8)
    ensures Selects(0x80, a ^ b) == (Selects(0x80, a) != Selects(0x80, b))
    ensures Selects(0x40, a ^ b) == (Selects(0x40, a) != Selects(0x40, b))
    ensures Selects(0x20, a ^ b) == (Selects(0x20, a) != Selects(0x20, b))
    ensures Selects(0x10, a ^ b) == (Selects(0x10, a) != Selects(0x10, b))
    ensures Selects(0x08, a ^ b) == (Selects(0x08, a) != Selects(0x08, b))
    ensures Selects(0x04, a ^ b) == (Selects(0x04, a) != Selects(0x04, b))
    ensures Selects(0x02, a ^ b) == (Selects(0x02, a) != Selects(0x02, b))
    ensures Selects(0x01, a ^ b) == (Selects(0x01, a) != Selects(0x01, b))
  {
    XorRaw(a, b);
  }

  lemma XorByteBit(a: bv8, b: bv8, i: nat)
    requires i < 8
    ensures BitOfByte(a ^ b, i) == (BitOfByte(a, i) != BitOfByte(b, i))
  {
    hide Selects;
    XorSelects(a, b);
  }

  lemma MaskBits(i: nat, j: nat)
    requires i < 8 && j < 8
    ensures BitOfByte(Mask(i), j) == (i == j)
  {
  }

  lemma FlipByte(b: bv8, i: nat, j: nat)
    requires i < 8 && j < 8
    ensures BitOfByte(b ^ Mask(i), j) == if i == j then !BitOfByte(b, j) else BitOfByte(b, j)
  {
    hide BitOfByte;
    XorByteBit(b, Mask(i), j);
    MaskBits(i, j);
  }

  /** Flipping bit k changes bit k and no other. */
  lemma FlipBitAt(msg: seq<bv8>, k: nat, j: nat)
    requires k < 8 * |msg| && j < 8 * |msg|
    ensures Bit(FlipBit(msg, k), j) == if j == k then !Bit(msg, j) else Bit(msg, j)
  {
    hide BitOfByte, Mask;
    if j / 8 == k / 8 {
      FlipByte(msg[k / 8], k % 8, j % 8);
    }
  }

  lemma FlipBitBits(msg: seq<bv8>, k: nat)
    requires k < 8 * |msg|
    ensures BitsOf(FlipBit(msg, k)) == BitsOf(msg)[k := !BitsOf(msg)[k]]
  {
    var s, t := BitsOf(FlipBit(msg, k)), BitsOf(msg)[k := !BitsOf(msg)[k]];
    forall j | 0 <= j < |s| ensures s[j] == t[j] {
      FlipBitAt(msg, k, j);
    }
  }

  lemma FlipByteTwice(b: bv8, m: bv8)
    ensures (b ^ m) ^ m == b
  {
  }

  lemma FlipTwice(msg: seq<bv8>, k: nat)
    requires k < 8 * |msg|
    ensures FlipBit(FlipBit(msg, k), k) == msg
  {
    hide Mask;
    FlipByteTwice(msg[k / 8], Mask(k % 8));
  }
}
