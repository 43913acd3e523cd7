/** Message fields (mode_s.h): bits are numbered from 1, most significant first. */
module Fields {
  import opened Bits
  import opened Bytes

  /** getbit */
  predicate GetBit(msg: seq<bv8>, bitnum: nat)
    requires 1 <= bitnum <= 8 * |msg|
  {
    Bit(msg, bitnum - 1)
  }

  /** The number whose binary digits are bits firstbit..lastbit of msg: the meaning of
      `getbits(msg, firstbit, lastbit)`. */
  function Field(msg: seq<bv8>, firstbit: nat, lastbit: nat): nat
    requires 1 <= firstbit && lastbit <= 8 * |msg|
    decreases lastbit
  {
    if lastbit < firstbit then 0 else 2 * Field(msg, firstbit, lastbit - 1) + Digit(GetBit(msg, lastbit))
  }

  function Power(n: nat): (p: nat)
    ensures p > 0
  {
    if n == 0 then 1 else 2 * Power(n - 1)
  }

  /** A field of n bits is below 2^n. */
  lemma {:induction false} FieldBound(msg: seq<bv8>, firstbit: nat, lastbit: nat)
    requires 1 <= firstbit <= lastbit + 1 && lastbit <= 8 * |msg|
    ensures Field(msg, firstbit, lastbit) < Power(lastbit + 1 - firstbit)
    decreases lastbit
  {
    if lastbit >= firstbit {
      FieldBound(msg, firstbit, lastbit - 1);
    }
  }

  /** A field depends on its own bits only. */
  lemma {:induction false} FieldDependsOnBits(a: seq<bv8>, b: seq<bv8>, firstbit: nat, lastbit: nat)
    requires 1 <= firstbit && lastbit <= 8 * |a| && lastbit <= 8 * |b|
    requires forall k :: firstbit <= k <= lastbit ==> GetBit(a, k) == GetBit(b, k)
    ensures Field(a, firstbit, lastbit) == Field(b, firstbit, lastbit)
    decreases lastbit
  {
    if lastbit >= firstbit {
      FieldDependsOnBits(a, b, firstbit, lastbit - 1);
    }
  }

  /** The downlink format: bits 1 to 5. */
  function Df(msg: seq<bv8>): nat
    requires |msg| > 0
  {
    Field(msg, 1, 5)
  }

  lemma DfDigits(msg: seq<bv8>)
    requires |msg| > 0
    ensures Df(msg) == 16 * Digit(Bit(msg, 0)) + 8 * Digit(Bit(msg, 1)) + 4 * Digit(Bit(msg, 2))
                     + 2 * Digit(Bit(msg, 3)) + Digit(Bit(msg, 4))
    ensures Df(msg) < 32
  {
    assert Field(msg, 1, 0) == 0;
    assert Field(msg, 1, 1) == Digit(Bit(msg, 0));
    assert Field(msg, 1, 2) == 2 * Field(msg, 1, 1) + Digit(Bit(msg, 1));
    assert Field(msg, 1, 3) == 2 * Field(msg, 1, 2) + Digit(Bit(msg, 2));
    assert Field(msg, 1, 4) == 2 * Field(msg, 1, 3) + Digit(Bit(msg, 3));
  }
}
