/** Bytes, their bits and their values. */
module Bytes {
  import opened Bits

  function Digit(b: bool): nat {
    if b then 1 else 0
  }

  // ---- A byte from its bits -----------------------------------------------------------------------

  function Flag(yes: bool, mask: bv8): bv8 {
    if yes then mask else 0
  }

  function Assemble(b0: bool, b1: bool, b2: bool, b3: bool, b4: bool, b5: bool, b6: bool, b7: bool): bv8 {
    Flag(b0, 0x80) | Flag(b1, 0x40) | Flag(b2, 0x20) | Flag(b3, 0x10)
    | Flag(b4, 0x08) | Flag(b5, 0x04) | Flag(b6, 0x02) | Flag(b7, 0x01)
  }

  lemma AssembleRaw(x0: bv8, x1: bv8, x2: bv8, x3: bv8, x4: bv8, x5: bv8, x6: bv8, x7: bv8)
    requires x0 & 0x7f == 0 && x1 & 0xbf == 0 && x2 & 0xdf == 0 && x3 & 0xef == 0
    requires x4 & 0xf7 == 0 && x5 & 0xfb == 0 && x6 & 0xfd == 0 && x7 & 0xfe == 0
    ensures var x := x0 | x1 | x2 | x3 | x4 | x5 | x6 | x7;
      && x & 0x80 == x0 && x & 0x40 == x1 && x & 0x20 == x2 && x & 0x10 == x3
      && x & 0x08 == x4 && x & 0x04 == x5 && x & 0x02 == x6 && x & 0x01 == x7
  {
  }

  lemma FlagFacts(b: bool)
    ensures Flag(b, 0x80) & 0x7f == 0 && Flag(b, 0x40) & 0xbf == 0
      && Flag(b, 0x20) & 0xdf == 0 && Flag(b, 0x10) & 0xef == 0
    ensures Flag(b, 0x08) & 0xf7 == 0 && Flag(b, 0x04) & 0xfb == 0
      && Flag(b, 0x02) & 0xfd == 0 && Flag(b, 0x01) & 0xfe == 0
    ensures (Flag(b, 0x80) != 0 <==> b) && (Flag(b, 0x40) != 0 <==> b)
      && (Flag(b, 0x20) != 0 <==> b) && (Flag(b, 0x10) != 0 <==> b)
    ensures (Flag(b, 0x08) != 0 <==> b) && (Flag(b, 0x04) != 0 <==> b)
      && (Flag(b, 0x02) != 0 <==> b) && (Flag(b, 0x01) != 0 <==> b)
  {
  }

  lemma AssembledBits(b0: bool, b1: bool, b2: bool, b3: bool, b4: bool, b5: bool, b6: bool, b7: bool)
    ensures var x := Assemble(b0, b1, b2, b3, b4, b5, b6, b7);
      && BitOfByte(x, 0) == b0 && BitOfByte(x, 1) == b1 && BitOfByte(x, 2) == b2 && BitOfByte(x, 3) == b3
      && BitOfByte(x, 4) == b4 && BitOfByte(x, 5) == b5 && BitOfByte(x, 6) == b6 && BitOfByte(x, 7) == b7
  {
    hide Flag;
    FlagFacts(b0);
    FlagFacts(b1);
    FlagFacts(b2);
    FlagFacts(b3);
    FlagFacts(b4);
    FlagFacts(b5);
    FlagFacts(b6);
    FlagFacts(b7);
    AssembleRaw(Flag(b0, 0x80), Flag(b1, 0x40), Flag(b2, 0x20), Flag(b3, 0x10),
                Flag(b4, 0x08), Flag(b5, 0x04), Flag(b6, 0x02), Flag(b7, 0x01));
  }

  // ---- The value of a byte ------------------------------------------------------------------------

  lemma ByteValue(b: bv8, x0: bool, x1: bool, x2: bool, x3: bool, x4: bool, x5: bool, x6: bool, x7: bool)
    requires x0 == (b & 0x80 != 0) && x1 == (b & 0x40 != 0) && x2 == (b & 0x20 != 0) && x3 == (b & 0x10 != 0)
    requires x4 == (b & 0x08 != 0) && x5 == (b & 0x04 != 0) && x6 == (b & 0x02 != 0) && x7 == (b & 0x01 != 0)
    ensures b as nat == 128 * Digit(x0) + 64 * Digit(x1) + 32 * Digit(x2) + 16 * Digit(x3)
      + 8 * Digit(x4) + 4 * Digit(x5) + 2 * Digit(x6) + Digit(x7)
  {
  }

  lemma ByteDigits(b: bv8)
    ensures b as nat == 128 * Digit(BitOfByte(b, 0)) + 64 * Digit(BitOfByte(b, 1)) + 32 * Digit(BitOfByte(b, 2))
      + 16 * Digit(BitOfByte(b, 3)) + 8 * Digit(BitOfByte(b, 4)) + 4 * Digit(BitOfByte(b, 5))
      + 2 * Digit(BitOfByte(b, 6)) + Digit(BitOfByte(b, 7))
  {
    ByteFlags(b);
    hide Digit, BitOfByte;
    ByteValue(b, BitOfByte(b, 0), BitOfByte(b, 1), BitOfByte(b, 2), BitOfByte(b, 3),
              BitOfByte(b, 4), BitOfByte(b, 5), BitOfByte(b, 6), BitOfByte(b, 7));
  }

  lemma ByteFlags(b: bv8)
    ensures BitOfByte(b, 0) == (b & 0x80 != 0) && BitOfByte(b, 1) == (b & 0x40 != 0)
      && BitOfByte(b, 2) == (b & 0x20 != 0)
    ensures BitOfByte(b, 3) == (b & 0x10 != 0) && BitOfByte(b, 4) == (b & 0x08 != 0)
      && BitOfByte(b, 5) == (b & 0x04 != 0)
    ensures BitOfByte(b, 6) == (b & 0x02 != 0) && BitOfByte(b, 7) == (b & 0x01 != 0)
  {
  }

  function Half(n: nat): nat {
    n / 2
  }

  predicate Odd(n: nat) {
    n % 2 == 1
  }

  lemma Halves(n: nat)
    ensures n == 2 * Half(n) + Digit(Odd(n))
  {
  }

  /** The binary digits of a number below 256. */
  lemma NumberDigits(n: nat)
    requires n < 256
    ensures n == 128 * Digit(Odd(Half(Half(Half(Half(Half(Half(Half(n)))))))))
      + 64 * Digit(Odd(Half(Half(Half(Half(Half(Half(n))))))))
      + 32 * Digit(Odd(Half(Half(Half(Half(Half(n))))))) + 16 * Digit(Odd(Half(Half(Half(Half(n))))))
      + 8 * Digit(Odd(Half(Half(Half(n))))) + 4 * Digit(Odd(Half(Half(n)))) + 2 * Digit(Odd(Half(n))) + Digit(Odd(n))
  {
    hide Odd, Digit, Half;
    LowDigits(n);
    LowDigits(Half(Half(Half(Half(n)))));
  }

  lemma LowDigits(n: nat)
    ensures n == 16 * Half(Half(Half(Half(n)))) + 8 * Digit(Odd(Half(Half(Half(n))))) + 4 * Digit(Odd(Half(Half(n))))
      + 2 * Digit(Odd(Half(n))) + Digit(Odd(n))
  {
    hide Odd, Digit, Half;
    Halves(n);
    Halves(Half(n));
    Halves(Half(Half(n)));
    Halves(Half(Half(Half(n))));
  }

  lemma SameByte(b: bv8)
    ensures (b as nat) as bv8 == b
  {
  }

  /** Every number below 256 is the value of a byte. */
  lemma ByteWithValue(n: nat) returns (b: bv8)
    requires n < 256
    ensures b as nat == n
  {
    hide Half, Odd, Digit, Assemble, BitOfByte;
    var h1 := Half(n);
    var h2 := Half(h1);
    var h3 := Half(h2);
    var h4 := Half(h3);
    var h5 := Half(h4);
    var h6 := Half(h5);
    var h7 := Half(h6);
    b := Assemble(Odd(h7), Odd(h6), Odd(h5), Odd(h4), Odd(h3), Odd(h2), Odd(h1), Odd(n));
    AssembledBits(Odd(h7), Odd(h6), Odd(h5), Odd(h4), Odd(h3), Odd(h2), Odd(h1), Odd(n));
    NumberDigits(n);
    DigitsAgree(b, Odd(h7), Odd(h6), Odd(h5), Odd(h4), Odd(h3), Odd(h2), Odd(h1), Odd(n));
  }

  lemma DigitsAgree(b: bv8, x0: bool, x1: bool, x2: bool, x3: bool, x4: bool, x5: bool, x6: bool, x7: bool)
    requires BitOfByte(b, 0) == x0 && BitOfByte(b, 1) == x1 && BitOfByte(b, 2) == x2 && BitOfByte(b, 3) == x3
    requires BitOfByte(b, 4) == x4 && BitOfByte(b, 5) == x5 && BitOfByte(b, 6) == x6 && BitOfByte(b, 7) == x7
    ensures b as nat == 128 * Digit(x0) + 64 * Digit(x1) + 32 * Digit(x2) + 16 * Digit(x3)
      + 8 * Digit(x4) + 4 * Digit(x5) + 2 * Digit(x6) + Digit(x7)
  {
    hide Digit, BitOfByte;
    ByteDigits(b);
  }

  /** A number below 256 survives being stored in a byte. */
  lemma StoredNumber(n: nat)
    requires n < 256
    ensures (n as bv8) as nat == n
  {
    var b := ByteWithValue(n);
    StoredAs(n, b);
  }

  lemma StoredAs(n: nat, b: bv8)
    requires n < 256 && b as nat == n
    ensures (n as bv8) as nat == n
  {
    SameByte(b);
  }
}
