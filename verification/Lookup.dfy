/** The lookup tables of crc.c and the two routines that use each other to fill them:
    `initLookupTables` (the constructor) and `modesChecksum`. */
module Lookup {
  import opened Bits
  import opened Polynomial
  import opened Checksum

  const LONG_MSG_BYTES := 14
  const SHORT_MSG_BYTES := 7
  const LONG_MSG_BITS := 112
  const SHORT_MSG_BITS := 56

  class Tables {
    const crcTable: array<bv24>
    const singleBitSyndrome: array<bv24>

    ghost predicate CrcTableReady()
      reads crcTable
    {
      crcTable.Length == 256 && forall i :: 0 <= i < 256 ==> crcTable[i] == TableEntry(i as bv8)
    }

    ghost predicate SyndromesReady()
      reads singleBitSyndrome
    {
      && singleBitSyndrome.Length == LONG_MSG_BITS
      && forall i: nat :: i < LONG_MSG_BITS ==> singleBitSyndrome[i] == BitSyndrome(i, LONG_MSG_BITS)
    }

    ghost predicate Valid()
      reads crcTable, singleBitSyndrome
    {
      CrcTableReady() && SyndromesReady() && crcTable != singleBitSyndrome
    }

    constructor ()
      ensures Valid()
      ensures fresh(crcTable) && fresh(singleBitSyndrome)
    {
      crcTable := new bv24[256];
      singleBitSyndrome := new bv24[LONG_MSG_BITS];
      new;
      FillCrcTable();
      FillSingleBitSyndromes();
    }

    method FillCrcTable()
      requires crcTable.Length == 256
      modifies crcTable
      ensures CrcTableReady()
    {
      for i := 0 to 256
        invariant forall k :: 0 <= k < i ==> crcTable[k] == TableEntry(k as bv8)
      {
        var entry := ByteRemainder(i as bv8);
        crcTable[i] := entry;
      }
    }

    /** Eight rounds of shift-and-subtract in a 32-bit register, masked once at the end. */
    static method ByteRemainder(b: bv8) returns (entry: bv24)
      ensures entry == TableEntry(b)
    {
      hide TimesX, Low24;
      var c: bv32 := (b as bv32) << 16;
      assert Low24(c) == Widen(b) << 16 by { RegisterStart(b); }
      for j := 0 to 8
        invariant Low24(c) == Shift(Widen(b) << 16, j)
      {
        RegisterStep(c);
        if c & 0x800000 != 0 {
          c := (c << 1) ^ 0xfff409;
        } else {
          c := c << 1;
        }
      }
      assert Low24(c) == (c & 0x00ffffff) as bv24 by { LowIs(c); }
      entry := (c & 0x00ffffff) as bv24;
    }

    static lemma LowIs(c: bv32)
      ensures Low24(c) == (c & 0x00ffffff) as bv24
    {
    }

    static lemma RegisterStart(b: bv8)
      ensures Low24((b as bv32) << 16) == Widen(b) << 16
    {
    }

    method FillSingleBitSyndromes()
      requires CrcTableReady()
      requires singleBitSyndrome.Length == LONG_MSG_BITS && crcTable != singleBitSyndrome
      modifies singleBitSyndrome
      ensures Valid()
    {
      hide BitSyndrome, Parity, FlipBit;
      var msg := new bv8[LONG_MSG_BYTES](_ => 0);
      ghost var zeros := msg[..];
      assert zeros == seq(LONG_MSG_BYTES, _ => 0);
      for i := 0 to LONG_MSG_BITS
        invariant msg[..] == zeros
        invariant CrcTableReady()
        invariant forall k: nat :: k < i ==> singleBitSyndrome[k] == BitSyndrome(k, LONG_MSG_BITS)
      {
        FlipBitInPlace(msg, i);
        assert msg[..LONG_MSG_BYTES] == msg[..];
        singleBitSyndrome[i] := ModesChecksum(msg, LONG_MSG_BITS);
        SyndromeOfFlip(zeros, i);
        FlipBitInPlace(msg, i);
        FlipTwice(zeros, i);
      }
    }

    static lemma SyndromeOfFlip(zeros: seq<bv8>, i: nat)
      requires zeros == seq(LONG_MSG_BYTES, _ => 0) && i < LONG_MSG_BITS
      ensures Parity(FlipBit(zeros, i)) == BitSyndrome(i, LONG_MSG_BITS)
    {
      hide Add, Parity;
      ParityOfZeros(LONG_MSG_BYTES);
      ParityOfFlip(zeros, i);
      AddIdentities(BitSyndrome(i, LONG_MSG_BITS));
    }

    /** The checksum of the first `bits` bits of a message. The register is 32 bits wide in
        the source and masked to 24 after every byte. */
    method ModesChecksum(message: array<bv8>, bits: nat) returns (rem: bv24)
      requires CrcTableReady()
      requires bits % 8 == 0 && 3 <= bits / 8 <= message.Length
      ensures rem == Parity(message[..bits / 8])
    {
      hide Add, Running, TopByte, Widen;
      rem := 0;
      var n := bits / 8;
      assert message[..0] == [];
      RunningOfNothing();
      for i := 0 to n - 3
        invariant rem == Running(message[..i])
      {
        var index := message[i] ^ TopByte(rem);
        IndexOfByte(index);
        assert message[..i + 1] == message[..i] + [message[i]];
        RunningAppend(message[..i], message[i]);
        rem := Add(rem << 8, crcTable[index as int]);
      }
      var a, b, c := message[n - 3], message[n - 2], message[n - 1];
      assert message[..n] == message[..n - 3] + [a, b, c];
      AddParityField(message[..n - 3], a, b, c);
      rem := Add(Add(Add(rem, Widen(a) << 16), Widen(b) << 8), Widen(c));
    }

    static lemma RunningOfNothing()
      ensures Running([]) == 0
    {
      ShiftZero(24);
    }

    static lemma IndexOfByte(b: bv8)
      ensures 0 <= b as int < 256 && (b as int) as bv8 == b
    {
    }
  }

  /** Inverts bit k. */
  method FlipBitInPlace(msg: array<bv8>, k: nat)
    requires k < 8 * msg.Length
    modifies msg
    ensures msg[..] == FlipBit(old(msg[..]), k)
  {
    msg[k / 8] := msg[k / 8] ^ Mask(k % 8);
  }
}
