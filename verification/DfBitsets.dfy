/** The precomputed bitsets of correctMessage (mode_s.c) and what they mean. */
module DfBitsets {
  const DF_CORRECTABLE_SHORT: seq<bv32> := [0x00000800, 0x08008e08, 0x08008e08]
  const DF_CORRECTABLE_LONG: seq<bv32> := [0x00060000, 0x066f0006, 0x6fff066f]

  /** `1 << df` */
  function DfBit(df: nat): bv32
    requires df < 32
  {
    (1 as bv32) << df
  }

  predicate Tests(bits: bv32, mask: bv32) {
    bits & mask != 0
  }

  predicate InBitset(bits: bv32, df: nat)
    requires df < 32
  {
    Tests(bits, DfBit(df))
  }

  function Differ(a: bool, b: bool): nat {
    if a != b then 1 else 0
  }

  /** The number of positions in which two 5-bit numbers differ. */
  function Distance(a: nat, b: nat): nat {
    Differ(a % 2 == 1, b % 2 == 1) + Differ(a / 2 % 2 == 1, b / 2 % 2 == 1) + Differ(a / 4 % 2 == 1, b / 4 % 2 == 1)
    + Differ(a / 8 % 2 == 1, b / 8 % 2 == 1) + Differ(a / 16 % 2 == 1, b / 16 % 2 == 1)
  }

  /** df can become DF11 by inverting at most k of its bits; more than one bit of a short
      message is never repaired. */
  predicate NearShort(df: nat, k: nat) {
    Distance(df, 11) <= if k == 0 then 0 else 1
  }

  predicate NearLong(df: nat, k: nat) {
    Distance(df, 17) <= k || Distance(df, 18) <= k
  }

  // ---- The bitsets, written out -------------------------------------------------------------

  const SHORT_0: set<nat> := {11}
  const SHORT_1: set<nat> := {3, 9, 10, 11, 15, 27}
  const LONG_0: set<nat> := {17, 18}
  const LONG_1: set<nat> := {1, 2, 16, 17, 18, 19, 21, 22, 25, 26}
  const LONG_2: set<nat> := {0, 1, 2, 3, 5, 6, 9, 10, 16, 17, 18, 19, 20, 21, 22, 23, 24, 25, 26, 27, 29, 30}

  lemma MembersBelow8(df: nat)
    requires 0 <= df < 8
    ensures InBitset(0x00000800, df) <==> df in SHORT_0
    ensures InBitset(0x08008e08, df) <==> df in SHORT_1
    ensures InBitset(0x00060000, df) <==> df in LONG_0
    ensures InBitset(0x066f0006, df) <==> df in LONG_1
    ensures InBitset(0x6fff066f, df) <==> df in LONG_2
  {
    assert df in {0, 1, 2, 3, 4, 5, 6, 7};
  }

  lemma MembersBelow16(df: nat)
    requires 8 <= df < 16
    ensures InBitset(0x00000800, df) <==> df in SHORT_0
    ensures InBitset(0x08008e08, df) <==> df in SHORT_1
    ensures InBitset(0x00060000, df) <==> df in LONG_0
    ensures InBitset(0x066f0006, df) <==> df in LONG_1
    ensures InBitset(0x6fff066f, df) <==> df in LONG_2
  {
    assert df in {8, 9, 10, 11, 12, 13, 14, 15};
  }

  lemma MembersBelow24(df: nat)
    requires 16 <= df < 24
    ensures InBitset(0x00000800, df) <==> df in SHORT_0
    ensures InBitset(0x08008e08, df) <==> df in SHORT_1
    ensures InBitset(0x00060000, df) <==> df in LONG_0
    ensures InBitset(0x066f0006, df) <==> df in LONG_1
    ensures InBitset(0x6fff066f, df) <==> df in LONG_2
  {
    assert df in {16, 17, 18, 19, 20, 21, 22, 23};
  }

  lemma MembersBelow32(df: nat)
    requires 24 <= df < 32
    ensures InBitset(0x00000800, df) <==> df in SHORT_0
    ensures InBitset(0x08008e08, df) <==> df in SHORT_1
    ensures InBitset(0x00060000, df) <==> df in LONG_0
    ensures InBitset(0x066f0006, df) <==> df in LONG_1
    ensures InBitset(0x6fff066f, df) <==> df in LONG_2
  {
    assert df in {24, 25, 26, 27, 28, 29, 30, 31};
  }

  lemma Members(df: nat)
    requires df < 32
    ensures InBitset(0x00000800, df) <==> df in SHORT_0
    ensures InBitset(0x08008e08, df) <==> df in SHORT_1
    ensures InBitset(0x00060000, df) <==> df in LONG_0
    ensures InBitset(0x066f0006, df) <==> df in LONG_1
    ensures InBitset(0x6fff066f, df) <==> df in LONG_2
  {
    hide InBitset;
    if df < 8 {
      MembersBelow8(df);
    } else if df < 16 {
      MembersBelow16(df);
    } else if df < 24 {
      MembersBelow24(df);
    } else {
      MembersBelow32(df);
    }
  }

  lemma ShortBall0(df: nat)
    requires df < 32
    ensures NearShort(df, 0) <==> df in SHORT_0
  {
  }

  lemma ShortBall1(df: nat)
    requires df < 32
    ensures NearShort(df, 1) <==> df in SHORT_1
  {
  }

  lemma LongBall0(df: nat)
    requires df < 32
    ensures NearLong(df, 0) <==> df in LONG_0
  {
  }

  lemma LongBall1(df: nat)
    requires df < 32
    ensures NearLong(df, 1) <==> df in LONG_1
  {
  }

  lemma LongBall2(df: nat)
    requires df < 32
    ensures NearLong(df, 2) <==> df in LONG_2
  {
  }

  /** The precomputed bitsets are exactly these Hamming balls. */
  lemma BitsetsAreBalls(k: nat, df: nat)
    requires k <= 2 && df < 32
    ensures InBitset(DF_CORRECTABLE_SHORT[k], df) <==> NearShort(df, k)
    ensures InBitset(DF_CORRECTABLE_LONG[k], df) <==> NearLong(df, k)
  {
    hide InBitset, Distance;
    Members(df);
    if k == 0 {
      ShortBall0(df);
      LongBall0(df);
    } else {
      ShortBall1(df);
      if k == 1 {
        LongBall1(df);
      } else {
        LongBall2(df);
      }
    }
  }
}
