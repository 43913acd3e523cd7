/** The sets of downlink formats the demodulator lets through (demod_2400.c). */
module DamageSet {
  import opened DfBitsets
  import opened Division

  // ---- Bitsets ------------------------------------------------------------------------------

  lemma OneBitRaw(a: bv32, b: bv32)
    requires a < 32 && b < 32
    ensures (((1 as bv32) << a) & ((1 as bv32) << b) != 0) <==> a == b
  {
  }

  lemma DfBitRaw(df: nat)
    requires df < 32
    ensures DfBit(df) == (1 as bv32) << (df as bv32) && (df as bv32) < 32 && (df as bv32) as nat == df
  {
  }

  lemma SingletonSet(df: nat, x: nat)
    requires df < 32 && x < 32
    ensures InBitset(DfBit(df), x) <==> x == df
  {
    hide DfBit;
    DfBitRaw(df);
    DfBitRaw(x);
    OneBitRaw(df as bv32, x as bv32);
  }

  lemma WordOrRaw(a: bv32, b: bv32, m: bv32)
    ensures ((a | b) & m != 0) <==> (a & m != 0) || (b & m != 0)
  {
  }

  lemma TestsEither(a: bv32, b: bv32, m: bv32)
    ensures Tests(a | b, m) <==> Tests(a, m) || Tests(b, m)
  {
    WordOrRaw(a, b, m);
  }

  lemma UnionSet(a: bv32, b: bv32, x: nat)
    requires x < 32
    ensures InBitset(a | b, x) <==> InBitset(a, x) || InBitset(b, x)
  {
    hide DfBit, Tests;
    TestsEither(a, b, DfBit(x));
  }

  // ---- Damage -------------------------------------------------------------------------------

  function Weight(bit: nat): nat
    requires bit < 5
  {
    if bit == 0 then 1 else if bit == 1 then 2 else if bit == 2 then 4 else if bit == 3 then 8 else 16
  }

  /** `df ^ (1 << bit)` */
  function Damaged(df: nat, bit: nat): (r: nat)
    requires df < 32 && bit < 5
    ensures r < 32
  {
    if df / Weight(bit) % 2 == 1 then df - Weight(bit) else df + Weight(bit)
  }

  /** The k-th binary digit of a 5-bit number. */
  function BinaryDigit(df: nat, k: nat): nat
    requires k < 5
  {
    df / Weight(k) % 2
  }

  /** The number with these digits, most significant first. */
  function Number(a: nat, b: nat, c: nat, d: nat, e: nat): nat {
    16 * a + 8 * b + 4 * c + 2 * d + e
  }

  lemma DigitsOfNumber(a: nat, b: nat, c: nat, d: nat, e: nat)
    requires a <= 1 && b <= 1 && c <= 1 && d <= 1 && e <= 1
    ensures var n := Number(a, b, c, d, e);
      BinaryDigit(n, 0) == e && BinaryDigit(n, 1) == d && BinaryDigit(n, 2) == c
        && BinaryDigit(n, 3) == b && BinaryDigit(n, 4) == a
  {
    hide BinaryDigit;
    var m3 := 2 * a + b;
    var m2 := 2 * m3 + c;
    var m1 := 2 * m2 + d;
    var n := 2 * m1 + e;
    Halved(m1, e);
    Halved(m2, d);
    Halved(m3, c);
    Halved(a, b);
    HalvesAreDigits(n, m1, m2, m3, a);
    assert n == Number(a, b, c, d, e);
  }

  lemma HalvesAreDigits(n: nat, m1: nat, m2: nat, m3: nat, a: nat)
    requires n / 2 == m1 && m1 / 2 == m2 && m2 / 2 == m3 && m3 / 2 == a <= 1
    ensures BinaryDigit(n, 0) == n % 2 && BinaryDigit(n, 1) == m1 % 2 && BinaryDigit(n, 2) == m2 % 2
      && BinaryDigit(n, 3) == m3 % 2
    ensures BinaryDigit(n, 4) == a
  {
    RepeatedHalves(n);
  }

  lemma DigitsOf(n: nat)
    requires n < 32
    ensures n == Number(BinaryDigit(n, 4), BinaryDigit(n, 3), BinaryDigit(n, 2), BinaryDigit(n, 1), BinaryDigit(n, 0))
    ensures BinaryDigit(n, 4) <= 1 && BinaryDigit(n, 3) <= 1 && BinaryDigit(n, 2) <= 1
      && BinaryDigit(n, 1) <= 1 && BinaryDigit(n, 0) <= 1
  {
    assert n / 4 == n / 2 / 2;
    assert n / 8 == n / 4 / 2;
    assert n / 16 == n / 8 / 2;
    assert n / 16 % 2 == n / 16;
  }

  function Toggle(digit: nat, yes: bool): nat {
    if !yes then digit else if digit == 1 then 0 else 1
  }

  lemma DamagedIsNumber(df: nat, bit: nat)
    requires df < 32 && bit < 5
    ensures Damaged(df, bit) == Number(Toggle(BinaryDigit(df, 4), bit == 4), Toggle(BinaryDigit(df, 3), bit == 3),
      Toggle(BinaryDigit(df, 2), bit == 2), Toggle(BinaryDigit(df, 1), bit == 1), Toggle(BinaryDigit(df, 0), bit == 0))
  {
    DigitsOf(df);
    assert df / Weight(bit) % 2 == BinaryDigit(df, bit);
    hide BinaryDigit;
  }

  lemma DamagedDigits(df: nat, bit: nat)
    requires df < 32 && bit < 5
    ensures forall k: nat :: k < 5 ==> BinaryDigit(Damaged(df, bit), k) == Toggle(BinaryDigit(df, k), k == bit)
  {
    hide BinaryDigit, Damaged, Number;
    DigitsOf(df);
    DamagedIsNumber(df, bit);
    DigitsOfNumber(Toggle(BinaryDigit(df, 4), bit == 4), Toggle(BinaryDigit(df, 3), bit == 3),
      Toggle(BinaryDigit(df, 2), bit == 2), Toggle(BinaryDigit(df, 1), bit == 1), Toggle(BinaryDigit(df, 0), bit == 0));
  }

  function DigitsDiffer(a: nat, b: nat, k: nat): nat
    requires k < 5
  {
    Differ(BinaryDigit(a, k) == 1, BinaryDigit(b, k) == 1)
  }

  lemma DistanceDigits(a: nat, b: nat)
    ensures Distance(a, b) == DigitsDiffer(a, b, 0) + DigitsDiffer(a, b, 1) + DigitsDiffer(a, b, 2)
      + DigitsDiffer(a, b, 3) + DigitsDiffer(a, b, 4)
  {
  }

  /** Two formats at distance 0 are the same. */
  lemma ZeroDistance(x: nat, df: nat)
    requires x < 32 && df < 32
    ensures Distance(x, df) == 0 <==> x == df
    ensures Distance(x, df) > 0 ==> exists k :: 0 <= k < 5 && BinaryDigit(x, k) != BinaryDigit(df, k)
  {
    hide BinaryDigit, Distance;
    DigitsOf(x);
    DigitsOf(df);
    DistanceDigits(x, df);
    DigitsDifferFacts(x, df);
    if Distance(x, df) > 0 {
      var k := if DigitsDiffer(x, df, 0) > 0 then 0 else if DigitsDiffer(x, df, 1) > 0 then 1
        else if DigitsDiffer(x, df, 2) > 0 then 2 else if DigitsDiffer(x, df, 3) > 0 then 3 else 4;
      assert BinaryDigit(x, k) != BinaryDigit(df, k);
    }
  }

  lemma DigitsDifferFacts(x: nat, df: nat)
    requires x < 32 && df < 32
    ensures forall k: nat :: k < 5 ==>
      DigitsDiffer(x, df, k) == if BinaryDigit(x, k) == BinaryDigit(df, k) then 0 else 1
  {
    DigitsOf(x);
    DigitsOf(df);
    hide BinaryDigit, Number;
  }

  /** Damaging one bit moves a format one step closer to or away from another. */
  lemma DamagedDistance(x: nat, df: nat, bit: nat)
    requires x < 32 && df < 32 && bit < 5
    ensures Distance(x, Damaged(df, bit))
         == if BinaryDigit(x, bit) != BinaryDigit(df, bit) then Distance(x, df) - 1 else Distance(x, df) + 1
  {
    hide Distance, BinaryDigit, Damaged, DigitsDiffer;
    DistanceDigits(x, df);
    DistanceDigits(x, Damaged(df, bit));
    forall k: nat | k < 5
      ensures DigitsDiffer(x, Damaged(df, bit), k) ==
        if k != bit then DigitsDiffer(x, df, k) else if BinaryDigit(x, k) != BinaryDigit(df, k) then 0 else 1
    {
      DamagedDigits(df, bit);
      DigitsDifferFacts(x, df);
      DigitsDifferFacts(x, Damaged(df, bit));
      DigitIsBit(x, k);
      DigitIsBit(df, k);
    }
    DigitsDifferFacts(x, df);
  }

  lemma DigitIsBit(x: nat, k: nat)
    requires x < 32 && k < 5
    ensures BinaryDigit(x, k) <= 1
  {
  }

  /** A format within distance d > 0 is the same or within distance d - 1 of a damaged one. */
  lemma NearDamaged(x: nat, df: nat, d: nat)
    requires x < 32 && df < 32 && d > 0
    ensures Distance(x, df) <= d <==> x == df || exists bit :: 0 <= bit < 5 && Distance(x, Damaged(df, bit)) <= d - 1
  {
    hide Distance, BinaryDigit, Damaged;
    forall bit: nat | bit < 5
      ensures Distance(x, Damaged(df, bit))
           == if BinaryDigit(x, bit) != BinaryDigit(df, bit) then Distance(x, df) - 1 else Distance(x, df) + 1
    {
      DamagedDistance(x, df, bit);
    }
    ZeroDistance(x, df);
    if Distance(x, df) > 0 {
      var k :| 0 <= k < 5 && BinaryDigit(x, k) != BinaryDigit(df, k);
      assert Distance(x, Damaged(df, k)) == Distance(x, df) - 1;
    }
  }

  /** generate_damage_set: exactly the Hamming ball of radius damageBits around df. */
  method GenerateDamageSet(df: nat, damageBits: nat) returns (result: bv32)
    requires df < 32
    ensures forall x: nat :: x < 32 ==> (InBitset(result, x) <==> Distance(x, df) <= damageBits)
    decreases damageBits
  {
    hide InBitset, Distance, Damaged, DfBit;
    result := DfBit(df);
    forall x: nat | x < 32 ensures (InBitset(result, x) <==> x == df) && (Distance(x, df) == 0 <==> x == df) {
      SingletonSet(df, x);
      ZeroDistance(x, df);
    }
    if damageBits == 0 {
      return;
    }
    for bit := 0 to 5
      invariant forall x: nat :: x < 32 ==>
        (InBitset(result, x) <==> x == df || exists b :: 0 <= b < bit && Distance(x, Damaged(df, b)) <= damageBits - 1)
    {
      var more := GenerateDamageSet(Damaged(df, bit), damageBits - 1);
      forall x: nat | x < 32 ensures InBitset(result | more, x) <==> InBitset(result, x) || InBitset(more, x) {
        UnionSet(result, more, x);
      }
      result := result | more;
    }
    forall x: nat | x < 32 ensures InBitset(result, x) <==> Distance(x, df) <= damageBits {
      NearDamaged(x, df, damageBits);
    }
  }
}
