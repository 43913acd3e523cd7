/** How far apart the valid messages are: in up to 112 bits no pattern of at most 5 errors goes
    unnoticed, so that patterns of together at most 5 errors never share a syndrome. */
module CodeDistance {
  import opened Polynomial
  import opened Checksum
  import opened ErrorPatterns
  import opened PowerTable

  // ---- Odd numbers of errors ----------------------------------------------------------------------

  /** The number of ones among the first n coefficients of r is odd. */
  predicate OddTop(r: bv24, n: nat) {
    n > 0 && OddTop(r, n - 1) != Leading(ShiftLeftBy(r, n - 1))
  }

  predicate Odd(r: bv24) {
    OddTop(r, 24)
  }

  lemma {:induction false} OddTopSum(a: bv24, b: bv24, n: nat)
    ensures OddTop(Add(a, b), n) <==> OddTop(a, n) != OddTop(b, n)
  {
    hide Add, Leading, ShiftLeftBy;
    if n > 0 {
      OddTopSum(a, b, n - 1);
      ShiftLeftByLinear(a, b, n - 1);
      LeadingOfSum(ShiftLeftBy(a, n - 1), ShiftLeftBy(b, n - 1));
    }
  }

  lemma {:induction false} OddTopShifted(r: bv24, n: nat)
    ensures OddTop(ShiftLeft(r), n) <==> OddTop(r, n + 1) != Leading(r)
  {
    hide Leading, ShiftLeft;
    if n > 0 {
      OddTopShifted(r, n - 1);
      ShiftLeftByMore(r, n - 1);
    }
  }

  lemma ShiftedOutRaw(r: bv24)
    ensures (r << 16) << 8 == 0
  {
  }

  lemma NothingAfterTheLast(r: bv24)
    ensures OddTop(r, 25) <==> OddTop(r, 24)
  {
    hide ShiftLeftBy;
    ShiftLeftBySixteen(r);
    ShiftLeftByEight(r << 16);
    ShiftLeftByAdd(r, 16, 8);
    ShiftedOutRaw(r);
  }

  lemma GeneratorShifts()
    ensures ShiftLeftBy(GENERATOR, 4) == 0xff4090 && ShiftLeftBy(GENERATOR, 8) == 0xf40900
    ensures ShiftLeftBy(GENERATOR, 12) == 0x409000 && ShiftLeftBy(GENERATOR, 16) == 0x090000
    ensures ShiftLeftBy(GENERATOR, 20) == 0x900000
  {
  }

  lemma GeneratorIsOdd()
    ensures !OddTop(GENERATOR, 4) && !OddTop(GENERATOR, 8) && !OddTop(GENERATOR, 12)
    ensures OddTop(GENERATOR, 16) && OddTop(GENERATOR, 20) && Odd(GENERATOR)
  {
    GeneratorShifts();
  }

  lemma ConstantShifts()
    ensures ShiftLeftBy(1, 4) == 0x000010 && ShiftLeftBy(1, 8) == 0x000100 && ShiftLeftBy(1, 12) == 0x001000
    ensures ShiftLeftBy(1, 16) == 0x010000 && ShiftLeftBy(1, 20) == 0x100000
  {
  }

  lemma OneIsOdd()
    ensures !OddTop(1, 4) && !OddTop(1, 8) && !OddTop(1, 12) && !OddTop(1, 16) && !OddTop(1, 20) && Odd(1)
  {
    ConstantShifts();
  }

  lemma ZeroIsEven()
    ensures !Odd(0)
  {
    hide Add, OddTop;
    AddIdentities(0);
    OddTopSum(0, 0, 24);
  }

  /** The generator is divisible by x + 1. */
  lemma OddTimesX(r: bv24)
    ensures Odd(TimesX(r)) <==> Odd(r)
  {
    hide Add, Leading, ShiftLeft, OddTop;
    OddTopShifted(r, 24);
    NothingAfterTheLast(r);
    GeneratorIsOdd();
    OddTopSum(ShiftLeft(r), GENERATOR, 24);
  }

  lemma {:induction false} PowerIsOdd(n: nat)
    ensures Odd(Shift(1, n))
  {
    hide Odd, TimesX;
    OneIsOdd();
    if n > 0 {
      PowerIsOdd(n - 1);
      OddTimesX(Shift(1, n - 1));
    }
  }

  /** In a message of any length an odd number of errors has an odd syndrome. */
  lemma {:induction false} OddErrors(p: seq<nat>, bits: nat)
    ensures Odd(Syndrome(p, bits)) <==> |p| % 2 == 1
  {
    hide OddTop, Add, Shift;
    ZeroIsEven();
    if p != [] {
      var q, k := p[..|p| - 1], p[|p| - 1];
      OddErrors(q, bits);
      PowerIsOdd(if k < bits then bits - 1 - k else 0);
      OddTopSum(Syndrome(q, bits), BitSyndrome(k, bits), 24);
    }
  }

  // ---- Minimum distance -----------------------------------------------------------------------------

  lemma TwoErrors(p: seq<nat>, bits: nat)
    requires |p| == 2
    ensures Syndrome(p, bits) == Add(BitSyndrome(p[0], bits), BitSyndrome(p[1], bits))
  {
    hide Add, BitSyndrome;
    var q := p[..1];
    assert q[..0] == [];
    AddIdentities(BitSyndrome(p[0], bits));
    assert Syndrome(q, bits) == BitSyndrome(p[0], bits);
  }

  lemma FourErrors(p: seq<nat>, bits: nat)
    requires |p| == 4
    ensures Syndrome(p, bits) == Add(Add(Add(BitSyndrome(p[0], bits), BitSyndrome(p[1], bits)),
                                         BitSyndrome(p[2], bits)), BitSyndrome(p[3], bits))
  {
    hide Add, BitSyndrome;
    var q := p[..3];
    assert q[..2] == p[..2];
    TwoErrors(p[..2], bits);
  }

  /** Up to 5 errors in a message of at most 112 bits are always noticed. */
  lemma MinimumDistance(p: seq<nat>, bits: nat)
    requires bits <= POWERS && IsPattern(p, bits) && 1 <= |p| <= 5
    ensures Syndrome(p, bits) != 0
  {
    hide Add, Syndrome, Shift, Odd;
    OddErrors(p, bits);
    ZeroIsEven();
    if |p| == 2 {
      TwoErrors(p, bits);
      var a, b := bits - 1 - p[0], bits - 1 - p[1];
      PowersDiffer(b, a);
      ZeroSum(Shift(1, a), Shift(1, b));
    } else if |p| == 4 {
      FourErrors(p, bits);
      FourPowers(bits - 1 - p[3], bits - 1 - p[2], bits - 1 - p[1], bits - 1 - p[0]);
    }
  }

  lemma SixPowers()
    ensures Shift(1, 0) == 0x000001 && Shift(1, 13) == 0x002000 && Shift(1, 54) == 0xff38b7
    ensures Shift(1, 57) == 0x06159c && Shift(1, 58) == 0x0c2b38 && Shift(1, 64) == 0xf52612
  {
    StartIs(1);
    StartIs(7);
    StartIs(8);
    StartIs(9);
    ShiftAdd(1, 7, 6);
    ShiftAdd(1, 49, 5);
    ShiftAdd(1, 56, 1);
    ShiftAdd(1, 56, 2);
    ShiftAdd(1, 63, 1);
  }

  /** Six errors can go unnoticed. */
  lemma SixErrorsCanBeMissed()
    ensures var p := [47, 53, 54, 57, 98, 111];
      IsPattern(p, 112) && Syndrome(p, 112) == 0
  {
    hide Shift;
    var p := [47, 53, 54, 57, 98, 111];
    SixPowers();
    assert p[..5][..4] == p[..4] == [47, 53, 54, 57];
    FourErrors(p[..4], 112);
  }

  // ---- Differences of patterns ------------------------------------------------------------------------

  /** The bits in exactly one of p and q. */
  function Difference(p: seq<nat>, q: seq<nat>): seq<nat>
    decreases |p| + |q|
  {
    if p == [] then q
    else if q == [] then p
    else
      var a, b := p[|p| - 1], q[|q| - 1];
      if a == b then Difference(p[..|p| - 1], q[..|q| - 1])
      else if a < b then Difference(p, q[..|q| - 1]) + [b]
      else Difference(p[..|p| - 1], q) + [a]
  }

  lemma LastIsGreatest(p: seq<nat>, bits: nat)
    requires IsPattern(p, bits) && p != []
    ensures var q, a := p[..|p| - 1], p[|p| - 1];
      p == q + [a] && a < bits && IsPattern(q, a)
  {
  }

  lemma WithGreatest(p: seq<nat>, a: nat, bits: nat)
    requires IsPattern(p, a) && a < bits
    ensures IsPattern(p + [a], bits)
  {
  }

  lemma Loosen(p: seq<nat>, a: nat, b: nat)
    requires IsPattern(p, a) && a <= b
    ensures IsPattern(p, b)
  {
  }

  lemma {:induction false} DifferenceIsPattern(p: seq<nat>, q: seq<nat>, bits: nat)
    requires IsPattern(p, bits) && IsPattern(q, bits)
    ensures var d := Difference(p, q);
      IsPattern(d, bits) && |d| <= |p| + |q| && (d == [] <==> p == q)
    decreases |p| + |q|
  {
    hide IsPattern;
    if p != [] && q != [] {
      var p', a, q', b := p[..|p| - 1], p[|p| - 1], q[..|q| - 1], q[|q| - 1];
      LastIsGreatest(p, bits);
      LastIsGreatest(q, bits);
      if a == b {
        DifferenceIsPattern(p', q', a);
        Loosen(Difference(p', q'), a, bits);
      } else if a < b {
        WithGreatest(p', a, b);
        DifferenceIsPattern(p, q', b);
        WithGreatest(Difference(p, q'), b, bits);
      } else {
        WithGreatest(q', b, a);
        DifferenceIsPattern(p', q, a);
        WithGreatest(Difference(p', q), a, bits);
      }
    }
  }

  lemma {:induction false} SyndromeOfDifference(p: seq<nat>, q: seq<nat>, bits: nat)
    ensures Syndrome(Difference(p, q), bits) == Add(Syndrome(p, bits), Syndrome(q, bits))
    decreases |p| + |q|
  {
    hide Add, BitSyndrome;
    AddIdentities(Syndrome(p, bits));
    AddIdentities(Syndrome(q, bits));
    if p != [] && q != [] {
      var p', a, q', b := p[..|p| - 1], p[|p| - 1], q[..|q| - 1], q[|q| - 1];
      var s, t := BitSyndrome(a, bits), BitSyndrome(b, bits);
      if a == b {
        SyndromeOfDifference(p', q', bits);
        AddExchange(Syndrome(p', bits), s, Syndrome(q', bits), s);
        AddIdentities(s);
        AddIdentities(Add(Syndrome(p', bits), Syndrome(q', bits)));
      } else if a < b {
        SyndromeOfDifference(p, q', bits);
        assert (Difference(p, q') + [b])[..|Difference(p, q')|] == Difference(p, q');
        AddAssociates(Syndrome(p, bits), Syndrome(q', bits), t);
      } else {
        SyndromeOfDifference(p', q, bits);
        assert (Difference(p', q) + [a])[..|Difference(p', q)|] == Difference(p', q);
        AddRotate(Syndrome(p', bits), s, Syndrome(q, bits));
      }
    }
  }

  /** Different patterns of together at most 5 errors have different syndromes. */
  lemma SyndromesDiffer(p: seq<nat>, q: seq<nat>, bits: nat)
    requires bits <= POWERS && IsPattern(p, bits) && IsPattern(q, bits) && p != q && |p| + |q| <= 5
    ensures Syndrome(p, bits) != Syndrome(q, bits)
  {
    hide Add, Syndrome, Difference;
    DifferenceIsPattern(p, q, bits);
    MinimumDistance(Difference(p, q), bits);
    SyndromeOfDifference(p, q, bits);
    ZeroSum(Syndrome(p, bits), Syndrome(q, bits));
  }
}
