/** The powers of x modulo the generator up to x^111: the syndromes of single errors in messages of
    at most 112 bits. They differ, and no four of them add up to 0. */
module PowerTable {
  import opened Polynomial

  const POWERS: nat := 112

  /** r is one of 1, x, x^2, ..., x^111. */
  predicate IsPower(r: bv24) {
    || r == 0x000001 || r == 0x000002 || r == 0x000004 || r == 0x000008
    || r == 0x000010 || r == 0x000020 || r == 0x000040 || r == 0x000080
    || r == 0x000100 || r == 0x000200 || r == 0x000400 || r == 0x000800
    || r == 0x001000 || r == 0x002000 || r == 0x004000 || r == 0x008000
    || r == 0x010000 || r == 0x020000 || r == 0x040000 || r == 0x080000
    || r == 0x100000 || r == 0x200000 || r == 0x400000 || r == 0x800000
    || r == 0xfff409 || r == 0x001c1b || r == 0x003836 || r == 0x00706c
    || r == 0x00e0d8 || r == 0x01c1b0 || r == 0x038360 || r == 0x0706c0
    || r == 0x0e0d80 || r == 0x1c1b00 || r == 0x383600 || r == 0x706c00
    || r == 0xe0d800 || r == 0x3e4409 || r == 0x7c8812 || r == 0xf91024
    || r == 0x0dd441 || r == 0x1ba882 || r == 0x375104 || r == 0x6ea208
    || r == 0xdd4410 || r == 0x457c29 || r == 0x8af852 || r == 0xea04ad
    || r == 0x2bfd53 || r == 0x57faa6 || r == 0xaff54c || r == 0xa01e91
    || r == 0xbfc92b || r == 0x80665f || r == 0xff38b7 || r == 0x018567
    || r == 0x030ace || r == 0x06159c || r == 0x0c2b38 || r == 0x185670
    || r == 0x30ace0 || r == 0x6159c0 || r == 0xc2b380 || r == 0x7a9309
    || r == 0xf52612 || r == 0x15b82d || r == 0x2b705a || r == 0x56e0b4
    || r == 0xadc168 || r == 0xa476d9 || r == 0xb719bb || r == 0x91c77f
    || r == 0xdc7af7 || r == 0x4701e7 || r == 0x8e03ce || r == 0xe3f395
    || r == 0x381323 || r == 0x702646 || r == 0xe04c8c || r == 0x3f6d11
    || r == 0x7eda22 || r == 0xfdb444 || r == 0x049c81 || r == 0x093902
    || r == 0x127204 || r == 0x24e408 || r == 0x49c810 || r == 0x939020
    || r == 0xd8d449 || r == 0x4e5c9b || r == 0x9cb936 || r == 0xc68665
    || r == 0x72f8c3 || r == 0xe5f186 || r == 0x341705 || r == 0x682e0a
    || r == 0xd05c14 || r == 0x5f4c21 || r == 0xbe9842 || r == 0x82c48d
    || r == 0xfa7d13 || r == 0x0b0e2f || r == 0x161c5e || r == 0x2c38bc
    || r == 0x587178 || r == 0xb0e2f0 || r == 0x9e31e9 || r == 0xc397db
    || r == 0x78dbbf || r == 0xf1b77e || r == 0x1c9af5 || r == 0x3935ea
  }

  // ---- The table is right -----------------------------------------------------------------------

  /** r and the n - 1 powers after it are in the table. */
  predicate Run(r: bv24, n: nat)
    decreases n
  {
    n == 0 || (IsPower(r) && Run(TimesX(r), n - 1))
  }

  lemma {:induction false} RunMeans(r: bv24, n: nat, k: nat)
    requires Run(r, n) && k < n
    ensures IsPower(Shift(r, k))
    decreases k
  {
    hide IsPower, TimesX;
    if k > 0 {
      RunMeans(TimesX(r), n - 1, k - 1);
      ShiftAdd(r, 1, k - 1);
      assert Shift(r, 1) == TimesX(Shift(r, 0));
    }
  }

  /** x^(7 * i) */
  function Start(i: nat): bv24
    requires i < 16
  {
    if i == 0 then 0x000001 else if i == 1 then 0x000080 else if i == 2 then 0x004000 else
    if i == 3 then 0x200000 else if i == 4 then 0x00e0d8 else if i == 5 then 0x706c00 else
    if i == 6 then 0x375104 else if i == 7 then 0x57faa6 else if i == 8 then 0x030ace else
    if i == 9 then 0x7a9309 else if i == 10 then 0xb719bb else if i == 11 then 0x702646 else
    if i == 12 then 0x127204 else if i == 13 then 0xc68665 else if i == 14 then 0xbe9842 else
    0xb0e2f0
  }

  lemma Rows0And1()
    ensures Run(0x000001, 7) && Shift(0x000001, 7) == 0x000080
    ensures Run(0x000080, 7) && Shift(0x000080, 7) == 0x004000
  {
  }

  lemma Rows2And3()
    ensures Run(0x004000, 7) && Shift(0x004000, 7) == 0x200000
    ensures Run(0x200000, 7) && Shift(0x200000, 7) == 0x00e0d8
  {
  }

  lemma Rows4And5()
    ensures Run(0x00e0d8, 7) && Shift(0x00e0d8, 7) == 0x706c00
    ensures Run(0x706c00, 7) && Shift(0x706c00, 7) == 0x375104
  {
  }

  lemma Rows6And7()
    ensures Run(0x375104, 7) && Shift(0x375104, 7) == 0x57faa6
    ensures Run(0x57faa6, 7) && Shift(0x57faa6, 7) == 0x030ace
  {
  }

  lemma Rows8And9()
    ensures Run(0x030ace, 7) && Shift(0x030ace, 7) == 0x7a9309
    ensures Run(0x7a9309, 7) && Shift(0x7a9309, 7) == 0xb719bb
  {
  }

  lemma Rows10And11()
    ensures Run(0xb719bb, 7) && Shift(0xb719bb, 7) == 0x702646
    ensures Run(0x702646, 7) && Shift(0x702646, 7) == 0x127204
  {
  }

  lemma Rows12And13()
    ensures Run(0x127204, 7) && Shift(0x127204, 7) == 0xc68665
    ensures Run(0xc68665, 7) && Shift(0xc68665, 7) == 0xbe9842
  {
  }

  lemma Rows14And15()
    ensures Run(0xbe9842, 7) && Shift(0xbe9842, 7) == 0xb0e2f0
    ensures Run(0xb0e2f0, 7)
  {
  }

  lemma Row(i: nat)
    requires i < 16
    ensures Run(Start(i), 7) && (i < 15 ==> Shift(Start(i), 7) == Start(i + 1))
  {
    hide Run, Shift, IsPower, TimesX;
    Rows0And1();
    Rows2And3();
    Rows4And5();
    Rows6And7();
    Rows8And9();
    Rows10And11();
    Rows12And13();
    Rows14And15();
  }

  lemma {:induction false} StartIs(i: nat)
    requires i < 16
    ensures Shift(1, 7 * i) == Start(i)
  {
    hide TimesX, Run, Start, Shift;
    if i == 0 {
      FirstStart();
    } else {
      StartIs(i - 1);
      Row(i - 1);
      ShiftAdd(1, 7 * (i - 1), 7);
    }
  }

  lemma FirstStart()
    ensures Start(0) == 1 == Shift(1, 0)
  {
  }

  lemma PowerInTable(k: nat)
    requires k < POWERS
    ensures IsPower(Shift(1, k))
  {
    hide IsPower, Run, Shift, Start;
    var i := k / 7;
    StartIs(i);
    Row(i);
    RunMeans(Start(i), 7, k % 7);
    ShiftAdd(1, 7 * i, k % 7);
  }

  // ---- What the table shows -----------------------------------------------------------------------

  lemma FirstQuarter(u: bv24, v: bv24)
    requires IsPower(u) && u & 0x1400 == 0x0000 && u != 1 && IsPower(v) && IsPower(v ^ u ^ 1)
    ensures v == 1 || v == u
  {
  }

  lemma SecondQuarter(u: bv24, v: bv24)
    requires IsPower(u) && u & 0x1400 == 0x0400 && u != 1 && IsPower(v) && IsPower(v ^ u ^ 1)
    ensures v == 1 || v == u
  {
  }

  lemma ThirdQuarter(u: bv24, v: bv24)
    requires IsPower(u) && u & 0x1400 == 0x1000 && u != 1 && IsPower(v) && IsPower(v ^ u ^ 1)
    ensures v == 1 || v == u
  {
  }

  lemma FourthQuarter(u: bv24, v: bv24)
    requires IsPower(u) && u & 0x1400 == 0x1400 && u != 1 && IsPower(v) && IsPower(v ^ u ^ 1)
    ensures v == 1 || v == u
  {
  }

  lemma QuartersRaw(u: bv24)
    ensures u & 0x1400 in {0x0000, 0x0400, 0x1000, 0x1400}
  {
  }

  /** If u + v + 1 is a power of x, it is trivially one. */
  lemma SumOfThree(u: bv24, v: bv24)
    requires IsPower(u) && u != 1 && IsPower(v) && IsPower(Add(Add(v, u), 1))
    ensures v == 1 || v == u
  {
    hide IsPower;
    QuartersRaw(u);
    if u & 0x1400 == 0x0000 {
      FirstQuarter(u, v);
    } else if u & 0x1400 == 0x0400 {
      SecondQuarter(u, v);
    } else if u & 0x1400 == 0x1000 {
      ThirdQuarter(u, v);
    } else {
      FourthQuarter(u, v);
    }
  }

  lemma NextIsNotOne(r: bv24)
    requires IsPower(r)
    ensures TimesX(r) != 1
  {
  }

  lemma TimesXOfNonZero(r: bv24)
    requires r != 0
    ensures TimesX(r) != 0
  {
  }

  lemma ZeroSum(a: bv24, b: bv24)
    ensures Add(a, b) == 0 <==> a == b
  {
  }

  lemma {:induction false} PowersDiffer(i: nat, j: nat)
    requires i < j < POWERS
    ensures Shift(1, i) != Shift(1, j)
  {
    hide Add, TimesX, IsPower;
    if i == 0 {
      PowerInTable(j - 1);
      NextIsNotOne(Shift(1, j - 1));
    } else {
      PowersDiffer(i - 1, j - 1);
      var a, b := Shift(1, i - 1), Shift(1, j - 1);
      ZeroSum(a, b);
      TimesXOfNonZero(Add(a, b));
      TimesXLinear(a, b);
      ZeroSum(TimesX(a), TimesX(b));
    }
  }

  /** No four different powers add up to 0. */
  lemma {:induction false} FourPowers(a: nat, b: nat, c: nat, d: nat)
    requires a < b < c < d < POWERS
    ensures Add(Add(Add(Shift(1, d), Shift(1, c)), Shift(1, b)), Shift(1, a)) != 0
    decreases a
  {
    hide Add, TimesX, IsPower;
    var r, s, t, u := Shift(1, d), Shift(1, c), Shift(1, b), Shift(1, a);
    if a > 0 {
      FourPowers(a - 1, b - 1, c - 1, d - 1);
      SumTimesX(Shift(1, d - 1), Shift(1, c - 1), Shift(1, b - 1), Shift(1, a - 1));
    } else if Add(Add(Add(r, s), t), u) == 0 {
      PowerInTable(b);
      PowerInTable(c);
      PowerInTable(d);
      PowersDiffer(a, b);
      PowersDiffer(a, c);
      PowersDiffer(b, c);
      LastOfFour(r, s, t, u);
      SumOfThree(t, s);
    }
  }

  lemma SumTimesX(r: bv24, s: bv24, t: bv24, u: bv24)
    requires Add(Add(Add(r, s), t), u) != 0
    ensures Add(Add(Add(TimesX(r), TimesX(s)), TimesX(t)), TimesX(u)) != 0
  {
    hide Add, TimesX;
    TimesXLinear(r, s);
    TimesXLinear(Add(r, s), t);
    TimesXLinear(Add(Add(r, s), t), u);
    TimesXOfNonZero(Add(Add(Add(r, s), t), u));
  }

  lemma LastOfFour(r: bv24, s: bv24, t: bv24, u: bv24)
    requires Add(Add(Add(r, s), t), u) == 0
    ensures r == Add(Add(s, t), u)
  {
  }
}
