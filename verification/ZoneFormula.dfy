/** Where the number of longitude zones changes, by the standard's formula (RTCA DO-260B, Appendix A,
    section A.1.7.2): a latitude has at least n zones if sin(pi / n) * cos(latitude) is at least
    sin(pi / 60), which is the formula with half angles. The sine is any function with the few
    properties of the sine that are needed. */
module ZoneFormula {
  import opened Cpr
  import opened CprArithmetic
  import opened Zones
  import opened ZoneTable

  const PI_LOW: real := 3.14159265358979323
  const PI_HIGH: real := 3.14159265358979324

  /** One unit of the last digit of the transition latitudes, in degrees. */
  const UNIT: real := 0.00000001

  /** The Taylor polynomial of the sine up to x^15. */
  function SinLow(x: real): real {
    var y := x * x;
    x * (1.0 - y / 6.0 * (1.0 - y / 20.0 * (1.0 - y / 42.0 * (1.0 - y / 72.0 * (1.0 - y / 110.0
      * (1.0 - y / 156.0 * (1.0 - y / 210.0)))))))
  }

  /** The Taylor polynomial of the sine up to x^17. */
  function SinHigh(x: real): real {
    var y := x * x;
    x * (1.0 - y / 6.0 * (1.0 - y / 20.0 * (1.0 - y / 42.0 * (1.0 - y / 72.0 * (1.0 - y / 110.0
      * (1.0 - y / 156.0 * (1.0 - y / 210.0 * (1.0 - y / 272.0))))))))
  }

  /** Between 0 and a right angle the sine increases from 0 to 1 and lies between two successive
      Taylor polynomials. */
  ghost predicate IsSine(sin: real -> real, pi: real) {
    && PI_LOW < pi < PI_HIGH && sin(pi / 2.0) == 1.0
    && (forall x: real, y: real :: 0.0 <= x < y <= pi / 2.0 ==> sin(x) < sin(y))
    && (forall x: real :: 0.0 <= x <= pi / 2.0 ==> Enclosed(sin, x))
  }

  predicate Enclosed(sin: real -> real, x: real) {
    SinLow(x) <= sin(x) <= SinHigh(x)
  }

  function Radians(degrees: real, pi: real): real {
    degrees * pi / 180.0
  }

  function Part(pi: real, n: int): real
    requires n > 0
  {
    pi / n as real
  }

  /** The cosine of a latitude in degrees. */
  function CosOfLatitude(sin: real -> real, pi: real, lat: real): real {
    sin(Radians(90.0 - Abs(lat), pi))
  }

  /** The standard gives the latitude at least n longitude zones. */
  predicate AtLeast(sin: real -> real, pi: real, lat: real, n: int)
    requires n > 0
  {
    n == 1 || sin(Part(pi, n)) * CosOfLatitude(sin, pi, lat) >= sin(Part(pi, 60))
  }

  // ---- The transitions solve the equation ---------------------------------------------------------

  /** The boundary between n - 1 and n zones lies within one unit of latitude t. */
  predicate Solves(n: int, t: real)
    requires n > 0
  {
    && SinHigh(PI_HIGH / n as real) * SinHigh((90.0 - t - UNIT) * PI_HIGH / 180.0) < SinLow(PI_LOW / 60.0)
    && SinLow(PI_LOW / n as real) * SinLow((90.0 - t + UNIT) * PI_LOW / 180.0) > SinHigh(PI_HIGH / 60.0)
  }

  predicate TransitionSolves(n: int)
    requires 2 <= n <= 59
  {
    Solves(n, Transition(n))
  }

  lemma Unfolded(n: int)
    requires 2 <= n <= 59 && !TransitionSolves(n)
    ensures !Solves(n, Transition(n))
  {
  }

  lemma Solved3To5(n: int)
    requires 3 <= n <= 5
    ensures TransitionSolves(n)
  {
    hide TransitionSolves;
    if !TransitionSolves(n) {
      Unfolded(n);
      assert false;
    }
  }

  lemma Solved6To8(n: int)
    requires 6 <= n <= 8
    ensures TransitionSolves(n)
  {
    hide TransitionSolves;
    if !TransitionSolves(n) {
      Unfolded(n);
      assert false;
    }
  }

  lemma Solved9To11(n: int)
    requires 9 <= n <= 11
    ensures TransitionSolves(n)
  {
    hide TransitionSolves;
    if !TransitionSolves(n) {
      Unfolded(n);
      assert false;
    }
  }

  lemma Solved12To14(n: int)
    requires 12 <= n <= 14
    ensures TransitionSolves(n)
  {
    hide TransitionSolves;
    if !TransitionSolves(n) {
      Unfolded(n);
      assert false;
    }
  }

  lemma Solved15To17(n: int)
    requires 15 <= n <= 17
    ensures TransitionSolves(n)
  {
    hide TransitionSolves;
    if !TransitionSolves(n) {
      Unfolded(n);
      assert false;
    }
  }

  lemma Solved18To20(n: int)
    requires 18 <= n <= 20
    ensures TransitionSolves(n)
  {
    hide TransitionSolves;
    if !TransitionSolves(n) {
      Unfolded(n);
      assert false;
    }
  }

  lemma Solved21To23(n: int)
    requires 21 <= n <= 23
    ensures TransitionSolves(n)
  {
    hide TransitionSolves;
    if !TransitionSolves(n) {
      Unfolded(n);
      assert false;
    }
  }

  lemma Solved24To26(n: int)
    requires 24 <= n <= 26
    ensures TransitionSolves(n)
  {
    hide TransitionSolves;
    if !TransitionSolves(n) {
      Unfolded(n);
      assert false;
    }
  }

  lemma Solved27To29(n: int)
    requires 27 <= n <= 29
    ensures TransitionSolves(n)
  {
    hide TransitionSolves;
    if !TransitionSolves(n) {
      Unfolded(n);
      assert false;
    }
  }

  lemma Solved30To32(n: int)
    requires 30 <= n <= 32
    ensures TransitionSolves(n)
  {
    hide TransitionSolves;
    if !TransitionSolves(n) {
      Unfolded(n);
      assert false;
    }
  }

  lemma Solved33To35(n: int)
    requires 33 <= n <= 35
    ensures TransitionSolves(n)
  {
    hide TransitionSolves;
    if !TransitionSolves(n) {
      Unfolded(n);
      assert false;
    }
  }

  lemma Solved36To38(n: int)
    requires 36 <= n <= 38
    ensures TransitionSolves(n)
  {
    hide TransitionSolves;
    if !TransitionSolves(n) {
      Unfolded(n);
      assert false;
    }
  }

  lemma Solved39To41(n: int)
    requires 39 <= n <= 41
    ensures TransitionSolves(n)
  {
    hide TransitionSolves;
    if !TransitionSolves(n) {
      Unfolded(n);
      assert false;
    }
  }

  lemma Solved42To44(n: int)
    requires 42 <= n <= 44
    ensures TransitionSolves(n)
  {
    hide TransitionSolves;
    if !TransitionSolves(n) {
      Unfolded(n);
      assert false;
    }
  }

  lemma Solved45To47(n: int)
    requires 45 <= n <= 47
    ensures TransitionSolves(n)
  {
    hide TransitionSolves;
    if !TransitionSolves(n) {
      Unfolded(n);
      assert false;
    }
  }

  lemma Solved48To50(n: int)
    requires 48 <= n <= 50
    ensures TransitionSolves(n)
  {
    hide TransitionSolves;
    if !TransitionSolves(n) {
      Unfolded(n);
      assert false;
    }
  }

  lemma Solved51To53(n: int)
    requires 51 <= n <= 53
    ensures TransitionSolves(n)
  {
    hide TransitionSolves;
    if !TransitionSolves(n) {
      Unfolded(n);
      assert false;
    }
  }

  lemma Solved54To56(n: int)
    requires 54 <= n <= 56
    ensures TransitionSolves(n)
  {
    hide TransitionSolves;
    if !TransitionSolves(n) {
      Unfolded(n);
      assert false;
    }
  }

  lemma Solved57To59(n: int)
    requires 57 <= n <= 59
    ensures TransitionSolves(n)
  {
    hide TransitionSolves;
    if !TransitionSolves(n) {
      Unfolded(n);
      assert false;
    }
  }

  /** Every transition but the last solves the equation of the standard, to a unit of its last digit. */
  lemma TransitionsSolve(n: int)
    requires 3 <= n <= 59
    ensures TransitionSolves(n)
  {
    hide TransitionSolves;
    if n <= 5 {
      Solved3To5(n);
    } else if n <= 8 {
      Solved6To8(n);
    } else if n <= 11 {
      Solved9To11(n);
    } else if n <= 14 {
      Solved12To14(n);
    } else if n <= 17 {
      Solved15To17(n);
    } else if n <= 20 {
      Solved18To20(n);
    } else if n <= 23 {
      Solved21To23(n);
    } else if n <= 26 {
      Solved24To26(n);
    } else if n <= 29 {
      Solved27To29(n);
    } else if n <= 32 {
      Solved30To32(n);
    } else if n <= 35 {
      Solved33To35(n);
    } else if n <= 38 {
      Solved36To38(n);
    } else if n <= 41 {
      Solved39To41(n);
    } else if n <= 44 {
      Solved42To44(n);
    } else if n <= 47 {
      Solved45To47(n);
    } else if n <= 50 {
      Solved48To50(n);
    } else if n <= 53 {
      Solved51To53(n);
    } else if n <= 56 {
      Solved54To56(n);
    } else {
      Solved57To59(n);
    }
  }

  // ---- The table is the formula ---------------------------------------------------------------------

  // The factors of Horner's scheme for SinLow, innermost first, each between 0 and 1.

  function Horner7(y: real): real { 1.0 - y / 210.0 }
  function Horner6(y: real): real { 1.0 - y / 156.0 * Horner7(y) }
  function Horner5(y: real): real { 1.0 - y / 110.0 * Horner6(y) }
  function Horner4(y: real): real { 1.0 - y / 72.0 * Horner5(y) }
  function Horner3(y: real): real { 1.0 - y / 42.0 * Horner4(y) }
  function Horner2(y: real): real { 1.0 - y / 20.0 * Horner3(y) }
  function Horner1(y: real): real { 1.0 - y / 6.0 * Horner2(y) }

  lemma FactorWithin(y: real, c: real, t: real)
    requires 0.0 <= y <= c && c > 0.0 && 0.0 <= t <= 1.0
    ensures 0.0 <= 1.0 - y / c * t <= 1.0
  {
    var q := y / c;
    assert 0.0 <= q <= 1.0;
    assert 0.0 <= q * t <= t;
  }

  lemma Horner6Is(y: real)
    ensures Horner6(y) == 1.0 - y / 156.0 * (1.0 - y / 210.0)
    ensures 0.0 <= y <= 4.0 ==> 0.0 <= Horner6(y) <= 1.0
  {
    if 0.0 <= y <= 4.0 {
      FactorWithin(y, 156.0, Horner7(y));
    }
  }

  lemma Horner5Is(y: real)
    ensures Horner5(y) == 1.0 - y / 110.0 * (1.0 - y / 156.0 * (1.0 - y / 210.0))
    ensures 0.0 <= y <= 4.0 ==> 0.0 <= Horner5(y) <= 1.0
  {
    Horner6Is(y);
    hide Horner6;
    if 0.0 <= y <= 4.0 {
      FactorWithin(y, 110.0, Horner6(y));
    }
  }

  lemma Horner4Is(y: real)
    ensures Horner4(y) == 1.0 - y / 72.0 * (1.0 - y / 110.0 * (1.0 - y / 156.0 * (1.0 - y / 210.0)))
    ensures 0.0 <= y <= 4.0 ==> 0.0 <= Horner4(y) <= 1.0
  {
    Horner5Is(y);
    hide Horner5;
    if 0.0 <= y <= 4.0 {
      FactorWithin(y, 72.0, Horner5(y));
    }
  }

  lemma Horner3Is(y: real)
    ensures Horner3(y) == 1.0 - y / 42.0 * (1.0 - y / 72.0 * (1.0 - y / 110.0 * (1.0 - y / 156.0 * (1.0 - y / 210.0))))
    ensures 0.0 <= y <= 4.0 ==> 0.0 <= Horner3(y) <= 1.0
  {
    Horner4Is(y);
    hide Horner4;
    if 0.0 <= y <= 4.0 {
      FactorWithin(y, 42.0, Horner4(y));
    }
  }

  lemma Horner2Is(y: real)
    ensures Horner2(y)
         == 1.0 - y / 20.0 * (1.0 - y / 42.0 * (1.0 - y / 72.0 * (1.0 - y / 110.0
              * (1.0 - y / 156.0 * (1.0 - y / 210.0)))))
    ensures 0.0 <= y <= 4.0 ==> 0.0 <= Horner2(y) <= 1.0
  {
    Horner3Is(y);
    hide Horner3;
    if 0.0 <= y <= 4.0 {
      FactorWithin(y, 20.0, Horner3(y));
    }
  }

  lemma Horner1Is(y: real)
    ensures Horner1(y)
         == 1.0 - y / 6.0 * (1.0 - y / 20.0 * (1.0 - y / 42.0 * (1.0 - y / 72.0 * (1.0 - y / 110.0
              * (1.0 - y / 156.0 * (1.0 - y / 210.0))))))
    ensures 0.0 <= y <= 4.0 ==> 0.0 <= Horner1(y) <= 1.0
  {
    Horner2Is(y);
    hide Horner2;
    if 0.0 <= y <= 4.0 {
      FactorWithin(y, 6.0, Horner2(y));
    }
  }

  lemma SinLowByHorner(x: real)
    ensures SinLow(x) == x * Horner1(x * x)
  {
    Horner1Is(x * x);
    hide Horner1;
  }

  lemma SinLowIsNatural(x: real)
    requires 0.0 <= x <= 2.0
    ensures SinLow(x) >= 0.0
  {
    hide SinLow, Horner1;
    SinLowByHorner(x);
    Products(x, x, 2.0, 2.0);
    Products(0.0, 0.0, x, x);
    Horner1Is(x * x);
    Products(0.0, 0.0, x, Horner1(x * x));
  }

  lemma SineIsNatural(sin: real -> real, pi: real, x: real)
    requires IsSine(sin, pi) && 0.0 <= x <= Part(pi, 2)
    ensures sin(x) >= 0.0
  {
    hide SinLow, SinHigh;
    SinLowIsNatural(x);
    assert Enclosed(sin, x);
  }

  lemma SineAbove(sin: real -> real, pi: real, low: real, x: real)
    requires IsSine(sin, pi) && 0.0 <= low <= x <= Part(pi, 2)
    ensures SinLow(low) <= sin(x)
  {
    hide SinLow, SinHigh;
    assert Enclosed(sin, low);
    assert low == x || sin(low) < sin(x);
  }

  lemma SineBelow(sin: real -> real, pi: real, x: real, high: real)
    requires IsSine(sin, pi) && 0.0 <= x <= high <= Part(pi, 2)
    ensures sin(x) <= SinHigh(high)
  {
    hide SinLow, SinHigh;
    assert Enclosed(sin, high);
    assert high == x || sin(x) < sin(high);
  }

  lemma Products(a: real, b: real, a': real, b': real)
    requires 0.0 <= a <= a' && 0.0 <= b <= b'
    ensures a * b <= a' * b'
  {
    assert a * b <= a' * b;
    assert a' * b <= a' * b';
  }

  /** Except within one unit of the last digit of a transition, the table gives a latitude at least n
      zones exactly if the standard's formula does; at 87 degrees only the formula gives two. */
  lemma TableIsFormula(sin: real -> real, pi: real, lat: real, n: int)
    requires IsSine(sin, pi) && Abs(lat) <= 90.0 && 1 <= n <= 59
    requires n > 2 ==> Abs(Abs(lat) - Transition(n)) >= UNIT
    ensures AtLeast(sin, pi, lat, n) <==> NL(lat) >= n || (n == 2 && Abs(lat) == 87.0)
  {
    hide NL, Transition, Solves, SinLow, SinHigh, IsSine;
    if n == 2 {
      LastTransition(sin, pi, lat);
      NLAtLeast(lat, 2);
    } else if n > 2 {
      NLAtLeast(lat, n);
      if Abs(lat) < Transition(n) {
        BelowTransition(sin, pi, lat, n);
      } else {
        AboveTransition(sin, pi, lat, n);
      }
    }
  }

  lemma LastTransition(sin: real -> real, pi: real, lat: real)
    requires IsSine(sin, pi) && Abs(lat) <= 90.0
    ensures AtLeast(sin, pi, lat, 2) <==> Abs(lat) <= 87.0
    ensures Transition(2) == 87.0
  {
    hide SinLow, SinHigh, Radians, IsSine, Part;
    PiBounds(sin, pi);
    RightAngle(sin, pi);
    var x := 90.0 - Abs(lat);
    Scaled(0.0, 3.0, pi, pi);
    Scaled(3.0, 90.0, pi, pi);
    if x >= 3.0 {
      Scaled(3.0, x, pi, pi);
      Scaled(x, 90.0, pi, pi);
    } else {
      Below(x, 3.0, pi);
      Scaled(0.0, x, pi, pi);
    }
    SineOrders(sin, pi, Radians(x, pi), Radians(3.0, pi));
  }

  lemma PiBounds(sin: real -> real, pi: real)
    requires IsSine(sin, pi)
    ensures 3.0 < PI_LOW < pi < PI_HIGH < 4.0
  {
  }

  lemma RightAngle(sin: real -> real, pi: real)
    requires IsSine(sin, pi)
    ensures sin(Part(pi, 2)) == 1.0 && Radians(90.0, pi) == Part(pi, 2) && Radians(3.0, pi) == Part(pi, 60)
  {
    hide SinLow, SinHigh;
  }

  lemma SineOrders(sin: real -> real, pi: real, x: real, y: real)
    requires IsSine(sin, pi) && 0.0 <= x <= Part(pi, 2) && 0.0 <= y <= Part(pi, 2)
    ensures sin(x) >= sin(y) <==> x >= y
  {
    hide SinLow, SinHigh;
  }

  /** Larger angles by more degrees and a larger pi. */
  lemma Scaled(a: real, b: real, pi: real, pi': real)
    requires 0.0 <= a <= b && 0.0 < pi <= pi'
    ensures 0.0 <= Radians(a, pi) <= Radians(b, pi')
  {
    Products(a, pi, b, pi');
    Products(0.0, 0.0, a, pi);
  }

  lemma Below(a: real, b: real, pi: real)
    requires a < b && pi > 0.0
    ensures Radians(a, pi) < Radians(b, pi)
  {
    assert (b - a) * pi > 0.0;
  }

  lemma Parts(pi: real, pi': real, n: int)
    requires 3.0 < pi <= pi' < 4.0 && 3 <= n
    ensures 0.0 <= Part(pi, n) <= Part(pi', n) <= 4.0 / 3.0
  {
  }

  lemma TransitionRange(n: int)
    requires 3 <= n <= 59
    ensures 10.4 < Transition(n) < 87.0
  {
    TransitionsDescendTo(n, 59);
    TransitionsDescendTo(3, n);
    assert Transition(59) == 10.47047130 && Transition(3) == 86.53536998;
    hide Transition;
  }

  lemma TransitionIs(n: int)
    requires 3 <= n <= 59
    ensures var t := Transition(n);
      && SinHigh(Part(PI_HIGH, n)) * SinHigh(Radians(90.0 - t - UNIT, PI_HIGH)) < SinLow(Part(PI_LOW, 60))
      && SinLow(Part(PI_LOW, n)) * SinLow(Radians(90.0 - t + UNIT, PI_LOW)) > SinHigh(Part(PI_HIGH, 60))
  {
    hide SinLow, SinHigh, Transition;
    TransitionsSolve(n);
  }

  /** Angles of at most 80 degrees are less than a right angle, whatever approximation of pi is used. */
  lemma LessThanRight(sin: real -> real, pi: real)
    requires IsSine(sin, pi)
    ensures Radians(80.0, PI_HIGH) <= Part(pi, 2) <= 2.0 && 4.0 / 3.0 <= Part(pi, 2)
  {
    hide SinLow, SinHigh;
  }

  lemma BelowTransition(sin: real -> real, pi: real, lat: real, n: int)
    requires IsSine(sin, pi) && 3 <= n <= 59 && Abs(lat) <= Transition(n) - UNIT
    ensures AtLeast(sin, pi, lat, n)
  {
    hide SinLow, SinHigh, Transition, Radians, Part, IsSine;
    TransitionIs(n);
    TransitionRange(n);
    PiBounds(sin, pi);
    LessThanRight(sin, pi);
    RightAngle(sin, pi);
    var degrees, x := 90.0 - Transition(n) + UNIT, 90.0 - Abs(lat);
    Scaled(degrees, x, PI_LOW, pi);
    Scaled(x, 90.0, pi, pi);
    Parts(PI_LOW, pi, n);
    Parts(pi, PI_HIGH, 60);
    SineAbove(sin, pi, Part(PI_LOW, n), Part(pi, n));
    SineAbove(sin, pi, Radians(degrees, PI_LOW), Radians(x, pi));
    SineBelow(sin, pi, Part(pi, 60), Part(PI_HIGH, 60));
    Scaled(degrees, 80.0, PI_LOW, PI_HIGH);
    AngleIsSmall(Part(PI_LOW, n), Radians(degrees, PI_LOW));
    Products(SinLow(Part(PI_LOW, n)), SinLow(Radians(degrees, PI_LOW)), sin(Part(pi, n)), sin(Radians(x, pi)));
  }

  lemma AngleIsSmall(x: real, y: real)
    requires 0.0 <= x <= 2.0 && 0.0 <= y <= 2.0
    ensures SinLow(x) >= 0.0 && SinLow(y) >= 0.0
  {
    hide SinLow;
    SinLowIsNatural(x);
    SinLowIsNatural(y);
  }

  lemma AboveTransition(sin: real -> real, pi: real, lat: real, n: int)
    requires IsSine(sin, pi) && 3 <= n <= 59 && Transition(n) + UNIT <= Abs(lat) <= 90.0
    ensures !AtLeast(sin, pi, lat, n)
  {
    hide SinLow, SinHigh, Transition, Radians, Part, IsSine;
    TransitionIs(n);
    TransitionRange(n);
    PiBounds(sin, pi);
    LessThanRight(sin, pi);
    var degrees, x := 90.0 - Transition(n) - UNIT, 90.0 - Abs(lat);
    Scaled(x, degrees, pi, PI_HIGH);
    Scaled(degrees, 80.0, PI_HIGH, PI_HIGH);
    Parts(pi, PI_HIGH, n);
    Parts(PI_LOW, pi, 60);
    SineBelow(sin, pi, Part(pi, n), Part(PI_HIGH, n));
    SineBelow(sin, pi, Radians(x, pi), Radians(degrees, PI_HIGH));
    SineAbove(sin, pi, Part(PI_LOW, 60), Part(pi, 60));
    SineIsNatural(sin, pi, Part(pi, n));
    SineIsNatural(sin, pi, Radians(x, pi));
    Products(sin(Part(pi, n)), sin(Radians(x, pi)), SinHigh(Part(PI_HIGH, n)), SinHigh(Radians(degrees, PI_HIGH)));
  }

  /** At 87 degrees the formula gives two zones and the table one. */
  lemma DiffersAt87(sin: real -> real, pi: real)
    requires IsSine(sin, pi)
    ensures AtLeast(sin, pi, 87.0, 2) && !AtLeast(sin, pi, 87.0, 3) && NL(87.0) == 1
  {
    assert NL(87.0) == 1;
    hide NL, IsSine, AtLeast;
    TransitionRange(3);
    assert Transition(3) == 86.53536998;
    TableIsFormula(sin, pi, 87.0, 2);
    TableIsFormula(sin, pi, 87.0, 3);
  }
}
