/** The encoder of Compact Position Reporting (RTCA DO-260B, Appendix A, section A.1.7) and
    the arithmetic that recovers the zones it drops. */
module CprLattice {
  import opened CprArithmetic
  import opened Division

  /** A circle of latitude or longitude is cut into n zones for airborne messages and 4n for
      surface messages: decoders see only a quarter of the circle. */
  function Span(surface: bool): real {
    if surface then 90.0 else 360.0
  }

  function Cell(n: int, surface: bool): (d: real)
    requires n > 0
    ensures d > 0.0
  {
    Span(surface) / n as real
  }

  /** The standard's encoder for one coordinate: 17 of the 17 (airborne) or 19 (surface) bits
      that say where in its zone the coordinate is. */
  function Encode(v: real, n: int, surface: bool): (y: int)
    requires n > 0
    ensures 0 <= y < SCALE
  {
    var d := 360.0 / n as real;
    var steps := if surface then 4 * SCALE else SCALE;
    Round(steps as real * (ModDouble(v, d) / d)) % SCALE
  }

  /** The point with index a on the grid that splits every cell into 2^17 steps. */
  function Point(cell: real, a: int): real {
    cell * (a as real / SCALE as real)
  }

  /** The index of the grid point nearest to v. */
  function Lattice(v: real, n: int, surface: bool): int
    requires n > 0
  {
    Round(SCALE as real * (v / Cell(n, surface)))
  }

  /** What an encoder means by its message: the grid point nearest to v. */
  function Meant(v: real, n: int, surface: bool): real
    requires n > 0
  {
    Point(Cell(n, surface), Lattice(v, n, surface))
  }

  lemma QuarterCell(v: real, n: int)
    requires n > 0
    ensures v / Cell(n, true) == 4.0 * (v / Cell(n, false))
  {
    var c, d := Cell(n, true), Cell(n, false);
    assert d == 4.0 * c by {
      assert n as real * c == 90.0 && n as real * d == 360.0;
      assert n as real * (d - 4.0 * c) == n as real * d - 4.0 * (n as real * c);
    }
    var x := v / d;
    assert v == d * x;
    assert v == c * (4.0 * x);
    QuotientIs(v, c, 4.0 * x);
  }

  lemma QuotientIs(v: real, c: real, x: real)
    requires c > 0.0 && v == c * x
    ensures v / c == x
  {
    assert c * (v / c - x) == c * (v / c) - c * x;
  }

  /** The standard's formula keeps the low 17 bits of the grid index. */
  lemma EncodeIsLattice(v: real, n: int, surface: bool)
    requires n > 0
    ensures Encode(v, n, surface) == Lattice(v, n, surface) % SCALE
  {
    hide ModDouble, Round;
    var d := Cell(n, false);
    assert d == 360.0 / n as real;
    var q := (v / d).Floor;
    var steps := if surface then 4 * SCALE else SCALE;
    FractionOfZone(v, d, q);
    var x := SCALE as real * (v / Cell(n, surface));
    QuarterCell(v, n);
    assert steps as real * (v / d) == x;
    assert steps as real * (v / d - q as real) == x + (-steps * q) as real;
    RoundOfSum(x, -steps * q);
    var k := if surface then -4 * q else -q;
    assert -steps * q == SCALE * k;
    RemainderOfSum(Round(x), SCALE, k);
  }

  lemma FractionOfZone(v: real, d: real, q: int)
    requires d > 0.0 && q == (v / d).Floor
    ensures ModDouble(v, d) / d == v / d - q as real
  {
    var x := v / d;
    Distribute(d, x, q as real);
    QuotientIs(ModDouble(v, d), d, x - q as real);
  }

  lemma RoundOfSum(x: real, n: int)
    ensures Round(x + n as real) == Round(x) + n
  {
    FloorOfSum(x + 0.5, n);
  }

  /** Encoding moves a coordinate by at most half a step. */
  lemma MeantIsNear(v: real, n: int, surface: bool)
    requires n > 0
    ensures Abs(Meant(v, n, surface) - v) <= Cell(n, surface) / 262144.0
  {
    var c := Cell(n, surface);
    var x := v / c;
    var a := Lattice(v, n, surface);
    var err := a as real / SCALE as real - x;
    assert Abs(a as real - SCALE as real * x) <= 0.5;
    assert Abs(err) <= 1.0 / 262144.0;
    Distribute(c, a as real / SCALE as real, x);
    assert Meant(v, n, surface) - v == c * err;
    ProductBound(c, err, 1.0 / 262144.0);
  }

  lemma ProductBound(c: real, x: real, b: real)
    requires c >= 0.0 && Abs(x) <= b
    ensures Abs(c * x) <= c * b
  {
    assert c * (b - x) >= 0.0 && c * (b + x) >= 0.0;
  }

  /** Going once around the span. */
  lemma PointAround(n: int, surface: bool, a: int, k: int)
    requires n > 0
    ensures Point(Cell(n, surface), a + SCALE * (n * k)) == Point(Cell(n, surface), a) + Span(surface) * k as real
  {
    var c := Cell(n, surface);
    var f := a as real / SCALE as real;
    assert (a + SCALE * (n * k)) as real / SCALE as real == f + (n * k) as real;
    assert c * n as real == Span(surface);
    Distribute(c, f, -((n * k) as real));
    assert (n * k) as real == n as real * k as real;
    Reassociate(c, n as real, k as real);
  }

  lemma Reassociate(x: real, y: real, z: real)
    ensures x * (y * z) == (x * y) * z
  {
  }

  // ---- Zone recovery ----------------------------------------------------------------------

  /** Grid indexes of one coordinate on the grids with n and n - 1 cells. */
  lemma IndexesAgree(n: int, p: real, a0: int, a1: int)
    requires 2 <= n <= 60
    requires Abs(a0 as real - p * n as real) <= 0.5 && Abs(a1 as real - p * (n - 1) as real) <= 0.5
    ensures -65536 < (n - 1) * a0 - n * a1 < 65536
  {
    CrossTerms(n as real, (n - 1) as real, p, a0 as real, a1 as real);
    ProductOfInts(n - 1, a0);
    ProductOfInts(n, a1);
  }

  lemma ProductOfInts(a: int, b: int)
    ensures (a * b) as real == a as real * b as real
  {
  }

  lemma CrossTerms(r: real, s: real, p: real, x: real, y: real)
    requires 0.0 <= r <= 60.0 && 0.0 <= s <= 60.0
    requires Abs(x - p * r) <= 0.5 && Abs(y - p * s) <= 0.5
    ensures Abs(s * x - r * y) <= 60.0
  {
    var d, e := x - p * r, y - p * s;
    Crossed(r, s, p, x, y, d, e);
    WeightedErrors(r, s, d, e);
  }

  lemma Crossed(r: real, s: real, p: real, x: real, y: real, d: real, e: real)
    requires d == x - p * r && e == y - p * s
    ensures s * x - r * y == s * d - r * e
  {
    Distribute(s, x, p * r);
    Distribute(r, y, p * s);
    assert s * (p * r) == r * (p * s);
  }

  lemma WeightedErrors(r: real, s: real, d: real, e: real)
    requires 0.0 <= r <= 60.0 && 0.0 <= s <= 60.0
    requires Abs(d) <= 0.5 && Abs(e) <= 0.5
    ensures Abs(s * d - r * e) <= 60.0
  {
    ProductBound(s, d, 0.5);
    ProductBound(r, e, 0.5);
  }

  /** The index both decoders compute from the two fractions. */
  function ZoneIndex(n: int, y0: int, y1: int): int {
    (((n - 1) * y0 - n * y1) as real / SCALE as real + 0.5).Floor
  }

  /** The two fractions determine both zone numbers modulo n and n - 1, as in the Chinese
      remainder theorem, whatever the rounding of the two encodings. */
  lemma ZoneRecovery(n: int, a0: int, a1: int)
    requires 2 <= n
    requires -65536 < (n - 1) * a0 - n * a1 < 65536
    ensures var j := ZoneIndex(n, a0 % SCALE, a1 % SCALE);
      ModInt(j, n) == (a0 / SCALE) % n && ModInt(j, n - 1) == (a1 / SCALE) % (n - 1)
  {
    var y0, y1, z0, z1 := a0 % SCALE, a1 % SCALE, a0 / SCALE, a1 / SCALE;
    var e := (n - 1) * a0 - n * a1;
    var t := n * z1 - (n - 1) * z0;
    hide ModInt;
    Scaled(n - 1, a0);
    Scaled(n, a1);
    SmallError(e, t);
    TwoRemainders(n, z0, z1);
  }

  lemma Scaled(m: int, a: int)
    ensures m * a == m * (a % SCALE) + SCALE * (m * (a / SCALE))
  {
    var y, z := a % SCALE, a / SCALE;
    assert a == y + SCALE * z;
    assert m * (y + SCALE * z) == m * y + m * (SCALE * z);
    assert m * (SCALE * z) == SCALE * (m * z);
  }

  lemma TwoRemainders(n: int, z0: int, z1: int)
    requires 2 <= n
    ensures var t := n * z1 - (n - 1) * z0;
      ModInt(t, n) == z0 % n && ModInt(t, n - 1) == z1 % (n - 1)
  {
    var t, d := n * z1 - (n - 1) * z0, z1 - z0;
    assert t == z0 + n * d;
    assert t == z1 + (n - 1) * d;
    RemainderOfSum(z0, n, d);
    RemainderOfSum(z1, n - 1, d);
  }

  lemma SmallError(e: int, t: int)
    requires -65536 < e < 65536
    ensures ((e + SCALE * t) as real / SCALE as real + 0.5).Floor == t
  {
    FloorIs((e + SCALE * t) as real / SCALE as real + 0.5, t);
  }

  /** Encoding one coordinate with n and with n - 1 zones. */
  lemma EncodedIndexes(v: real, n: int, surface: bool)
    requires 2 <= n <= 60
    ensures var a0, a1 := Lattice(v, n, surface), Lattice(v, n - 1, surface);
      -65536 < (n - 1) * a0 - n * a1 < 65536
  {
    hide Lattice;
    var p := SCALE as real * (v / Span(surface));
    LatticeIsNear(v, n, surface);
    LatticeIsNear(v, n - 1, surface);
    IndexesAgree(n, p, Lattice(v, n, surface), Lattice(v, n - 1, surface));
  }

  lemma LatticeIsNear(v: real, n: int, surface: bool)
    requires n > 0
    ensures Abs(Lattice(v, n, surface) as real - SCALE as real * (v / Span(surface)) * n as real) <= 0.5
  {
    hide Round, Cell;
    CellsPerSpan(v, n, surface);
    Reassociate(SCALE as real, v / Span(surface), n as real);
  }

  lemma CellsPerSpan(v: real, n: int, surface: bool)
    requires n > 0
    ensures v / Cell(n, surface) == v / Span(surface) * n as real
  {
    var w, c := Span(surface), Cell(n, surface);
    var u := v / w;
    assert v == w * u && w == c * n as real;
    Reassociate(c, n as real, u);
    QuotientIs(v, c, u * n as real);
  }
}
