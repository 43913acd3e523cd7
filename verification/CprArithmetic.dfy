/** Rounding and remainders, as Compact Position Reporting uses them. */
module CprArithmetic {
  import opened Division

  /** 17 bits of a cell. */
  const SCALE: int := 131072

  /** C's `%`, which truncates. */
  function Rem(a: int, b: int): int
    requires b > 0
  {
    if a >= 0 then a % b else -((-a) % b)
  }

  /** cprModInt */
  function ModInt(a: int, b: int): (r: int)
    requires b > 0
    ensures r == a % b
  {
    var res := Rem(a, b);
    var r := if res < 0 then res + b else res;
    ModIntIsEuclidean(a, b, r);
    r
  }

  lemma ModIntIsEuclidean(a: int, b: int, r: int)
    requires b > 0 && r == if Rem(a, b) < 0 then Rem(a, b) + b else Rem(a, b)
    ensures r == a % b
  {
    if a < 0 {
      var q := (-a) / b;
      assert -a == b * q + (-a) % b;
      if (-a) % b == 0 {
        RemainderIs(a, b, -q, 0);
      } else {
        assert b * (-q - 1) == -(b * q) - b;
        RemainderIs(a, b, -q - 1, r);
      }
    }
  }

  function Abs(x: real): real {
    if x < 0.0 then -x else x
  }

  lemma FloorIs(x: real, n: int)
    requires n as real <= x < n as real + 1.0
    ensures x.Floor == n
  {
  }

  lemma FloorOfSum(x: real, n: int)
    ensures (x + n as real).Floor == x.Floor + n
  {
    FloorIs(x + n as real, x.Floor + n);
  }

  function Round(x: real): (n: int)
    ensures Abs(n as real - x) <= 0.5
  {
    (x + 0.5).Floor
  }

  /** Rounding never leaves an interval with integer ends. */
  lemma RoundWithin(x: real, lo: int, hi: int)
    requires lo as real <= x <= hi as real
    ensures lo <= Round(x) <= hi
  {
  }

  /** Truncation toward zero, as in a cast or fmod. */
  function Trunc(x: real): int {
    if x >= 0.0 then x.Floor else -(-x).Floor
  }

  /** cprModDouble: fmod, made positive. */
  function ModDouble(a: real, b: real): (r: real)
    requires b > 0.0
    ensures r == a - b * (a / b).Floor as real
    ensures 0.0 <= r < b
  {
    var res := a - b * Trunc(a / b) as real;
    var r := if res < 0.0 then res + b else res;
    ModDoubleIsFloored(a, b, r);
    r
  }

  lemma ModDoubleIsFloored(a: real, b: real, r: real)
    requires b > 0.0
    requires var res := a - b * Trunc(a / b) as real; r == if res < 0.0 then res + b else res
    ensures r == a - b * (a / b).Floor as real && 0.0 <= r < b
  {
    var q := a / b;
    var f, t := q.Floor, Trunc(q);
    FlooredWithin(a, b);
    TruncOrFloor(q);
    if t != f {
      Distribute(b, f as real, -1.0);
      assert a - b * t as real == a - b * f as real - b;
    }
  }

  lemma TruncOrFloor(q: real)
    ensures Trunc(q) == q.Floor || Trunc(q) as real == q.Floor as real + 1.0
  {
  }

  /** What is left above the greatest multiple of b below a. */
  lemma FlooredWithin(a: real, b: real)
    requires b > 0.0
    ensures 0.0 <= a - b * (a / b).Floor as real < b
  {
    LeftWithin(a, b, a / b, (a / b).Floor as real, a - b * (a / b).Floor as real);
  }

  lemma LeftWithin(a: real, b: real, q: real, f: real, left: real)
    requires b > 0.0 && b * q == a && f <= q < f + 1.0 && left == a - b * f
    ensures 0.0 <= left < b
  {
    var x := q - f;
    ProductWithin(b, x);
    assert left == b * x;
  }

  lemma Distribute(b: real, x: real, y: real)
    ensures b * (x - y) == b * x - b * y
  {
  }

  lemma NegativeProduct(b: real, x: real)
    requires b > 0.0 && x > 0.0
    ensures b * -x < 0.0
  {
    assert b * x > 0.0;
  }

  lemma ProductWithin(b: real, x: real)
    requires b > 0.0 && 0.0 <= x < 1.0
    ensures 0.0 <= b * x < b
  {
    assert b * x == b - b * (1.0 - x);
    assert b * (1.0 - x) > 0.0;
  }
}
