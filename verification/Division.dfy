/** Integer division by a positive number. */
module Division {
  /** Quotient and remainder are unique. */
  lemma RemainderIs(a: int, b: int, q: int, r: int)
    requires b > 0 && 0 <= r < b && a == b * q + r
    ensures a % b == r && a / b == q
  {
    SameQuotient(b, q - a / b, a % b - r);
  }

  lemma SameQuotient(b: int, d: int, r: int)
    requires -b < r < b && b * d == r
    ensures d == 0
  {
    if d > 0 {
      AtLeast(b, d);
    } else if d < 0 {
      AtLeast(b, -d);
    }
  }

  lemma AtLeast(b: int, d: int)
    requires b >= 0 && d >= 1
    ensures b * d >= b
  {
    assert b * (d - 1) >= 0;
  }

  /** A multiple of the modulus does not change the remainder. */
  lemma RemainderOfSum(a: int, b: int, k: int)
    requires b > 0
    ensures (a + b * k) % b == a % b
  {
    assert a + b * k == b * (a / b + k) + a % b;
    RemainderIs(a + b * k, b, a / b + k, a % b);
  }

  lemma Halved(x: nat, e: nat)
    requires e <= 1
    ensures (2 * x + e) / 2 == x && (2 * x + e) % 2 == e
  {
  }

  /** Division by powers of two, one bit at a time. */
  lemma RepeatedHalves(n: nat)
    ensures n / 4 == n / 2 / 2 && n / 8 == n / 4 / 2 && n / 16 == n / 8 / 2 && n / 32 == n / 16 / 2
  {
  }
}
