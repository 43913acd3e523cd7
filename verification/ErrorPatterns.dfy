/** Error patterns: which bits of a message were inverted, listed in increasing order.
    Their syndromes, their enumeration in the order of `prepareSubtable`, and how many
    there are. Everything is parametric in the message length and the error count. */
module ErrorPatterns {
  import opened Bits
  import opened Polynomial
  import opened Checksum
  import opened Division

  predicate Increasing(p: seq<nat>) {
    forall i, j :: 0 <= i < j < |p| ==> p[i] < p[j]
  }

  predicate Within(p: seq<nat>, lo: nat, hi: nat) {
    forall i :: 0 <= i < |p| ==> lo <= p[i] < hi
  }

  /** p lists distinct bits of a message of `bits` bits, in increasing order. */
  predicate IsPattern(p: seq<nat>, bits: nat) {
    Increasing(p) && Within(p, 0, bits)
  }

  /** The sum of the single-bit syndromes of p. */
  function Syndrome(p: seq<nat>, bits: nat): bv24 {
    if p == [] then 0
    else Add(Syndrome(p[..|p| - 1], bits), BitSyndrome(p[|p| - 1], bits))
  }

  /** The message with every bit of p inverted. */
  function Flips(msg: seq<bv8>, p: seq<nat>): (r: seq<bv8>)
    requires Within(p, 0, 8 * |msg|)
    ensures |r| == |msg|
  {
    if p == [] then msg else FlipBit(Flips(msg, p[..|p| - 1]), p[|p| - 1])
  }

  /** Errors add their syndrome to the checksum. */
  lemma {:induction false} ParityOfFlips(msg: seq<bv8>, p: seq<nat>)
    requires Within(p, 0, 8 * |msg|)
    ensures Parity(Flips(msg, p)) == Add(Parity(msg), Syndrome(p, 8 * |msg|))
  {
    hide Add, Parity, BitSyndrome;
    if p == [] {
      AddIdentities(Parity(msg));
    } else {
      var q, k := p[..|p| - 1], p[|p| - 1];
      ParityOfFlips(msg, q);
      ParityOfFlip(Flips(msg, q), k);
      AddAssociates(Parity(msg), Syndrome(q, 8 * |msg|), BitSyndrome(k, 8 * |msg|));
    }
  }

  /** Exactly the bits of p change. */
  lemma {:induction false} BitOfFlips(msg: seq<bv8>, p: seq<nat>, j: nat)
    requires IsPattern(p, 8 * |msg|) && j < 8 * |msg|
    ensures Bit(Flips(msg, p), j) == (Bit(msg, j) != (j in p))
  {
    if p != [] {
      var q, k := p[..|p| - 1], p[|p| - 1];
      BitOfFlips(msg, q, j);
      FlipBitAt(Flips(msg, q), k, j);
      assert p == q + [k];
    }
  }

  lemma FlipsTwice(msg: seq<bv8>, p: seq<nat>)
    requires IsPattern(p, 8 * |msg|)
    ensures Flips(Flips(msg, p), p) == msg
  {
    forall j: nat | j < 8 * |msg| ensures Bit(Flips(Flips(msg, p), p), j) == Bit(msg, j) {
      BitOfFlips(Flips(msg, p), p, j);
      BitOfFlips(msg, p, j);
    }
    MessageExtensionality(Flips(Flips(msg, p), p), msg);
  }

  // ---- Enumeration ------------------------------------------------------------------

  /** All ways to extend `base` by 1 to `left` further bits taken in increasing order from
      lo..hi, in the order in which prepareSubtable meets them. */
  function Subsets(base: seq<nat>, lo: nat, hi: nat, left: nat): seq<seq<nat>>
    decreases if lo < hi then hi - lo else 0
  {
    if left == 0 || lo >= hi then []
    else [base + [lo]] + Subsets(base + [lo], lo + 1, hi, left - 1) + Subsets(base, lo + 1, hi, left)
  }

  predicate Extends(p: seq<nat>, base: seq<nat>, lo: nat, hi: nat, left: nat) {
    && base <= p
    && |base| < |p| <= |base| + left
    && Increasing(p[|base|..])
    && Within(p[|base|..], lo, hi)
  }

  lemma EmptyRange(p: seq<nat>, base: seq<nat>, lo: nat, hi: nat, left: nat)
    requires Extends(p, base, lo, hi, left)
    ensures lo < hi
  {
    var first := p[|base|..][0];
  }

  /** The enumeration is complete and sound. */
  lemma {:induction false} SubsetsMembers(base: seq<nat>, lo: nat, hi: nat, left: nat, p: seq<nat>)
    ensures p in Subsets(base, lo, hi, left) <==> Extends(p, base, lo, hi, left)
    decreases if lo < hi then hi - lo else 0
  {
    if left == 0 {
    } else if lo >= hi {
      if Extends(p, base, lo, hi, left) {
        EmptyRange(p, base, lo, hi, left);
      }
    } else {
      SubsetsMembers(base + [lo], lo + 1, hi, left - 1, p);
      SubsetsMembers(base, lo + 1, hi, left, p);
      var n := |base|;
      if Extends(p, base, lo, hi, left) {
        var q := p[n..];
        if q[0] == lo {
          assert p == base + q;
          if |q| > 1 {
            assert base + [lo] <= p;
            assert p[n + 1..] == q[1..];
            assert Within(q[1..], lo + 1, hi);
            assert Extends(p, base + [lo], lo + 1, hi, left - 1);
          } else {
            assert p == base + [lo];
          }
        } else {
          assert Within(q, lo + 1, hi);
        }
      }
      if p == base + [lo] {
        assert p[n..] == [lo];
      }
      if Extends(p, base + [lo], lo + 1, hi, left - 1) {
        assert p[n] == lo;
        assert p[n..] == [lo] + p[n + 1..];
      }
    }
  }

  lemma FirstChoice(base: seq<nat>, lo: nat, hi: nat, left: nat, k: nat)
    requires k < |Subsets(base, lo, hi, left)|
    ensures var p := Subsets(base, lo, hi, left)[k];
      |base| < |p| && base <= p && lo <= p[|base|]
  {
    var p := Subsets(base, lo, hi, left)[k];
    SubsetsMembers(base, lo, hi, left, p);
    assert p[|base|..][0] == p[|base|];
  }

  /** The enumeration never repeats a pattern. */
  lemma {:induction false} SubsetsDistinct(base: seq<nat>, lo: nat, hi: nat, left: nat, i: nat, j: nat)
    requires i < j < |Subsets(base, lo, hi, left)|
    ensures Subsets(base, lo, hi, left)[i] != Subsets(base, lo, hi, left)[j]
    decreases if lo < hi then hi - lo else 0
  {
    var a := Subsets(base + [lo], lo + 1, hi, left - 1);
    var b := Subsets(base, lo + 1, hi, left);
    var s := [base + [lo]] + a + b;
    assert Subsets(base, lo, hi, left) == s;
    hide Subsets;
    var m := 1 + |a|;
    if m <= j {
      assert s[j] == b[j - m];
      FirstChoice(base, lo + 1, hi, left, j - m);
      if m <= i {
        SubsetsDistinct(base, lo + 1, hi, left, i - m, j - m);
      } else if i > 0 {
        assert s[i] == a[i - 1];
        FirstChoice(base + [lo], lo + 1, hi, left - 1, i - 1);
      }
    } else {
      assert s[j] == a[j - 1];
      if i > 0 {
        SubsetsDistinct(base + [lo], lo + 1, hi, left - 1, i - 1, j - 1);
      } else {
        FirstChoice(base + [lo], lo + 1, hi, left - 1, j - 1);
      }
    }
  }

  // ---- Counting ---------------------------------------------------------------------

  /** The number of ways to choose k of n items, by Pascal's rule. */
  function Binomial(n: nat, k: nat): nat {
    if k == 0 then 1 else if n == 0 then 0 else Binomial(n - 1, k - 1) + Binomial(n - 1, k)
  }

  function BinomialSum(n: nat, k: nat): nat {
    if k == 0 then 0 else BinomialSum(n, k - 1) + Binomial(n, k)
  }

  lemma {:induction false} BinomialSumStep(n: nat, k: nat)
    requires n > 0 && k > 0
    ensures BinomialSum(n, k) == 1 + BinomialSum(n - 1, k - 1) + BinomialSum(n - 1, k)
    decreases k
  {
    assert Binomial(n, k) == Binomial(n - 1, k - 1) + Binomial(n - 1, k);
    if k == 1 {
      assert BinomialSum(n, 1) == BinomialSum(n, 0) + Binomial(n, 1);
      assert BinomialSum(n - 1, 1) == BinomialSum(n - 1, 0) + Binomial(n - 1, 1);
      assert Binomial(n - 1, 0) == 1;
    } else {
      BinomialSumStep(n, k - 1);
    }
  }

  lemma {:induction false} BinomialSumOfNothing(k: nat)
    ensures BinomialSum(0, k) == 0
  {
    if k > 0 {
      BinomialSumOfNothing(k - 1);
    }
  }

  /** As many patterns as the binomial coefficients predict. */
  lemma {:induction false} SubsetsCount(base: seq<nat>, lo: nat, hi: nat, left: nat)
    requires lo <= hi
    ensures |Subsets(base, lo, hi, left)| == BinomialSum(hi - lo, left)
    decreases hi - lo
  {
    if left > 0 {
      if lo == hi {
        BinomialSumOfNothing(left);
      } else {
        SubsetsCount(base + [lo], lo + 1, hi, left - 1);
        SubsetsCount(base, lo + 1, hi, left);
        BinomialSumStep(hi - lo, left);
      }
    }
  }

  lemma {:induction false} BinomialTooMany(n: nat, k: nat)
    requires k > n
    ensures Binomial(n, k) == 0
  {
    if n > 0 {
      BinomialTooMany(n - 1, k - 1);
      BinomialTooMany(n - 1, k);
    }
  }

  lemma {:induction false} BinomialAll(n: nat)
    ensures Binomial(n, n) == 1
  {
    if n > 0 {
      BinomialAll(n - 1);
      BinomialTooMany(n - 1, n);
    }
  }

  /** Why the running division in `combinations` is exact at every step. */
  lemma {:induction false} BinomialStep(n: nat, k: nat)
    requires 0 < k <= n
    ensures Binomial(n, k) * k == Binomial(n, k - 1) * (n + 1 - k)
    decreases n
  {
    if k < n {
      BinomialStep(n - 1, k);
    } else {
      BinomialAll(n);
      BinomialTooMany(n - 1, n);
    }
    if k > 1 {
      BinomialStep(n - 1, k - 1);
      var a, b, c := Binomial(n - 1, k), Binomial(n - 1, k - 1), Binomial(n - 1, k - 2);
      BinomialStepArithmetic(a, b, c, n, k);
    }
  }

  lemma BinomialStepArithmetic(a: int, b: int, c: int, n: int, k: int)
    requires a * k == b * (n - k)
    requires b * (k - 1) == c * (n + 1 - k)
    ensures (b + a) * k == (c + b) * (n + 1 - k)
  {
  }

  /** (n k), with a running product divided at every step. */
  method Combinations(n: nat, k: nat) returns (result: nat)
    ensures result == Binomial(n, k)
  {
    if k == 0 || k == n {
      BinomialAll(n);
      return 1;
    }
    if k > n {
      BinomialTooMany(n, k);
      return 0;
    }
    result := 1;
    var m := n;
    for i := 1 to k + 1
      invariant m == n + 1 - i
      invariant result == Binomial(n, i - 1)
    {
      BinomialStep(n, i);
      ExactDivision(Binomial(n, i), i, result * m);
      result := result * m / i;
      m := m - 1;
    }
  }

  lemma ExactDivision(q: nat, d: nat, x: nat)
    requires d > 0 && q * d == x
    ensures x / d == q && x % d == 0
  {
    RemainderIs(x, d, q, 0);
  }
}
