/** Arithmetic on bit strings read as polynomials over GF(2), modulo the 24-bit
    Mode S generator. `LongDivision` is the schoolbook definition of the remainder;
    everything else is proved equal to it or about it. */
module Polynomial {

  /** MODES_GENERATOR_POLY: the generator without its leading x^24 term. */
  const GENERATOR: bv24 := 0xfff409

  /** Exclusive or of two bit strings of equal length. */
  function Xor(a: seq<bool>, b: seq<bool>): (r: seq<bool>)
    requires |a| == |b|
    ensures |r| == |a|
  {
    seq(|a|, i requires 0 <= i < |a| => a[i] != b[i])
  }

  function Zeros(n: nat): (r: seq<bool>)
    ensures |r| == n
  {
    seq(n, _ => false)
  }

  /** The 25 coefficients of the generator, from x^24 down:
      x^24 + x^23 + ... + x^12 + x^10 + x^3 + 1. */
  function GeneratorBits(): (r: seq<bool>)
    ensures |r| == 25
  {
    [true, true, true, true] + [true, true, true, true] + [true, true, true, true]
    + [true, false, true, false] + [false, false, false, false] + [false, true, false, false]
    + [true]
  }

  /** The remainder of `s` on division by the generator, by schoolbook long division:
      while more than 24 coefficients remain, cancel the leading one. */
  function LongDivision(s: seq<bool>): (r: seq<bool>)
    ensures |r| == if |s| <= 24 then |s| else 24
    decreases |s|
  {
    if |s| <= 24 then s
    else if s[0] then LongDivision(Xor(s[..25], GeneratorBits())[1..] + s[25..])
    else LongDivision(s[1..])
  }

  /** Addition of remainders, which is also subtraction. */
  function Add(a: bv24, b: bv24): bv24 {
    a ^ b
  }

  predicate Leading(r: bv24) {
    r & 0x800000 != 0
  }

  function ShiftLeft(r: bv24): bv24 {
    r << 1
  }

  /** r * x modulo the generator, for a 24-bit remainder r. */
  function TimesX(r: bv24): bv24 {
    if Leading(r) then Add(ShiftLeft(r), GENERATOR) else ShiftLeft(r)
  }

  /** r * x^n modulo the generator. */
  function Shift(r: bv24, n: nat): bv24 {
    if n == 0 then r else TimesX(Shift(r, n - 1))
  }

  function Coefficient(b: bool): bv24 {
    if b then 1 else 0
  }

  /** The remainder after reading the bits of s, starting from remainder r. */
  function Feed(r: bv24, s: seq<bool>): bv24 {
    if |s| == 0 then r else Add(TimesX(Feed(r, s[..|s| - 1])), Coefficient(s[|s| - 1]))
  }

  /** The remainder of the polynomial s. */
  function Remainder(s: seq<bool>): bv24 {
    Feed(0, s)
  }

  lemma AddAssociates(a: bv24, b: bv24, c: bv24)
    ensures Add(Add(a, b), c) == Add(a, Add(b, c))
  {
  }

  lemma AddCommutes(a: bv24, b: bv24)
    ensures Add(a, b) == Add(b, a)
  {
  }

  lemma AddIdentities(a: bv24)
    ensures Add(a, 0) == a && Add(0, a) == a && Add(a, a) == 0
  {
  }

  lemma AddExchange(a: bv24, b: bv24, c: bv24, d: bv24)
    ensures Add(Add(a, b), Add(c, d)) == Add(Add(a, c), Add(b, d))
  {
    hide Add;
    AddAssociates(Add(a, b), c, d);
    AddRotate(a, b, c);
    AddAssociates(Add(a, c), b, d);
  }

  lemma AddRotate(a: bv24, b: bv24, c: bv24)
    ensures Add(Add(a, b), c) == Add(Add(a, c), b)
  {
    hide Add;
    AddAssociates(a, b, c);
    AddCommutes(b, c);
    AddAssociates(a, c, b);
  }

  lemma ShiftLeftLinear(x: bv24, y: bv24)
    ensures ShiftLeft(Add(x, y)) == Add(ShiftLeft(x), ShiftLeft(y))
  {
  }

  lemma LeadingOfSum(x: bv24, y: bv24)
    ensures Leading(Add(x, y)) <==> Leading(x) != Leading(y)
  {
  }

  lemma TimesXLinear(x: bv24, y: bv24)
    ensures TimesX(Add(x, y)) == Add(TimesX(x), TimesX(y))
  {
    hide Add, Leading, ShiftLeft;
    ShiftLeftLinear(x, y);
    LeadingOfSum(x, y);
    var u, v := ShiftLeft(x), ShiftLeft(y);
    AddAssociates(u, v, GENERATOR);
    AddRotate(u, v, GENERATOR);
    AddExchange(u, GENERATOR, v, GENERATOR);
    AddIdentities(GENERATOR);
    AddIdentities(Add(u, v));
  }

  lemma {:induction false} ShiftLinear(x: bv24, y: bv24, n: nat)
    ensures Shift(Add(x, y), n) == Add(Shift(x, n), Shift(y, n))
  {
    hide Add, TimesX;
    if n > 0 {
      ShiftLinear(x, y, n - 1);
      TimesXLinear(Shift(x, n - 1), Shift(y, n - 1));
    }
  }

  lemma {:induction false} ShiftZero(n: nat)
    ensures Shift(0, n) == 0
  {
    if n > 0 {
      ShiftZero(n - 1);
    }
  }

  lemma {:induction false} ShiftAdd(r: bv24, m: nat, n: nat)
    ensures Shift(Shift(r, m), n) == Shift(r, m + n)
  {
    hide Add, TimesX;
    if n > 0 {
      ShiftAdd(r, m, n - 1);
    }
  }

  lemma {:induction false} FeedAppend(r: bv24, s: seq<bool>, t: seq<bool>)
    ensures Feed(r, s + t) == Feed(Feed(r, s), t)
    decreases |t|
  {
    hide Add, TimesX, Coefficient;
    if |t| == 0 {
      assert s + t == s;
    } else {
      assert (s + t)[..|s + t| - 1] == s + t[..|t| - 1];
      FeedAppend(r, s, t[..|t| - 1]);
    }
  }

  /** Reading n bits multiplies what was there by x^n and adds what was read. */
  lemma {:induction false} FeedSplit(r: bv24, s: seq<bool>)
    ensures Feed(r, s) == Add(Shift(r, |s|), Feed(0, s))
    decreases |s|
  {
    hide Add, TimesX, Coefficient;
    if |s| == 0 {
      AddIdentities(r);
    } else {
      var t := s[..|s| - 1];
      FeedSplit(r, t);
      TimesXLinear(Shift(r, |t|), Feed(0, t));
      AddAssociates(TimesX(Shift(r, |t|)), TimesX(Feed(0, t)), Coefficient(s[|s| - 1]));
    }
  }

  lemma {:induction false} FeedZeros(s: seq<bool>)
    requires forall i :: 0 <= i < |s| ==> !s[i]
    ensures Feed(0, s) == 0
    decreases |s|
  {
    if |s| > 0 {
      FeedZeros(s[..|s| - 1]);
    }
  }

  lemma CoefficientLinear(a: bool, b: bool)
    ensures Coefficient(a != b) == Add(Coefficient(a), Coefficient(b))
  {
  }

  /** The remainder is linear. */
  lemma {:induction false} RemainderXor(a: seq<bool>, b: seq<bool>)
    requires |a| == |b|
    ensures Remainder(Xor(a, b)) == Add(Remainder(a), Remainder(b))
    decreases |a|
  {
    if |a| == 0 {
      AddIdentities(0);
    } else {
      hide Add, TimesX, Coefficient;
      var n := |a| - 1;
      assert Xor(a, b)[..n] == Xor(a[..n], b[..n]);
      RemainderXor(a[..n], b[..n]);
      TimesXLinear(Remainder(a[..n]), Remainder(b[..n]));
      CoefficientLinear(a[n], b[n]);
      AddExchange(TimesX(Remainder(a[..n])), TimesX(Remainder(b[..n])), Coefficient(a[n]), Coefficient(b[n]));
    }
  }

  /** Inverting coefficient k adds x^(n - 1 - k). */
  lemma {:induction false} RemainderOfFlip(s: seq<bool>, k: nat)
    requires k < |s|
    ensures Remainder(s[k := !s[k]]) == Add(Remainder(s), Shift(1, |s| - 1 - k))
    decreases |s|
  {
    hide Add, TimesX, Coefficient;
    var n := |s| - 1;
    var f := s[k := !s[k]];
    if k == n {
      assert f[..n] == s[..n];
      CoefficientLinear(s[n], true);
      assert Coefficient(true) == 1 by { CoefficientOfTrue(); }
      AddAssociates(TimesX(Feed(0, s[..n])), Coefficient(s[n]), 1);
    } else {
      assert f[..n] == s[..n][k := !s[..n][k]];
      RemainderOfFlip(s[..n], k);
      TimesXLinear(Remainder(s[..n]), Shift(1, n - 1 - k));
      AddRotate(TimesX(Remainder(s[..n])), TimesX(Shift(1, n - 1 - k)), Coefficient(s[n]));
    }
  }

  lemma CoefficientOfTrue()
    ensures Coefficient(true) == 1
  {
  }

  /** Leading zero coefficients do not matter. */
  lemma RemainderIgnoresLeadingZeros(z: seq<bool>, s: seq<bool>)
    requires forall i :: 0 <= i < |z| ==> !z[i]
    ensures Remainder(z + s) == Remainder(s)
  {
    FeedAppend(0, z, s);
    FeedZeros(z);
  }

  /** The number whose binary digits are s, for at most 24 digits. */
  function Value(s: seq<bool>): bv24 {
    if |s| == 0 then 0 else Add(ShiftLeft(Value(s[..|s| - 1])), Coefficient(s[|s| - 1]))
  }

  /** r * x^n without reduction. */
  function ShiftLeftBy(r: bv24, n: nat): bv24 {
    if n == 0 then r else ShiftLeft(ShiftLeftBy(r, n - 1))
  }

  lemma {:induction false} ShiftLeftByLinear(x: bv24, y: bv24, n: nat)
    ensures ShiftLeftBy(Add(x, y), n) == Add(ShiftLeftBy(x, n), ShiftLeftBy(y, n))
  {
    hide Add, ShiftLeft;
    if n > 0 {
      ShiftLeftByLinear(x, y, n - 1);
      ShiftLeftLinear(ShiftLeftBy(x, n - 1), ShiftLeftBy(y, n - 1));
    }
  }

  lemma {:induction false} ShiftLeftByMore(r: bv24, n: nat)
    ensures ShiftLeftBy(ShiftLeft(r), n) == ShiftLeftBy(r, n + 1)
  {
    hide ShiftLeft;
    if n > 0 {
      ShiftLeftByMore(r, n - 1);
    }
  }

  lemma PowersOfX()
    ensures ShiftLeftBy(1, 0) == 0x000001 && ShiftLeftBy(1, 1) == 0x000002
    ensures ShiftLeftBy(1, 2) == 0x000004 && ShiftLeftBy(1, 3) == 0x000008
    ensures ShiftLeftBy(1, 4) == 0x000010 && ShiftLeftBy(1, 5) == 0x000020
    ensures ShiftLeftBy(1, 6) == 0x000040 && ShiftLeftBy(1, 7) == 0x000080
    ensures ShiftLeftBy(1, 8) == 0x000100 && ShiftLeftBy(1, 9) == 0x000200
    ensures ShiftLeftBy(1, 10) == 0x000400 && ShiftLeftBy(1, 11) == 0x000800
    ensures ShiftLeftBy(1, 12) == 0x001000 && ShiftLeftBy(1, 13) == 0x002000
    ensures ShiftLeftBy(1, 14) == 0x004000 && ShiftLeftBy(1, 15) == 0x008000
    ensures ShiftLeftBy(1, 16) == 0x010000 && ShiftLeftBy(1, 17) == 0x020000
    ensures ShiftLeftBy(1, 18) == 0x040000 && ShiftLeftBy(1, 19) == 0x080000
    ensures ShiftLeftBy(1, 20) == 0x100000 && ShiftLeftBy(1, 21) == 0x200000
    ensures ShiftLeftBy(1, 22) == 0x400000
  {
  }

  lemma ShiftedDigit(b: bool, n: nat)
    requires n <= 22
    ensures !Leading(ShiftLeftBy(Coefficient(b), n))
  {
    if b {
      PowersOfX();
    } else {
      ShiftLeftByZero(n);
    }
  }

  /** A number of at most 23 - n digits can be shifted n times without reaching x^23. */
  lemma {:induction false} ValueFits(s: seq<bool>, n: nat)
    requires |s| + n <= 23
    ensures !Leading(ShiftLeftBy(Value(s), n))
    decreases |s|
  {
    if |s| == 0 {
      assert Value(s) == ShiftLeftBy(0, 0);
      ShiftLeftByZero(n);
    } else {
      hide Add, ShiftLeft, Coefficient, Leading;
      var t, b := s[..|s| - 1], s[|s| - 1];
      ValueFits(t, n + 1);
      ShiftLeftByMore(Value(t), n);
      ShiftLeftByLinear(ShiftLeft(Value(t)), Coefficient(b), n);
      ShiftedDigit(b, n);
      LeadingOfSum(ShiftLeftBy(Value(t), n + 1), ShiftLeftBy(Coefficient(b), n));
    }
  }

  lemma {:induction false} ShiftLeftByZero(n: nat)
    ensures ShiftLeftBy(0, n) == 0
  {
    if n > 0 {
      ShiftLeftByZero(n - 1);
    }
  }

  /** Fewer than 25 coefficients are their own remainder. */
  lemma {:induction false} ShortRemainder(s: seq<bool>)
    requires |s| <= 24
    ensures Remainder(s) == Value(s)
  {
    if |s| > 0 {
      hide Add, ShiftLeft, Leading, Coefficient;
      var t := s[..|s| - 1];
      ShortRemainder(t);
      ValueFits(t, 0);
    }
  }

  /** Eight bits at a time. */
  function Step(r: bv24, b: bool): bv24 {
    Add(TimesX(r), Coefficient(b))
  }

  lemma FeedFour(r: bv24, s: seq<bool>)
    requires |s| == 4
    ensures Feed(r, s) == Step(Step(Step(Step(r, s[0]), s[1]), s[2]), s[3])
  {
    hide Add, TimesX, Coefficient;
    assert s[..3][..2] == s[..2] && s[..2][..1] == s[..1] && s[..1][..0] == [];
    assert Feed(r, s[..1]) == Step(r, s[0]);
    assert Feed(r, s[..2]) == Step(Step(r, s[0]), s[1]);
    assert Feed(r, s[..3]) == Step(Step(Step(r, s[0]), s[1]), s[2]);
  }

  lemma GeneratorSteps()
    ensures Step(Step(Step(Step(0, true), true), true), true) == 0xf
    ensures Step(Step(Step(Step(0xf, true), true), true), true) == 0xff
    ensures Step(Step(Step(Step(0xff, true), true), true), true) == 0xfff
    ensures Step(Step(Step(Step(0xfff, true), false), true), false) == 0xfffa
    ensures Step(Step(Step(Step(0xfffa, false), false), false), false) == 0xfffa0
    ensures Step(Step(Step(Step(0xfffa0, false), true), false), false) == 0xfffa04
    ensures Step(0xfffa04, true) == 0
  {
  }

  /** The generator leaves no remainder on division by itself. */
  lemma GeneratorIsZero()
    ensures Remainder(GeneratorBits()) == 0
  {
    GeneratorSteps();
    hide Step, Add, TimesX, Coefficient, Feed;
    var n1 := [true, true, true, true];
    var n2 := n1 + [true, true, true, true];
    var n3 := n2 + [true, true, true, true];
    var n4 := n3 + [true, false, true, false];
    var n5 := n4 + [false, false, false, false];
    var n6 := n5 + [false, true, false, false];
    FeedFour(0, n1);
    FeedFourMore(n1, [true, true, true, true]);
    FeedFourMore(n2, [true, true, true, true]);
    FeedFourMore(n3, [true, false, true, false]);
    FeedFourMore(n4, [false, false, false, false]);
    FeedFourMore(n5, [false, true, false, false]);
    FeedOneMore(n6, true);
  }

  lemma FeedFourMore(p: seq<bool>, s: seq<bool>)
    requires |s| == 4
    ensures Feed(0, p + s) == Step(Step(Step(Step(Feed(0, p), s[0]), s[1]), s[2]), s[3])
  {
    hide Step, Feed;
    FeedAppend(0, p, s);
    FeedFour(Feed(0, p), s);
  }

  lemma FeedOneMore(p: seq<bool>, b: bool)
    ensures Feed(0, p + [b]) == Step(Feed(0, p), b)
  {
    assert (p + [b])[..|p|] == p;
  }

  /** Feeding bits one at a time computes the schoolbook remainder. */
  lemma {:induction false} RemainderIsLongDivision(s: seq<bool>)
    requires 24 <= |s|
    ensures Remainder(s) == Value(LongDivision(s))
    decreases |s|
  {
    hide Add, TimesX, Coefficient, Value;
    if |s| == 24 {
      ShortRemainder(s);
    } else if s[0] {
      var g := GeneratorBits();
      var rest := Zeros(|s| - 25);
      FeedAppend(0, g, rest);
      GeneratorIsZero();
      FeedZeros(rest);
      RemainderXor(s, g + rest);
      AddIdentities(Remainder(s));
      var t := Xor(s[..25], g)[1..] + s[25..];
      assert Xor(s, g + rest) == [false] + t;
      RemainderIgnoresLeadingZeros([false], t);
      RemainderIsLongDivision(t);
    } else {
      assert s == [false] + s[1..];
      RemainderIgnoresLeadingZeros([false], s[1..]);
      RemainderIsLongDivision(s[1..]);
    }
  }
}
