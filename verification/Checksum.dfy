/** The table-driven Mode S checksum (crc.c) and its meaning: the remainder of the whole
    message, read as a polynomial, on division by the generator. */
module Checksum {
  import opened Bits
  import opened Polynomial

  /** The Mode S checksum of a message, parity field included. */
  function Parity(msg: seq<bv8>): bv24 {
    Remainder(BitsOf(msg))
  }

  // ---- The effect of one byte -------------------------------------------------------

  function Widen(b: bv8): bv24 {
    b as bv24
  }

  function TopByte(r: bv24): bv8 {
    ((r & 0xff0000) >> 16) as bv8
  }

  /** The remainder of the single-byte message b followed by 24 zero bits. */
  function TableEntry(b: bv8): bv24 {
    Shift(Widen(b) << 16, 8)
  }

  /** Multiplication by x^n is a plain shift as long as no coefficient leaves at the top. */
  lemma {:induction false} ShiftWithoutOverflow(r: bv24, n: nat)
    requires forall k: nat :: k < n ==> !Leading(ShiftLeftBy(r, k))
    ensures Shift(r, n) == ShiftLeftBy(r, n)
  {
    hide Add, ShiftLeft, Leading;
    if n > 0 {
      ShiftWithoutOverflow(r, n - 1);
    }
  }

  predicate Disjoint(v: bv24, m: bv24) {
    v & m == 0
  }

  lemma DisjointRaw(v: bv24, m: bv24)
    ensures (v << 1) & (m << 1) == (v & m) << 1
  {
  }

  lemma DisjointShift(v: bv24, m: bv24)
    requires Disjoint(v, m)
    ensures Disjoint(ShiftLeft(v), ShiftLeft(m))
  {
    DisjointRaw(v, m);
  }

  lemma DisjointLeading(v: bv24, m: bv24)
    requires Disjoint(v, m) && Leading(m)
    ensures !Leading(v)
  {
  }

  lemma {:induction false} DisjointFromTop(v: bv24, m: bv24, n: nat)
    requires Disjoint(v, m)
    requires Leading(ShiftLeftBy(m, n))
    ensures !Leading(ShiftLeftBy(v, n))
  {
    hide Disjoint, ShiftLeft, Leading;
    DisjointShifts(v, m, n);
    DisjointLeading(ShiftLeftBy(v, n), ShiftLeftBy(m, n));
  }

  lemma {:induction false} DisjointShifts(v: bv24, m: bv24, n: nat)
    requires Disjoint(v, m)
    ensures Disjoint(ShiftLeftBy(v, n), ShiftLeftBy(m, n))
  {
    hide Disjoint, ShiftLeft;
    if n > 0 {
      DisjointShifts(v, m, n - 1);
      DisjointShift(ShiftLeftBy(v, n - 1), ShiftLeftBy(m, n - 1));
    }
  }

  lemma TopEight()
    ensures Leading(ShiftLeftBy(0xff0000, 0)) && Leading(ShiftLeftBy(0xff0000, 1))
    ensures Leading(ShiftLeftBy(0xff0000, 2)) && Leading(ShiftLeftBy(0xff0000, 3))
    ensures Leading(ShiftLeftBy(0xff0000, 4)) && Leading(ShiftLeftBy(0xff0000, 5))
    ensures Leading(ShiftLeftBy(0xff0000, 6)) && Leading(ShiftLeftBy(0xff0000, 7))
  {
  }

  lemma {:induction false} ShiftLeftByAdd(r: bv24, m: nat, n: nat)
    ensures ShiftLeftBy(ShiftLeftBy(r, m), n) == ShiftLeftBy(r, m + n)
  {
    hide ShiftLeft;
    if n > 0 {
      ShiftLeftByAdd(r, m, n - 1);
    }
  }

  lemma ShiftsRaw(r: bv24)
    ensures (r << 1) << 1 == r << 2
    ensures (r << 2) << 2 == r << 4
    ensures (r << 4) << 4 == r << 8
    ensures (r << 8) << 8 == r << 16
  {
  }

  lemma ShiftLeftByOne(r: bv24)
    ensures ShiftLeftBy(r, 1) == r << 1
  {
  }

  lemma ShiftLeftByTwo(r: bv24)
    ensures ShiftLeftBy(r, 2) == r << 2
  {
    hide ShiftLeftBy;
    ShiftLeftByOne(r);
    ShiftLeftByOne(r << 1);
    ShiftLeftByAdd(r, 1, 1);
    ShiftsRaw(r);
  }

  lemma ShiftLeftByFour(r: bv24)
    ensures ShiftLeftBy(r, 4) == r << 4
  {
    hide ShiftLeftBy;
    ShiftLeftByTwo(r);
    ShiftLeftByTwo(r << 2);
    ShiftLeftByAdd(r, 2, 2);
    ShiftsRaw(r);
  }

  lemma ShiftLeftByEight(r: bv24)
    ensures ShiftLeftBy(r, 8) == r << 8
  {
    hide ShiftLeftBy;
    ShiftLeftByFour(r);
    ShiftLeftByFour(r << 4);
    ShiftLeftByAdd(r, 4, 4);
    ShiftsRaw(r);
  }

  lemma ShiftLeftBySixteen(r: bv24)
    ensures ShiftLeftBy(r, 16) == r << 16
  {
    hide ShiftLeftBy;
    ShiftLeftByEight(r);
    ShiftLeftByEight(r << 8);
    ShiftLeftByAdd(r, 8, 8);
    ShiftsRaw(r);
  }

  lemma LowRaw(r: bv24)
    ensures (r & 0xffff) & 0xff0000 == 0
    ensures (r & 0xffff) << 8 == r << 8
  {
  }

  lemma LowSixteenShift(r: bv24)
    ensures Shift(r & 0xffff, 8) == r << 8
  {
    var lo := r & 0xffff;
    LowRaw(r);
    assert Disjoint(lo, 0xff0000);
    TopEight();
    ShiftLeftByEight(lo);
    hide Disjoint, ShiftLeftBy, Leading, Shift;
    forall k: nat | k < 8 ensures !Leading(ShiftLeftBy(lo, k)) {
      DisjointFromTop(lo, 0xff0000, k);
    }
    ShiftWithoutOverflow(lo, 8);
  }

  lemma TopRaw(r: bv24, m: bv8)
    ensures r ^ ((m as bv24) << 16) == ((m ^ (((r & 0xff0000) >> 16) as bv8)) as bv24 << 16) ^ (r & 0xffff)
  {
  }

  lemma SplitTopByte(r: bv24, m: bv8)
    ensures Add(r, Widen(m) << 16) == Add(Widen(m ^ TopByte(r)) << 16, r & 0xffff)
  {
    TopRaw(r, m);
  }

  /** One lookup advances the running remainder by a whole byte. */
  lemma TableStep(r: bv24, m: bv8)
    ensures Add(r << 8, TableEntry(m ^ TopByte(r))) == Shift(Add(r, Widen(m) << 16), 8)
  {
    hide Add, TopByte, Widen, Shift;
    var hi, lo := Widen(m ^ TopByte(r)) << 16, r & 0xffff;
    SplitTopByte(r, m);
    LowSixteenShift(r);
    ShiftLinear(hi, lo, 8);
    AddCommutes(Shift(hi, 8), r << 8);
  }

  // ---- Bytes and bits ---------------------------------------------------------------

  function AppendOne(v: bv24): bv24 {
    (v << 1) ^ 1
  }

  function AppendZero(v: bv24): bv24 {
    (v << 1) ^ 0
  }

  lemma DigitRaw(m: bv8)
    ensures m & 0x80 != 0 ==> AppendOne(0) == (m as bv24) >> 7
    ensures m & 0x80 == 0 ==> AppendZero(0) == (m as bv24) >> 7
    ensures m & 0x40 != 0 ==> AppendOne((m as bv24) >> 7) == (m as bv24) >> 6
    ensures m & 0x40 == 0 ==> AppendZero((m as bv24) >> 7) == (m as bv24) >> 6
    ensures m & 0x20 != 0 ==> AppendOne((m as bv24) >> 6) == (m as bv24) >> 5
    ensures m & 0x20 == 0 ==> AppendZero((m as bv24) >> 6) == (m as bv24) >> 5
    ensures m & 0x10 != 0 ==> AppendOne((m as bv24) >> 5) == (m as bv24) >> 4
    ensures m & 0x10 == 0 ==> AppendZero((m as bv24) >> 5) == (m as bv24) >> 4
    ensures m & 0x08 != 0 ==> AppendOne((m as bv24) >> 4) == (m as bv24) >> 3
    ensures m & 0x08 == 0 ==> AppendZero((m as bv24) >> 4) == (m as bv24) >> 3
    ensures m & 0x04 != 0 ==> AppendOne((m as bv24) >> 3) == (m as bv24) >> 2
    ensures m & 0x04 == 0 ==> AppendZero((m as bv24) >> 3) == (m as bv24) >> 2
    ensures m & 0x02 != 0 ==> AppendOne((m as bv24) >> 2) == (m as bv24) >> 1
    ensures m & 0x02 == 0 ==> AppendZero((m as bv24) >> 2) == (m as bv24) >> 1
    ensures m & 0x01 != 0 ==> AppendOne((m as bv24) >> 1) == m as bv24
    ensures m & 0x01 == 0 ==> AppendZero((m as bv24) >> 1) == m as bv24
  {
  }

  lemma AppendOneIs(v: bv24)
    ensures Add(ShiftLeft(v), 1) == AppendOne(v)
  {
  }

  lemma AppendZeroIs(v: bv24)
    ensures Add(ShiftLeft(v), 0) == AppendZero(v)
  {
  }

  lemma AppendIs(v: bv24, b: bool)
    ensures Add(ShiftLeft(v), Coefficient(b)) == if b then AppendOne(v) else AppendZero(v)
  {
    hide Add, ShiftLeft, AppendOne, AppendZero;
    AppendOneIs(v);
    AppendZeroIs(v);
  }

  /** The first i binary digits of m, as a number. */
  function Prefix(m: bv8, i: nat): bv24
    requires i <= 8
  {
    var w := m as bv24;
    if i == 0 then 0 else if i == 1 then w >> 7 else if i == 2 then w >> 6 else if i == 3 then w >> 5
    else if i == 4 then w >> 4 else if i == 5 then w >> 3 else if i == 6 then w >> 2 else if i == 7 then w >> 1
    else w
  }

  lemma PrefixDigit(m: bv8, i: nat)
    requires i < 8
    ensures Prefix(m, i + 1) == if BitOfByte(m, i) then AppendOne(Prefix(m, i)) else AppendZero(Prefix(m, i))
  {
    hide AppendOne, AppendZero;
    DigitRaw(m);
  }

  lemma ValueAppend(s: seq<bool>, k: nat)
    requires k < |s|
    ensures Value(s[..k + 1]) == Add(ShiftLeft(Value(s[..k])), Coefficient(s[k]))
  {
    assert s[..k + 1][..k] == s[..k];
  }

  /** The bits of a byte are its binary digits. */
  lemma ValueOfByteBits(m: bv8)
    ensures Value(ByteBits(m)) == Widen(m)
  {
    ValueOfPrefix(m, 8);
    ShiftedOut(m);
    assert ByteBits(m)[..8] == ByteBits(m);
  }

  lemma ShiftedOut(m: bv8)
    ensures Prefix(m, 8) == Widen(m)
  {
  }

  lemma {:induction false} ValueOfPrefix(m: bv8, i: nat)
    requires i <= 8
    ensures Value(ByteBits(m)[..i]) == Prefix(m, i)
  {
    if i == 0 {
      EmptyValue(ByteBits(m)[..0]);
    } else {
      hide Add, ShiftLeft, Coefficient, BitOfByte, AppendOne, AppendZero, Prefix;
      ValueOfPrefix(m, i - 1);
      ValueAppend(ByteBits(m), i - 1);
      PrefixDigit(m, i - 1);
      AppendIs(Prefix(m, i - 1), ByteBits(m)[i - 1]);
    }
  }

  lemma EmptyValue(s: seq<bool>)
    requires |s| == 0
    ensures Value(s) == 0
  {
  }

  /** Reading one more byte. */
  lemma ParityAppend(msg: seq<bv8>, b: bv8)
    ensures Parity(msg + [b]) == Add(Shift(Parity(msg), 8), Widen(b))
  {
    hide Add, Shift, Feed, Widen;
    BitsOfAppend(msg, [b]);
    BitsOfByte(b);
    FeedAppend(0, BitsOf(msg), ByteBits(b));
    FeedSplit(Parity(msg), ByteBits(b));
    ShortRemainder(ByteBits(b));
    ValueOfByteBits(b);
  }

  // ---- modesChecksum ----------------------------------------------------------------

  /** What the running remainder holds after the loop of modesChecksum has read msg. */
  function Running(msg: seq<bv8>): bv24 {
    Shift(Parity(msg), 24)
  }

  lemma RunningAppend(msg: seq<bv8>, b: bv8)
    ensures Running(msg + [b]) == Add(Running(msg) << 8, TableEntry(b ^ TopByte(Running(msg))))
  {
    hide Add, Shift, Widen, TopByte;
    var p := Parity(msg);
    ParityAppend(msg, b);
    ShiftLinear(Shift(p, 8), Widen(b), 24);
    ShiftAdd(p, 8, 24);
    ShiftAdd(p, 24, 8);
    ShiftAdd(Widen(b), 16, 8);
    WidenShifted(b);
    ShiftLinear(Running(msg), Widen(b) << 16, 8);
    TableStep(Running(msg), b);
  }

  lemma WidenShifted(m: bv8)
    ensures Shift(Widen(m), 8) == Widen(m) << 8
    ensures Shift(Widen(m), 16) == Widen(m) << 16
  {
    hide Add, Shift, ShiftLeftBy, Leading, Widen, Value;
    ValueOfByteBits(m);
    forall k: nat | k < 16 ensures !Leading(ShiftLeftBy(Widen(m), k)) {
      ValueFits(ByteBits(m), k);
    }
    ShiftWithoutOverflow(Widen(m), 8);
    ShiftWithoutOverflow(Widen(m), 16);
    ShiftLeftByEight(Widen(m));
    ShiftLeftBySixteen(Widen(m));
  }

  /** Adding the three parity bytes completes the remainder. */
  lemma AddParityField(msg: seq<bv8>, a: bv8, b: bv8, c: bv8)
    ensures Parity(msg + [a, b, c])
         == Add(Add(Add(Running(msg), Widen(a) << 16), Widen(b) << 8), Widen(c))
  {
    hide Add, Shift, Widen;
    assert msg + [a, b, c] == msg + [a] + [b] + [c];
    var p := Parity(msg);
    ParityAppend(msg, a);
    ParityAppend(msg + [a], b);
    ParityAppend(msg + [a] + [b], c);
    ShiftLinear(Shift(p, 8), Widen(a), 8);
    ShiftAdd(p, 8, 8);
    WidenShifted(a);
    WidenShifted(b);
    ShiftLinear(Add(Shift(p, 16), Widen(a) << 8), Widen(b), 8);
    ShiftLinear(Shift(p, 16), Widen(a) << 8, 8);
    ShiftAdd(p, 16, 8);
    ShiftAdd(Widen(a), 8, 8);
  }

  lemma ThreeBytesRaw(r: bv24, s: bv24)
    ensures var x := r ^ s;
      ((r ^ ((((x >> 16) as bv8) as bv24) << 16)) ^ (((((x >> 8) & 0xff) as bv8) as bv24) << 8))
        ^ (((x & 0xff) as bv8) as bv24) == s
  {
  }

  /** Every message can be completed to have any given checksum. */
  lemma Completed(head: seq<bv8>, s: bv24) returns (msg: seq<bv8>)
    ensures |msg| == |head| + 3 && msg[..|head|] == head && Parity(msg) == s
  {
    hide Running, Parity;
    var x := Running(head) ^ s;
    var a, b, c := (x >> 16) as bv8, ((x >> 8) & 0xff) as bv8, (x & 0xff) as bv8;
    msg := head + [a, b, c];
    AddParityField(head, a, b, c);
    ThreeBytesRaw(Running(head), s);
  }

  // ---- Properties of the checksum ---------------------------------------------------

  /** Bytewise exclusive or. */
  function XorBytes(a: seq<bv8>, b: seq<bv8>): (r: seq<bv8>)
    requires |a| == |b|
    ensures |r| == |a|
  {
    seq(|a|, i requires 0 <= i < |a| => a[i] ^ b[i])
  }

  /** The checksum is linear: the checksum of a difference is the difference of the checksums. */
  lemma ParityIsLinear(a: seq<bv8>, b: seq<bv8>)
    requires |a| == |b|
    ensures Parity(XorBytes(a, b)) == Add(Parity(a), Parity(b))
  {
    var x := BitsOf(XorBytes(a, b));
    forall k | 0 <= k < |x| ensures x[k] == Xor(BitsOf(a), BitsOf(b))[k] {
      XorByteBit(a[k / 8], b[k / 8], k % 8);
    }
    assert x == Xor(BitsOf(a), BitsOf(b));
    RemainderXor(BitsOf(a), BitsOf(b));
  }

  /** Leading zero bytes do not change the checksum. */
  lemma ParityIgnoresLeadingZeros(n: nat, msg: seq<bv8>)
    ensures Parity(seq(n, _ => 0) + msg) == Parity(msg)
  {
    var z: seq<bv8> := seq(n, _ => 0);
    BitsOfAppend(z, msg);
    forall k | 0 <= k < 8 * n ensures !BitsOf(z)[k] {
      assert z[k / 8] == 0;
      ZeroBit(k % 8);
    }
    RemainderIgnoresLeadingZeros(BitsOf(z), BitsOf(msg));
  }

  lemma ZeroBit(i: nat)
    requires i < 8
    ensures !BitOfByte(0, i)
  {
  }

  lemma ParityOfZeros(n: nat)
    ensures Parity(seq(n, _ => 0)) == 0
  {
    var z: seq<bv8> := seq(n, _ => 0);
    forall k | 0 <= k < 8 * n ensures !BitsOf(z)[k] {
      assert z[k / 8] == 0;
      ZeroBit(k % 8);
    }
    FeedZeros(BitsOf(z));
  }

  /** The syndrome of inverting bit k of a message of `bits` bits: x^(bits - 1 - k). It
      depends only on the distance of the bit from the end of the message. */
  function BitSyndrome(k: nat, bits: nat): bv24 {
    Shift(1, if k < bits then bits - 1 - k else 0)
  }

  lemma ParityOfFlip(msg: seq<bv8>, k: nat)
    requires k < 8 * |msg|
    ensures Parity(FlipBit(msg, k)) == Add(Parity(msg), BitSyndrome(k, 8 * |msg|))
  {
    FlipBitBits(msg, k);
    RemainderOfFlip(BitsOf(msg), k);
  }

  /** The checksum of a message of at least 3 bytes is the schoolbook remainder of its bits. */
  lemma ParityIsLongDivision(msg: seq<bv8>)
    requires 3 <= |msg|
    ensures Parity(msg) == Value(LongDivision(BitsOf(msg)))
  {
    RemainderIsLongDivision(BitsOf(msg));
  }

  // ---- The lookup tables ------------------------------------------------------------

  /** The low 24 bits of a 32-bit register. */
  function Low24(c: bv32): bv24 {
    (c & 0xffffff) as bv24
  }

  lemma Low24Raw(c: bv32)
    ensures ((c << 1) & 0xffffff) as bv24 == ((c & 0xffffff) as bv24) << 1
    ensures (((c << 1) ^ 0xfff409) & 0xffffff) as bv24 == (((c & 0xffffff) as bv24) << 1) ^ 0xfff409
    ensures (c & 0x800000 != 0) == (((c & 0xffffff) as bv24) & 0x800000 != 0)
  {
  }

  /** Bits above the 24th of the 32-bit register never come back. */
  lemma RegisterStep(c: bv32)
    ensures c & 0x800000 != 0 ==> Low24((c << 1) ^ 0xfff409) == TimesX(Low24(c))
    ensures c & 0x800000 == 0 ==> Low24(c << 1) == TimesX(Low24(c))
  {
    Low24Raw(c);
  }
}
