/** getbits (mode_s.h): a bit field of up to 32 bits, put together from up to 5 bytes. */
module FieldExtraction {
  import opened Acceptance
  import opened Bits
  import opened Bytes
  import opened Fields

  lemma SmallAmount(n: nat)
    requires n <= 8
    ensures (n as bv8) <= 8 && (n < 8 ==> (n as bv8) < 8 && (n + 1) as bv8 == (n as bv8) + 1)
    ensures (8 - n) as bv8 == 8 - (n as bv8) && (n < 8 ==> (7 - n) as bv8 == 7 - (n as bv8))
  {
    assert n in {0, 1, 2, 3, 4, 5, 6, 7, 8};
  }

  /** getbits */
  function GetBits(data: seq<bv8>, firstbit: nat, lastbit: nat): bv32
    requires 1 <= firstbit <= lastbit <= 8 * |data|
    requires lastbit - firstbit + 1 <= 32
  {
    var fbi, lbi := firstbit - 1, lastbit - 1;
    var fby, lby := fbi / 8, lbi / 8;
    SmallAmount(7 - lbi % 8);
    SmallAmount(fbi % 8);
    var shift := (7 - lbi % 8) as bv8;
    var topmask: bv8 := 0xff >> ((fbi % 8) as bv8);
    Joined(data, fby, lby - fby + 1, data[fby] & topmask, shift)
  }

  /** The five cases of getbits, by the number of bytes. */
  function Joined(data: seq<bv8>, fby: nat, nby: nat, top: bv8, shift: bv8): bv32
    requires 1 <= nby <= 5 && fby + nby <= |data| && shift < 8
  {
    if nby == 5 then Five(top, data[fby + 1], data[fby + 2], data[fby + 3], data[fby + 4], shift)
    else if nby == 4 then Four(top, data[fby + 1], data[fby + 2], data[fby + 3], shift)
    else if nby == 3 then Three(top, data[fby + 1], data[fby + 2], shift)
    else if nby == 2 then Two(top, data[fby + 1], shift)
    else One(top, shift)
  }

  function Five(t: bv8, b1: bv8, b2: bv8, b3: bv8, b4: bv8, s: bv8): bv32
    requires s < 8
  {
    ((t as bv32) << (32 - s)) | ((b1 as bv32) << (24 - s)) | ((b2 as bv32) << (16 - s)) | ((b3 as bv32) << (8 - s))
    | ((b4 >> s) as bv32)
  }

  function Four(t: bv8, b1: bv8, b2: bv8, b3: bv8, s: bv8): bv32
    requires s < 8
  {
    ((t as bv32) << (24 - s)) | ((b1 as bv32) << (16 - s)) | ((b2 as bv32) << (8 - s)) | ((b3 >> s) as bv32)
  }

  function Three(t: bv8, b1: bv8, b2: bv8, s: bv8): bv32
    requires s < 8
  {
    ((t as bv32) << (16 - s)) | ((b1 as bv32) << (8 - s)) | ((b2 >> s) as bv32)
  }

  function Two(t: bv8, b1: bv8, s: bv8): bv32
    requires s < 8
  {
    ((t as bv32) << (8 - s)) | ((b1 >> s) as bv32)
  }

  function One(t: bv8, s: bv8): bv32
    requires s < 8
  {
    (t >> s) as bv32
  }

  // ---- Appending the first bits of a byte -----------------------------------------------------------

  /** a, followed by the first k bits of b. */
  function Appended(a: bv40, b: bv8, k: bv8): bv40
    requires k <= 8
  {
    (a << k) | ((b >> (8 - k)) as bv40)
  }

  lemma AppendOne(a: bv40, b: bv8, k: bv8)
    requires k < 8 && a < 0x1_0000_0000
    ensures Appended(a, b, k + 1) == (Appended(a, b, k) << 1) | (((b >> (7 - k)) & 1) as bv1) as bv40
    ensures Appended(a, b, k) < 0x80_0000_0000
  {
  }

  lemma OneBitMore(x: bv40, d: bv1)
    requires x < 0x80_0000_0000
    ensures ((x << 1) | (d as bv40)) as nat == 2 * (x as nat) + d as nat
  {
  }

  /** Bit i of a byte, as a number. */
  lemma DigitOfByte(b: bv8, i: nat)
    requires i < 8
    ensures (((b >> (7 - i as bv8)) & 1) as bv1) as nat == Digit(BitOfByte(b, i))
  {
    assert i in {0, 1, 2, 3, 4, 5, 6, 7};
  }

  lemma FieldNext(msg: seq<bv8>, f: nat, n: nat, i: nat)
    requires n < |msg| && 1 <= f <= 8 * n + i + 1 && i < 8
    ensures Field(msg, f, 8 * n + i + 1) == 2 * Field(msg, f, 8 * n + i) + Digit(BitOfByte(msg[n], i))
  {
    hide BitOfByte;
  }

  /** The value of a, followed by the first k bits of b. */
  function ValueWith(a: bv40, b: bv8, k: nat): nat
    requires k <= 8
  {
    SmallAmount(k);
    Appended(a, b, k as bv8) as nat
  }

  lemma ValueStep(a: bv40, b: bv8, k: nat)
    requires k < 8 && a < 0x1_0000_0000
    ensures ValueWith(a, b, k + 1) == 2 * ValueWith(a, b, k) + Digit(BitOfByte(b, k))
  {
    hide Appended, BitOfByte, Digit;
    SmallAmount(k);
    AppendOne(a, b, k as bv8);
    OneBitMore(Appended(a, b, k as bv8), ((b >> (7 - k as bv8)) & 1) as bv1);
    DigitOfByte(b, k);
  }

  /** Appending the first k bits of byte n to the field before it; the first r bits of b may have
      been masked off. */
  lemma {:induction false} AppendedField(msg: seq<bv8>, f: nat, n: nat, a: bv40, b: bv8, r: nat, k: nat)
    requires n < |msg| && r <= k <= 8 && 1 <= f <= 8 * n + r + 1 && a < 0x1_0000_0000
    requires ValueWith(a, b, r) == Field(msg, f, 8 * n + r)
    requires forall i: nat :: r <= i < 8 ==> BitOfByte(b, i) == BitOfByte(msg[n], i)
    ensures ValueWith(a, b, k) == Field(msg, f, 8 * n + k)
    decreases k - r
  {
    hide ValueWith, Field, BitOfByte, Digit;
    if r < k {
      ValueStep(a, b, r);
      FieldNext(msg, f, n, r);
      AppendedField(msg, f, n, a, b, r + 1, k);
    }
  }

  lemma EmptyField(msg: seq<bv8>, f: nat)
    requires 1 <= f <= 8 * |msg| + 1
    ensures Field(msg, f, f - 1) == 0
  {
  }

  lemma MaskedRaw(b: bv8, r: bv8)
    requires r < 8
    ensures Appended(0, b & (0xff >> r), r) == 0
  {
  }

  /** A byte without its first r bits. */
  function Masked(b: bv8, r: nat): bv8
    requires r < 8
  {
    SmallAmount(r);
    b & (0xff >> (r as bv8))
  }

  lemma MaskedBits(b: bv8, r: nat, i: nat)
    requires r <= i < 8
    ensures BitOfByte(Masked(b, r), i) == BitOfByte(b, i)
  {
    assert r in {0, 1, 2, 3, 4, 5, 6, 7};
  }

  lemma MaskedValue(b: bv8, r: nat)
    requires r < 8
    ensures ValueWith(0, Masked(b, r), r) == 0
  {
    hide Appended;
    SmallAmount(r);
    MaskedRaw(b, r as bv8);
  }

  /** The first byte of a field: its first k bits without the first r, which are masked off. */
  lemma FirstByte(msg: seq<bv8>, n: nat, r: nat, k: nat)
    requires n < |msg| && r < 8 && r <= k <= 8
    ensures ValueWith(0, Masked(msg[n], r), k) == Field(msg, 8 * n + r + 1, 8 * n + k)
  {
    hide ValueWith, Masked, Field, BitOfByte;
    MaskedValue(msg[n], r);
    EmptyField(msg, 8 * n + r + 1);
    forall i: nat | r <= i < 8 ensures BitOfByte(Masked(msg[n], r), i) == BitOfByte(msg[n], i) {
      MaskedBits(msg[n], r, i);
    }
    AppendedField(msg, 8 * n + r + 1, n, 0, Masked(msg[n], r), r, k);
  }

  /** A later byte. */
  lemma LaterByte(msg: seq<bv8>, f: nat, n: nat, a: bv40, k: nat)
    requires n < |msg| && k <= 8 && 1 <= f <= 8 * n + 1 && a < 0x1_0000_0000
    requires a as nat == Field(msg, f, 8 * n)
    ensures ValueWith(a, msg[n], k) == Field(msg, f, 8 * n + k)
  {
    AppendNothing(a, msg[n]);
    hide ValueWith, Field, BitOfByte;
    AppendedField(msg, f, n, a, msg[n], 0, k);
  }

  lemma AppendNothing(a: bv40, b: bv8)
    ensures ValueWith(a, b, 0) == a as nat
  {
  }

  // ---- All bytes ------------------------------------------------------------------------------------

  function WithByte(a: bv40, b: bv8): bv40 {
    (a << 8) | (b as bv40)
  }

  /** The first byte and whole bytes after it. */
  function Whole(data: seq<bv8>, fby: nat, top: bv8, n: nat): bv40
    requires 1 <= n <= 4 && fby + n <= |data|
  {
    if n == 1 then top as bv40 else WithByte(Whole(data, fby, top, n - 1), data[fby + n - 1])
  }

  lemma AppendByteRaw(a: bv40, b: bv8)
    ensures a < 0x1_0000_00 ==> WithByte(a, b) < 0x1_0000_0000
    ensures a < 0x1_0000 ==> WithByte(a, b) < 0x1_0000_00
    ensures a < 0x100 ==> WithByte(a, b) < 0x1_0000
    ensures b as bv40 < 0x100 && Appended(0, b, 8) == b as bv40 && Appended(a, b, 8) == WithByte(a, b)
  {
  }

  lemma WholeIsSmall(data: seq<bv8>, fby: nat, top: bv8, n: nat)
    requires 1 <= n <= 4 && fby + n <= |data|
    ensures Whole(data, fby, top, n) < 0x1_0000_0000
    ensures n <= 3 ==> Whole(data, fby, top, n) < 0x1_0000_00
    ensures n <= 2 ==> Whole(data, fby, top, n) < 0x1_0000
    ensures n == 1 ==> Whole(data, fby, top, n) < 0x100
  {
    hide WithByte, Appended;
    AppendByteRaw(0, top);
    if n > 1 {
      WholeIsSmall(data, fby, top, n - 1);
      AppendByteRaw(Whole(data, fby, top, n - 1), data[fby + n - 1]);
    }
  }

  lemma {:induction false} WholeIsField(data: seq<bv8>, fby: nat, r: nat, n: nat)
    requires 1 <= n <= 4 && fby + n <= |data| && r < 8
    ensures Whole(data, fby, Masked(data[fby], r), n) as nat == Field(data, 8 * fby + r + 1, 8 * (fby + n))
  {
    hide Appended, WithByte, Field, Masked;
    var top := Masked(data[fby], r);
    if n == 1 {
      FirstByte(data, fby, r, 8);
      AppendByteRaw(0, top);
    } else {
      WholeIsField(data, fby, r, n - 1);
      WholeIsSmall(data, fby, top, n - 1);
      AppendByteRaw(Whole(data, fby, top, n - 1), data[fby + n - 1]);
      LaterByte(data, 8 * fby + r + 1, fby + n - 1, Whole(data, fby, top, n - 1), 8);
    }
  }

  // ---- The cases of getbits -------------------------------------------------------------------------

  lemma OneRaw(t: bv8, s: bv8)
    requires s < 8
    ensures One(t, s) as bv40 == Appended(0, t, 8 - s)
  {
  }

  lemma TwoRaw(t: bv8, b1: bv8, s: bv8)
    requires s < 8
    ensures Two(t, b1, s) as bv40 == Appended(t as bv40, b1, 8 - s)
  {
  }

  lemma ThreeRaw(t: bv8, b1: bv8, b2: bv8, s: bv8, a: bv40)
    requires s < 8 && a == ((t as bv40) << 8) | (b1 as bv40)
    ensures Three(t, b1, b2, s) as bv40 == Appended(a, b2, 8 - s)
  {
  }

  lemma FourRaw(t: bv8, b1: bv8, b2: bv8, b3: bv8, s: bv8, a: bv40)
    requires s < 8 && a == ((((t as bv40) << 8) | (b1 as bv40)) << 8) | (b2 as bv40)
    ensures Four(t, b1, b2, b3, s) as bv40 == Appended(a, b3, 8 - s)
  {
  }

  /** Nothing of the first byte is shifted out if the field has at most 32 bits. */
  lemma FiveRaw(t: bv8, b1: bv8, b2: bv8, b3: bv8, b4: bv8, s: bv8, a: bv40)
    requires s < 8 && t >> s == 0
    requires a == ((((((t as bv40) << 8) | (b1 as bv40)) << 8) | (b2 as bv40)) << 8) | (b3 as bv40)
    ensures Five(t, b1, b2, b3, b4, s) as bv40 == Appended(a, b4, 8 - s)
  {
  }

  lemma ThreeIsAppended(t: bv8, b1: bv8, b2: bv8, s: bv8)
    requires s < 8
    ensures Three(t, b1, b2, s) as bv40 == Appended(WithByte(t as bv40, b1), b2, 8 - s)
  {
    hide Three, Appended;
    ThreeRaw(t, b1, b2, s, WithByte(t as bv40, b1));
  }

  lemma FourIsAppended(t: bv8, b1: bv8, b2: bv8, b3: bv8, s: bv8)
    requires s < 8
    ensures Four(t, b1, b2, b3, s) as bv40 == Appended(WithByte(WithByte(t as bv40, b1), b2), b3, 8 - s)
  {
    hide Four, Appended;
    FourRaw(t, b1, b2, b3, s, WithByte(WithByte(t as bv40, b1), b2));
  }

  lemma FiveIsAppended(t: bv8, b1: bv8, b2: bv8, b3: bv8, b4: bv8, s: bv8)
    requires s < 8 && t >> s == 0
    ensures Five(t, b1, b2, b3, b4, s) as bv40
         == Appended(WithByte(WithByte(WithByte(t as bv40, b1), b2), b3), b4, 8 - s)
  {
    hide Five, Appended;
    FiveRaw(t, b1, b2, b3, b4, s, WithByte(WithByte(WithByte(t as bv40, b1), b2), b3));
  }

  lemma WholeBytes(data: seq<bv8>, fby: nat, top: bv8)
    requires fby < |data|
    ensures Whole(data, fby, top, 1) == top as bv40
    ensures fby + 2 <= |data| ==> Whole(data, fby, top, 2) == WithByte(top as bv40, data[fby + 1])
    ensures fby + 3 <= |data| ==>
      Whole(data, fby, top, 3) == WithByte(WithByte(top as bv40, data[fby + 1]), data[fby + 2])
    ensures fby + 4 <= |data| ==>
      Whole(data, fby, top, 4) == WithByte(WithByte(WithByte(top as bv40, data[fby + 1]), data[fby + 2]), data[fby + 3])
  {
    hide WithByte;
    assert Whole(data, fby, top, 1) == top as bv40;
    if fby + 2 <= |data| {
      assert Whole(data, fby, top, 2) == WithByte(top as bv40, data[fby + 1]);
    }
    if fby + 3 <= |data| {
      assert Whole(data, fby, top, 3) == WithByte(WithByte(top as bv40, data[fby + 1]), data[fby + 2]);
    }
  }

  lemma WideValue(x: bv32)
    ensures (x as bv40) as nat == x as nat
  {
  }

  lemma ShiftedOutRaw(b: bv8, r: bv8, s: bv8)
    requires r < 8 && s < 8 && r + s >= 8
    ensures (b & (0xff >> r)) >> s == 0
  {
  }

  lemma NothingShiftedOut(b: bv8, r: nat, s: nat)
    requires r < 8 && s < 8 && r + s >= 8
    ensures (s as bv8) < 8 && Masked(b, r) >> (s as bv8) == 0
  {
    SmallAmount(r);
    SmallAmount(s);
    SmallSum(r, s);
    ShiftedOutRaw(b, r as bv8, s as bv8);
  }

  lemma SmallSum(r: nat, s: nat)
    requires r < 8 && s < 8 && r + s >= 8
    ensures (r as bv8) + (s as bv8) >= 8
  {
    assert r in {0, 1, 2, 3, 4, 5, 6, 7};
    assert s in {0, 1, 2, 3, 4, 5, 6, 7};
  }

  lemma JoinOne(data: seq<bv8>, fby: nat, top: bv8, s: nat)
    requires fby + 1 <= |data| && s < 8 && (s as bv8) < 8
    ensures Joined(data, fby, 1, top, s as bv8) as nat == ValueWith(0, top, 8 - s)
  {
    hide Appended, Whole, WithByte, One, Two, Three, Four, Five;
    SmallAmount(s);
    OneRaw(top, s as bv8);
    WideValue(One(top, s as bv8));
  }

  lemma JoinTwo(data: seq<bv8>, fby: nat, top: bv8, s: nat)
    requires fby + 2 <= |data| && s < 8 && (s as bv8) < 8
    ensures Joined(data, fby, 2, top, s as bv8) as nat == ValueWith(Whole(data, fby, top, 1), data[fby + 1], 8 - s)
  {
    hide Appended, Whole, WithByte, One, Two, Three, Four, Five;
    SmallAmount(s);
    WholeBytes(data, fby, top);
    TwoRaw(top, data[fby + 1], s as bv8);
    WideValue(Two(top, data[fby + 1], s as bv8));
  }

  lemma JoinThree(data: seq<bv8>, fby: nat, top: bv8, s: nat)
    requires fby + 3 <= |data| && s < 8 && (s as bv8) < 8
    ensures Joined(data, fby, 3, top, s as bv8) as nat == ValueWith(Whole(data, fby, top, 2), data[fby + 2], 8 - s)
  {
    hide Appended, Whole, WithByte, One, Two, Three, Four, Five;
    SmallAmount(s);
    WholeBytes(data, fby, top);
    ThreeIsAppended(top, data[fby + 1], data[fby + 2], s as bv8);
    WideValue(Three(top, data[fby + 1], data[fby + 2], s as bv8));
  }

  lemma JoinFour(data: seq<bv8>, fby: nat, top: bv8, s: nat)
    requires fby + 4 <= |data| && s < 8 && (s as bv8) < 8
    ensures Joined(data, fby, 4, top, s as bv8) as nat == ValueWith(Whole(data, fby, top, 3), data[fby + 3], 8 - s)
  {
    hide Appended, Whole, WithByte, One, Two, Three, Four, Five;
    SmallAmount(s);
    WholeBytes(data, fby, top);
    FourIsAppended(top, data[fby + 1], data[fby + 2], data[fby + 3], s as bv8);
    WideValue(Four(top, data[fby + 1], data[fby + 2], data[fby + 3], s as bv8));
  }

  lemma JoinFive(data: seq<bv8>, fby: nat, top: bv8, s: nat)
    requires fby + 5 <= |data| && s < 8 && (s as bv8) < 8
    requires top >> (s as bv8) == 0
    ensures Joined(data, fby, 5, top, s as bv8) as nat == ValueWith(Whole(data, fby, top, 4), data[fby + 4], 8 - s)
  {
    hide Appended, Whole, WithByte, One, Two, Three, Four, Five;
    SmallAmount(s);
    WholeBytes(data, fby, top);
    FiveIsAppended(top, data[fby + 1], data[fby + 2], data[fby + 3], data[fby + 4], s as bv8);
    WideValue(Five(top, data[fby + 1], data[fby + 2], data[fby + 3], data[fby + 4], s as bv8));
  }

  lemma GetBitsIsJoined(data: seq<bv8>, firstbit: nat, lastbit: nat)
    requires 1 <= firstbit <= lastbit <= 8 * |data| && lastbit - firstbit + 1 <= 32
    ensures var fby, lby, s := (firstbit - 1) / 8, (lastbit - 1) / 8, 7 - (lastbit - 1) % 8;
      && (s as bv8) < 8
      && GetBits(data, firstbit, lastbit)
           == Joined(data, fby, lby - fby + 1, Masked(data[fby], (firstbit - 1) % 8), s as bv8)
  {
    hide Joined;
    SmallAmount(7 - (lastbit - 1) % 8);
  }

  /** getbits returns the number whose binary digits are the bits firstbit..lastbit. */
  lemma GetBitsIsField(data: seq<bv8>, firstbit: nat, lastbit: nat)
    requires 1 <= firstbit <= lastbit <= 8 * |data| && lastbit - firstbit + 1 <= 32
    ensures GetBits(data, firstbit, lastbit) as nat == Field(data, firstbit, lastbit)
  {
    hide Joined, Appended, Whole, Field, ValueWith, GetBits, Masked;
    var fbi, lbi := firstbit - 1, lastbit - 1;
    var fby, lby, r, s := fbi / 8, lbi / 8, fbi % 8, 7 - lbi % 8;
    var nby, top := lby - fby + 1, Masked(data[fby], r);
    GetBitsIsJoined(data, firstbit, lastbit);
    if nby == 1 {
      JoinOne(data, fby, top, s);
      FirstByte(data, fby, r, 8 - s);
    } else {
      WholeIsField(data, fby, r, nby - 1);
      WholeIsSmall(data, fby, top, nby - 1);
      LaterByte(data, firstbit, lby, Whole(data, fby, top, nby - 1), 8 - s);
      if nby == 2 {
        JoinTwo(data, fby, top, s);
      } else if nby == 3 {
        JoinThree(data, fby, top, s);
      } else if nby == 4 {
        JoinFour(data, fby, top, s);
      } else {
        NothingShiftedOut(data[fby], r, s);
        JoinFive(data, fby, top, s);
      }
    }
  }

  // ---- The announced address ----------------------------------------------------------------------

  lemma AnnouncedRaw(msg: seq<bv8>, w: bv40)
    requires |msg| >= 4 && w == ((((msg[1] as bv40) << 8) | (msg[2] as bv40)) << 8) | (msg[3] as bv40)
    ensures Announced(msg) as bv40 == w
  {
  }

  lemma NarrowValue(x: bv24)
    ensures (x as bv40) as nat == x as nat
  {
  }

  lemma AnnouncedIsWhole(msg: seq<bv8>)
    requires |msg| >= 4
    ensures Announced(msg) as bv40 == WithByte(WithByte(msg[1] as bv40, msg[2]), msg[3])
  {
    hide Announced;
    AnnouncedRaw(msg, WithByte(WithByte(msg[1] as bv40, msg[2]), msg[3]));
  }

  /** The announced address is the field of bits 9 to 32. */
  lemma AnnouncedIsField(msg: seq<bv8>)
    requires |msg| >= 4
    ensures Announced(msg) as nat == Field(msg, 9, 32)
  {
    hide Field, Whole, WithByte, Announced, Masked;
    AnnouncedIsWhole(msg);
    NarrowValue(Announced(msg));
    WholeBytes(msg, 1, msg[1]);
    MaskNothing(msg[1]);
    WholeIsField(msg, 1, 0, 3);
  }

  lemma MaskNothing(b: bv8)
    ensures Masked(b, 0) == b
  {
  }
}
