/** The aircraft identification: extracted from an extended squitter (mode_s.c, ais_charset.c)
    and packed again for ASTERIX (airnav_asterix.c). */
module TargetId {
  import opened Asterix
  import opened Bits
  import opened Bytes
  import opened Division
  import opened Fields

  const AIS_LETTERS_1: string := "@ABCDEFGHIJKLMNO"
  const AIS_LETTERS_2: string := "PQRSTUVWXYZ[\\]^_"
  const AIS_SIGNS_1: string := " !\"#$%&'()*+,-./"
  const AIS_SIGNS_2: string := "0123456789:;<=>?"

  /** ais_charset[v] */
  function AisChar(v: nat): char
    requires v < 64
  {
    if v < 16 then AIS_LETTERS_1[v] else if v < 32 then AIS_LETTERS_2[v - 16]
    else if v < 48 then AIS_SIGNS_1[v - 32] else AIS_SIGNS_2[v - 48]
  }

  /** The low 6 bits of a character of the set are its index. */
  lemma AisCharIndex(v: nat)
    requires v < 64
    ensures AisChar(v) as int == if v < 32 then v + 64 else v
  {
  }

  /** `(n >> b) & 1` */
  function LowDigit(n: nat, b: nat): nat
    requires b < 6
  {
    if b == 0 then n % 2 else if b == 1 then n / 2 % 2 else if b == 2 then n / 4 % 2
    else if b == 3 then n / 8 % 2 else if b == 4 then n / 16 % 2 else n / 32 % 2
  }

  /** asterix_get_bit, for the low 6 bits of a character. */
  predicate CharBit(c: char, b: nat)
    requires b < 6
  {
    LowDigit(c as int, b) == 1
  }

  /** callsign[i] of decodeESIdentAndCategory. */
  function Callsign(me: seq<bv8>): (r: seq<char>)
    requires |me| == 7
    ensures |r| == 8
  {
    seq(8, i requires 0 <= i < 8 =>
      FieldBound(me, 9 + 6 * i, 14 + 6 * i);
      assert Power(6) == 64;
      AisChar(Field(me, 9 + 6 * i, 14 + 6 * i)))
  }

  /** The 48 bits of eight 6-bit characters, most significant first. */
  predicate Packed(data: seq<bv8>, tid: seq<char>, n: nat)
    requires |data| == 6 && |tid| == 8
  {
    forall k :: 0 <= k < 48 ==> (Bit(data, k) <==> k < n && CharBit(tid[k / 6], 5 - k % 6))
  }

  /** cat021_setTargetId: packs the low 6 bits of each character. */
  method SetTargetId(tid: seq<char>) returns (data: array<bv8>)
    requires |tid| == 8
    ensures fresh(data) && data.Length == 6 && Packed(data[..], tid, 48)
  {
    hide CharBit, BitOfByte;
    data := new bv8[6](_ => 0);
    forall k | 0 <= k < 8 ensures !BitOfByte(0, k) {
      Packet.NoBits(k);
    }
    var idxByte, idxBit := 0, 7;
    for i := 0 to 8
      invariant idxByte == 6 * i / 8 && idxBit == 7 - 6 * i % 8
      invariant Packed(data[..], tid, 6 * i)
    {
      idxByte, idxBit := PackChar(data, tid, i, idxByte, idxBit);
    }
  }

  /** The inner loop: the bits of one character, from the highest. */
  method PackChar(data: array<bv8>, tid: seq<char>, i: nat, byte: nat, bit: nat) returns (idxByte: nat, idxBit: nat)
    requires data.Length == 6 && |tid| == 8 && i < 8
    requires byte == 6 * i / 8 && bit == 7 - 6 * i % 8 && Packed(data[..], tid, 6 * i)
    modifies data
    ensures idxByte == 6 * (i + 1) / 8 && idxBit == 7 - 6 * (i + 1) % 8 && Packed(data[..], tid, 6 * (i + 1))
  {
    hide CharBit, BitOfByte, Packed;
    idxByte, idxBit := byte, bit;
    var b := 5;
    while b >= 0
      invariant -1 <= b <= 5
      invariant idxByte == (6 * i + 5 - b) / 8 && idxBit == 7 - (6 * i + 5 - b) % 8
      invariant Packed(data[..], tid, 6 * i + 5 - b)
    {
      ghost var before, t := data[..], 6 * i + 5 - b;
      assert t / 6 == i && 5 - t % 6 == b;
      if CharBit(tid[i], b) {
        SetBit(data, idxByte, idxBit);
        OneMoreBit(before, tid, t, data[..]);
      } else {
        NoMoreBit(before, tid, t);
      }
      if idxBit == 0 {
        idxBit := 7;
        idxByte := idxByte + 1;
      } else {
        idxBit := idxBit - 1;
      }
      b := b - 1;
    }
  }

  lemma OneMoreBit(before: seq<bv8>, tid: seq<char>, t: nat, after: seq<bv8>)
    requires |before| == |after| == 6 && |tid| == 8 && t < 48
      && Packed(before, tid, t) && CharBit(tid[t / 6], 5 - t % 6)
    requires forall j :: 0 <= j < 8 ==> (BitOfByte(after[t / 8], j) <==> BitOfByte(before[t / 8], j) || j == t % 8)
    requires forall k :: 0 <= k < 6 && k != t / 8 ==> after[k] == before[k]
    ensures Packed(after, tid, t + 1)
  {
    hide CharBit, BitOfByte;
    forall k | 0 <= k < 48 ensures Bit(after, k) <==> Bit(before, k) || k == t {
    }
  }

  lemma NoMoreBit(before: seq<bv8>, tid: seq<char>, t: nat)
    requires |before| == 6 && |tid| == 8 && t < 48 && Packed(before, tid, t) && !CharBit(tid[t / 6], 5 - t % 6)
    ensures Packed(before, tid, t + 1)
  {
    hide CharBit, Bit;
  }

  // ---- Round trip ---------------------------------------------------------------------------------

  /** The binary digits of a six-bit field. */
  lemma FieldDigits(me: seq<bv8>, f: nat, b: nat)
    requires 1 <= f && f + 5 <= 8 * |me| && b < 6
    ensures LowDigit(Field(me, f, f + 5), b) == Digit(GetBit(me, f + 5 - b))
  {
    hide GetBit, Field, LowDigit;
    FieldStep(me, f, f);
    FieldStep(me, f, f + 1);
    FieldStep(me, f, f + 2);
    FieldStep(me, f, f + 3);
    FieldStep(me, f, f + 4);
    FieldStep(me, f, f + 5);
    SixDigits(Digit(GetBit(me, f)), Digit(GetBit(me, f + 1)), Digit(GetBit(me, f + 2)),
              Digit(GetBit(me, f + 3)), Digit(GetBit(me, f + 4)), Digit(GetBit(me, f + 5)), b);
  }

  lemma FieldStep(me: seq<bv8>, f: nat, l: nat)
    requires 1 <= f <= l <= 8 * |me|
    ensures Field(me, f, l) == 2 * (if l == f then 0 else Field(me, f, l - 1)) + Digit(GetBit(me, l))
  {
  }

  lemma SixDigits(d0: nat, d1: nat, d2: nat, d3: nat, d4: nat, d5: nat, b: nat)
    requires d0 <= 1 && d1 <= 1 && d2 <= 1 && d3 <= 1 && d4 <= 1 && d5 <= 1 && b < 6
    ensures var n := 2 * (2 * (2 * (2 * (2 * d0 + d1) + d2) + d3) + d4) + d5;
      LowDigit(n, b) == if b == 0 then d5 else if b == 1 then d4 else if b == 2 then d3
        else if b == 3 then d2 else if b == 4 then d1 else d0
  {
    hide LowDigit;
    var n1 := 2 * d0 + d1;
    var n2 := 2 * n1 + d2;
    var n3 := 2 * n2 + d3;
    var n4 := 2 * n3 + d4;
    var n5 := 2 * n4 + d5;
    Halved(d0, d1);
    Halved(n1, d2);
    Halved(n2, d3);
    Halved(n3, d4);
    Halved(n4, d5);
    DigitSteps(n5, n4, n3, n2, n1, b);
  }

  lemma DigitSteps(n5: nat, n4: nat, n3: nat, n2: nat, n1: nat, b: nat)
    requires n5 / 2 == n4 && n4 / 2 == n3 && n3 / 2 == n2 && n2 / 2 == n1 && b < 6
    ensures LowDigit(n5, b) == if b == 0 then n5 % 2 else if b == 1 then n4 % 2 else if b == 2 then n3 % 2
      else if b == 3 then n2 % 2 else if b == 4 then n1 % 2 else n1 / 2 % 2
  {
    RepeatedHalves(n5);
  }

  /** The low 6 bits of a callsign character are the bits it was extracted from. */
  lemma CallsignBits(me: seq<bv8>, i: nat, b: nat)
    requires |me| == 7 && i < 8 && b < 6
    ensures CharBit(Callsign(me)[i], b) <==> GetBit(me, 14 + 6 * i - b)
  {
    hide GetBit, Field, AisChar;
    FieldBound(me, 9 + 6 * i, 14 + 6 * i);
    assert Power(6) == 64;
    var v := Field(me, 9 + 6 * i, 14 + 6 * i);
    AisCharIndex(v);
    FieldDigits(me, 9 + 6 * i, b);
    LowDigitKept(v, b);
  }

  lemma LowDigitKept(v: nat, b: nat)
    requires v < 64 && b < 6
    ensures LowDigit(v + 64, b) == LowDigit(v, b)
  {
    if b == 1 {
      assert (v + 64) / 2 == v / 2 + 32;
    } else if b == 2 {
      assert (v + 64) / 4 == v / 4 + 16;
    } else if b == 3 {
      assert (v + 64) / 8 == v / 8 + 8;
    } else if b == 4 {
      assert (v + 64) / 16 == v / 16 + 4;
    } else if b == 5 {
      assert (v + 64) / 32 == v / 32 + 2;
    }
  }

  /** Packing an extracted callsign restores the 48 bits it came from. */
  lemma TargetIdRoundTrip(me: seq<bv8>, data: seq<bv8>)
    requires |me| == 7 && |data| == 6 && Packed(data, Callsign(me), 48)
    ensures data == me[1..]
  {
    hide CharBit, BitOfByte, Callsign;
    forall k | 0 <= k < 48 ensures Bit(data, k) == Bit(me[1..], k) {
      CallsignBits(me, k / 6, 5 - k % 6);
      assert me[1..][k / 8] == me[(k + 8) / 8];
    }
    MessageExtensionality(data, me[1..]);
  }
}
