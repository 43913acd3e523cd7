/** The ASTERIX category 021 record encoder (airnav_asterix.c). */
module Asterix {
  import opened Bits
  import opened Bytes
  import opened Options

  const MAX_ITEMS: nat := 100
  const MAX_FSPEC_BYTES: nat := 10
  const CATEGORY: bv8 := 21

  // ---- Items and their field specification ------------------------------------------------------

  /** The item data by field reference number. */
  type Fields = seq<Option<seq<bv8>>>

  /** Items have field reference numbers 1 to 70. */
  predicate Used(f: Fields, frn: nat) {
    frn < |f| && f[frn].Some?
  }

  predicate InRange(f: Fields) {
    |f| == MAX_ITEMS && forall frn :: 0 <= frn < |f| && f[frn].Some? ==> 1 <= frn <= 7 * MAX_FSPEC_BYTES
  }

  /** There is an item in field specification byte b or a later one. */
  ghost predicate Reaches(f: Fields, b: nat) {
    exists frn: nat :: 7 * b < frn && Used(f, frn)
  }

  /** Each byte holds the presence bits of seven items and an extension bit, which says that there
      are more bytes; the bytes in use are those up to the last item. */
  ghost predicate FspecOk(f: Fields, fspec: seq<bv8>, inuse: seq<bool>) {
    && InRange(f) && |fspec| == |inuse| == MAX_FSPEC_BYTES
    && (forall b :: 0 <= b < MAX_FSPEC_BYTES ==> (inuse[b] <==> Reaches(f, b)))
    && (forall b :: 0 <= b < MAX_FSPEC_BYTES ==> (BitOfByte(fspec[b], 7) <==> Reaches(f, b + 1)))
    && (forall b, k :: 0 <= b < MAX_FSPEC_BYTES && 0 <= k < 7 ==> (BitOfByte(fspec[b], k) <==> Used(f, 7 * b + k + 1)))
  }

  /** The field specification in numbers: item 1 is the most significant bit of the first byte, seven
      items to a byte, and the least significant bit says that there are more bytes. */
  lemma FspecInBytes(f: Fields, fspec: seq<bv8>, inuse: seq<bool>, b: nat)
    requires FspecOk(f, fspec, inuse) && b < MAX_FSPEC_BYTES
    ensures fspec[b] & 0x80 != 0 <==> Used(f, 7 * b + 1)
    ensures fspec[b] & 0x40 != 0 <==> Used(f, 7 * b + 2)
    ensures fspec[b] & 0x20 != 0 <==> Used(f, 7 * b + 3)
    ensures fspec[b] & 0x10 != 0 <==> Used(f, 7 * b + 4)
    ensures fspec[b] & 0x08 != 0 <==> Used(f, 7 * b + 5)
    ensures fspec[b] & 0x04 != 0 <==> Used(f, 7 * b + 6)
    ensures fspec[b] & 0x02 != 0 <==> Used(f, 7 * b + 7)
    ensures fspec[b] & 0x01 != 0 <==> Reaches(f, b + 1)
  {
    hide BitOfByte, Used, Reaches;
    ByteFlags(fspec[b]);
    FspecBits(f, fspec, inuse, b);
  }

  lemma FspecBits(f: Fields, fspec: seq<bv8>, inuse: seq<bool>, b: nat)
    requires FspecOk(f, fspec, inuse) && b < MAX_FSPEC_BYTES
    ensures BitOfByte(fspec[b], 7) <==> Reaches(f, b + 1)
    ensures forall k: nat :: k < 7 ==> (BitOfByte(fspec[b], k) <==> Used(f, 7 * b + k + 1))
  {
    hide BitOfByte;
  }

  /** The bytes in use form a prefix, and the extension bit is set on all of them but the last. */
  lemma FspecIsAChain(f: Fields, fspec: seq<bv8>, inuse: seq<bool>) returns (n: nat)
    requires FspecOk(f, fspec, inuse)
    ensures n <= MAX_FSPEC_BYTES
    ensures forall b :: 0 <= b < MAX_FSPEC_BYTES ==> (inuse[b] <==> b < n)
    ensures forall b :: 0 <= b < n ==> (BitOfByte(fspec[b], 7) <==> b < n - 1)
    ensures forall frn: nat :: Used(f, frn) ==> 1 <= frn <= 7 * n
  {
    hide BitOfByte;
    n := 0;
    while n < MAX_FSPEC_BYTES && inuse[n]
      invariant n <= MAX_FSPEC_BYTES
      invariant forall b :: 0 <= b < n ==> inuse[b]
    {
      n := n + 1;
    }
    forall b | n <= b < MAX_FSPEC_BYTES ensures !inuse[b] {
      ReachesEarlier(f, n, b);
    }
    forall frn: nat | Used(f, frn) ensures 1 <= frn <= 7 * n {
      UsedReaches(f, frn, n);
    }
    if n > 0 {
      NothingReached(f, n);
    }
  }

  lemma ReachesEarlier(f: Fields, a: nat, b: nat)
    requires a <= b
    ensures Reaches(f, b) ==> Reaches(f, a)
  {
    if Reaches(f, b) {
      var frn: nat :| 7 * b < frn && Used(f, frn);
      assert 7 * a < frn;
    }
  }

  lemma UsedReaches(f: Fields, frn: nat, n: nat)
    ensures Used(f, frn) && 7 * n < frn ==> Reaches(f, n)
  {
  }

  lemma NothingReached(f: Fields, n: nat)
    requires forall frn: nat :: Used(f, frn) ==> frn <= 7 * n
    ensures !Reaches(f, n)
  {
  }

  // ---- Setting an item ----------------------------------------------------------------------------

  lemma OrRaw(a: bv8, b: bv8, m: bv8)
    ensures ((a | b) & m != 0) <==> (a & m != 0) || (b & m != 0)
  {
  }

  lemma MaskPairs(i: nat, j: nat)
    requires i < 8 && j < 8
    ensures Selects(Mask(j), Mask(i)) <==> i == j
  {
  }

  lemma SetBitOfByte(x: bv8, i: nat, j: nat)
    requires i < 8 && j < 8
    ensures BitOfByte(x | Mask(i), j) <==> BitOfByte(x, j) || i == j
  {
    MaskPairs(i, j);
    var a, m := Mask(i), Mask(j);
    hide Mask;
    OrRaw(x, a, m);
  }

  /** map2bit */
  function Map2Bit(item: nat): (bit: nat)
    requires 1 <= item <= 7
    ensures bit == 8 - item
  {
    if item == 1 then 7 else if item == 2 then 6 else if item == 3 then 5 else if item == 4 then 4
    else if item == 5 then 3 else if item == 6 then 2 else 1
  }

  /** asterix_set_bit: positions count from the least significant bit. */
  method SetBit(a: array<bv8>, i: nat, position: nat)
    requires i < a.Length && position < 8
    modifies a
    ensures forall j :: 0 <= j < 8 ==> (BitOfByte(a[i], j) <==> BitOfByte(old(a[i]), j) || j == 7 - position)
    ensures forall k :: 0 <= k < a.Length && k != i ==> a[k] == old(a[k])
  {
    hide BitOfByte, Mask;
    a[i] := a[i] | Mask(7 - position);
    forall j | 0 <= j < 8 ensures BitOfByte(a[i], j) <==> BitOfByte(old(a[i]), j) || j == 7 - position {
      SetBitOfByte(old(a[i]), 7 - position, j);
    }
  }

  /** struct asterixPacketDef_cat21 */
  class Packet {
    const fspec: array<bv8>
    const inuse: array<bool>
    const fields: array<Option<seq<bv8>>>

    ghost predicate Shape() {
      && fspec as object != inuse && fspec as object != fields && inuse as object != fields
      && fspec.Length == inuse.Length == MAX_FSPEC_BYTES && fields.Length == MAX_ITEMS
    }

    ghost predicate Valid()
      reads fspec, inuse, fields
    {
      Shape() && FspecOk(fields[..], fspec[..], inuse[..])
    }

    /** prepareAsterixPacket_cat21 */
    constructor ()
      ensures Valid() && fresh(fspec) && fresh(inuse) && fresh(fields)
      ensures forall frn :: 0 <= frn < MAX_ITEMS ==> fields[frn] == None
    {
      fspec := new bv8[MAX_FSPEC_BYTES](_ => 0);
      inuse := new bool[MAX_FSPEC_BYTES](_ => false);
      fields := new Option<seq<bv8>>[MAX_ITEMS](_ => None);
      new;
      forall k | 0 <= k < 8 ensures !BitOfByte(0, k) {
        NoBits(k);
      }
    }

    static lemma NoBits(k: nat)
      requires k < 8
      ensures !BitOfByte(0, k)
    {
    }

    /** asterix_set_byte_inuse */
    method SetByteInUse(byte: nat)
      requires Shape() && byte < MAX_FSPEC_BYTES
      modifies fspec, inuse
      ensures forall b :: 0 <= b < MAX_FSPEC_BYTES ==> inuse[b] == (old(inuse[b]) || b <= byte)
      ensures forall b, k :: 0 <= b < MAX_FSPEC_BYTES && 0 <= k < 8 ==>
        (BitOfByte(fspec[b], k) <==> BitOfByte(old(fspec[b]), k) || (b < byte && k == 7))
    {
      hide BitOfByte;
      inuse[byte] := true;
      for i := 0 to byte
        invariant inuse[byte]
        invariant forall b :: 0 <= b < MAX_FSPEC_BYTES && b != byte ==> inuse[b] == (old(inuse[b]) || b < i)
        invariant forall b, k :: 0 <= b < MAX_FSPEC_BYTES && 0 <= k < 8 ==>
          (BitOfByte(fspec[b], k) <==> BitOfByte(old(fspec[b]), k) || (b < i && k == 7))
      {
        SetBit(fspec, i, 0);
        inuse[i] := true;
      }
    }

    /** set_frn_inuse */
    method SetFrnInUse(frn: nat)
      requires Shape() && 1 <= frn <= 7 * MAX_FSPEC_BYTES
      modifies fspec, inuse
      ensures var byte, bit := (frn - 1) / 7, (frn - 1) % 7;
        && (forall b :: 0 <= b < MAX_FSPEC_BYTES ==> inuse[b] == (old(inuse[b]) || b <= byte))
        && (forall b, k :: 0 <= b < MAX_FSPEC_BYTES && 0 <= k < 8 ==>
              (BitOfByte(fspec[b], k) <==>
               BitOfByte(old(fspec[b]), k) || (b < byte && k == 7) || (b == byte && k == bit)))
    {
      hide BitOfByte;
      var number := frn / 7;
      if frn % 7 > 0 {
        number := number + 1;
      }
      SetBit(fspec, number - 1, Map2Bit(frn - (number - 1) * 7));
      SetByteInUse(number - 1);
    }

    /** Any of the item setters: presence bits, then the data. */
    method SetItem(frn: nat, data: seq<bv8>)
      requires Valid() && 1 <= frn <= 7 * MAX_FSPEC_BYTES
      modifies fspec, inuse, fields
      ensures Valid() && fields[..] == old(fields[..])[frn := Some(data)]
    {
      hide BitOfByte, FspecOk;
      ghost var f, s, u := fields[..], fspec[..], inuse[..];
      SetFrnInUse(frn);
      fields[frn] := Some(data);
      assert fields[..] == f[frn := Some(data)];
      ItemSet(f, s, u, frn, data, fspec[..], inuse[..]);
    }
  }

  lemma ItemSet(f: Fields, s: seq<bv8>, u: seq<bool>, frn: nat, data: seq<bv8>, s': seq<bv8>, u': seq<bool>)
    requires FspecOk(f, s, u) && 1 <= frn <= 7 * MAX_FSPEC_BYTES && |s'| == |u'| == MAX_FSPEC_BYTES
    requires var byte, bit := (frn - 1) / 7, (frn - 1) % 7;
      && (forall b :: 0 <= b < MAX_FSPEC_BYTES ==> u'[b] == (u[b] || b <= byte))
      && (forall b, k :: 0 <= b < MAX_FSPEC_BYTES && 0 <= k < 8 ==>
            (BitOfByte(s'[b], k) <==> BitOfByte(s[b], k) || (b < byte && k == 7) || (b == byte && k == bit)))
    ensures FspecOk(f[frn := Some(data)], s', u')
  {
    hide BitOfByte;
    var f' := f[frn := Some(data)];
    forall b: nat ensures Reaches(f', b) <==> Reaches(f, b) || 7 * b < frn {
      ReachesMore(f, frn, data, b);
    }
    forall x: nat ensures Used(f', x) <==> Used(f, x) || x == frn {
    }
  }

  lemma ReachesMore(f: Fields, frn: nat, data: seq<bv8>, b: nat)
    requires frn < |f|
    ensures Reaches(f[frn := Some(data)], b) <==> Reaches(f, b) || 7 * b < frn
  {
    var f' := f[frn := Some(data)];
    if Reaches(f, b) {
      var x: nat :| 7 * b < x && Used(f, x);
      assert Used(f', x);
    }
    if 7 * b < frn {
      assert Used(f', frn);
    }
    if Reaches(f', b) {
      var x: nat :| 7 * b < x && Used(f', x);
      assert x == frn || Used(f, x);
    }
  }
}
