/** Serializing a category 021 record (airnav_asterix.c), and reading it back. */
module AsterixRecord {
  import opened Asterix
  import opened Bits
  import opened Bytes
  import opened Options

  // ---- What is sent -------------------------------------------------------------------------------

  /** The data of the items from number i on. */
  function Data(f: Fields, i: nat): seq<bv8>
    requires i <= |f|
    decreases |f| - i
  {
    if i == |f| then [] else (if f[i].Some? then f[i].value else []) + Data(f, i + 1)
  }

  /** The field specification bytes in use, from byte i on. */
  function FspecInUse(fspec: seq<bv8>, inuse: seq<bool>, i: nat): seq<bv8>
    requires i <= |fspec| == |inuse|
    decreases |fspec| - i
  {
    if i == |fspec| then [] else (if inuse[i] then [fspec[i]] else []) + FspecInUse(fspec, inuse, i + 1)
  }

  function Length(f: Fields, fspec: seq<bv8>, inuse: seq<bool>): nat
    requires |fspec| == |inuse|
  {
    3 + |FspecInUse(fspec, inuse, 0)| + |Data(f, 0)|
  }

  /** The low byte of the length. */
  function LengthByte(len: nat): bv8 {
    (len % 256) as bv8
  }

  lemma LengthByteIs(len: nat)
    ensures DeclaredLength(0, LengthByte(len)) == len % 256
  {
    StoredNumber(len % 256);
  }

  /** The record: only the low byte of the length is stored. */
  function Record(f: Fields, fspec: seq<bv8>, inuse: seq<bool>): seq<bv8>
    requires |fspec| == |inuse|
  {
    [CATEGORY, 0, LengthByte(Length(f, fspec, inuse))] + FspecInUse(fspec, inuse, 0) + Data(f, 0)
  }

  /** The two size loops of asterix_SendCat21Packet. */
  method Sizes(p: Packet) returns (dataSize: nat, fspecSize: nat)
    requires p.Shape()
    ensures dataSize == |Data(p.fields[..], 0)| && fspecSize == |FspecInUse(p.fspec[..], p.inuse[..], 0)|
  {
    dataSize := 0;
    for i := 0 to MAX_ITEMS
      invariant dataSize + |Data(p.fields[..], i)| == |Data(p.fields[..], 0)|
    {
      if p.fields[i].Some? {
        dataSize := dataSize + |p.fields[i].value|;
      }
    }
    fspecSize := 0;
    for i := 0 to MAX_FSPEC_BYTES
      invariant fspecSize + |FspecInUse(p.fspec[..], p.inuse[..], i)| == |FspecInUse(p.fspec[..], p.inuse[..], 0)|
    {
      if p.inuse[i] {
        fspecSize := fspecSize + 1;
      }
    }
  }

  /** Copies s to position `at` of out. */
  method Put(out: array<bv8>, at: nat, s: seq<bv8>) returns (next: nat)
    requires at + |s| <= out.Length
    modifies out
    ensures next == at + |s| && out[..next] == old(out[..at]) + s
  {
    forall x | 0 <= x < |s| {
      out[at + x] := s[x];
    }
    next := at + |s|;
  }

  /** asterix_SendCat21Packet up to the socket. */
  method Serialize(p: Packet) returns (out: array<bv8>)
    requires p.Shape()
    ensures out[..] == Record(p.fields[..], p.fspec[..], p.inuse[..])
  {
    hide Data, FspecInUse, FspecOk, LengthByte;
    ghost var f, s, u := p.fields[..], p.fspec[..], p.inuse[..];
    var dataSize, fspecSize := Sizes(p);
    var datalen := 3 + (dataSize + fspecSize);
    out := new bv8[datalen];
    out[0] := CATEGORY;
    out[1] := 0;
    out[2] := LengthByte(datalen);
    ghost var header := out[..3];
    assert header == [CATEGORY, 0, LengthByte(datalen)];
    var cur := 3;
    cur := PutFspec(out, cur, p);
    assert out[..cur] == header + FspecInUse(s, u, 0);
    cur := PutData(out, cur, p);
    assert out[..cur] == out[..];
  }

  lemma NextData(f: Fields, i: nat)
    requires i < |f|
    ensures Data(f, i) == (if f[i].Some? then f[i].value else []) + Data(f, i + 1)
    ensures Data(f, |f|) == []
  {
  }

  method PutFspec(out: array<bv8>, start: nat, p: Packet) returns (cur: nat)
    requires p.Shape() && out as object != p.fspec && out as object != p.inuse && out as object != p.fields
    requires start + |FspecInUse(p.fspec[..], p.inuse[..], 0)| <= out.Length
    modifies out
    ensures cur == start + |FspecInUse(p.fspec[..], p.inuse[..], 0)|
    ensures out[..cur] == old(out[..start]) + FspecInUse(p.fspec[..], p.inuse[..], 0)
  {
    ghost var s, u, before := p.fspec[..], p.inuse[..], out[..start];
    cur := start;
    for i := 0 to MAX_FSPEC_BYTES
      invariant cur + |FspecInUse(s, u, i)| == start + |FspecInUse(s, u, 0)| && p.fspec[..] == s && p.inuse[..] == u
      invariant out[..cur] + FspecInUse(s, u, i) == before + FspecInUse(s, u, 0)
    {
      if p.inuse[i] {
        cur := Put(out, cur, [p.fspec[i]]);
      }
    }
  }

  method PutData(out: array<bv8>, start: nat, p: Packet) returns (cur: nat)
    requires p.Shape() && out as object != p.fspec && out as object != p.inuse && out as object != p.fields
    requires start + |Data(p.fields[..], 0)| <= out.Length
    modifies out
    ensures cur == start + |Data(p.fields[..], 0)|
    ensures out[..cur] == old(out[..start]) + Data(p.fields[..], 0)
  {
    hide Data;
    ghost var f, before := p.fields[..], out[..start];
    cur := start;
    for i := 0 to MAX_ITEMS
      invariant cur + |Data(f, i)| == start + |Data(f, 0)| && p.fields[..] == f
      invariant out[..cur] + Data(f, i) == before + Data(f, 0)
    {
      NextData(f, i);
      if p.fields[i].Some? {
        ghost var d, done := f[i].value, out[..cur];
        cur := Put(out, cur, p.fields[i].value);
        assert done + (d + Data(f, i + 1)) == (done + d) + Data(f, i + 1);
      } else {
        assert [] + Data(f, i + 1) == Data(f, i + 1);
      }
    }
    NextData(f, 0);
  }

  // ---- Reading a record ---------------------------------------------------------------------------

  datatype Item = Item(frn: nat, data: seq<bv8>)

  /** The length of the chain of field specification bytes at the front of s. */
  function FspecLength(s: seq<bv8>): (r: Option<nat>)
    ensures r.Some? ==> 0 < r.value <= |s|
  {
    if s == [] then None
    else if !BitOfByte(s[0], 7) then Some(1)
    else
      var r := FspecLength(s[1..]);
      if r.Some? then Some(r.value + 1) else None
  }

  predicate Present(fspec: seq<bv8>, frn: nat)
    requires 1 <= frn <= 7 * |fspec|
  {
    BitOfByte(fspec[(frn - 1) / 7], (frn - 1) % 7)
  }

  /** The items from number frn on, given the size of every item. */
  function ParseItems(fspec: seq<bv8>, frn: nat, sizes: seq<nat>, body: seq<bv8>): Option<seq<Item>>
    requires frn >= 1
    decreases 7 * |fspec| + 1 - frn
  {
    if frn > 7 * |fspec| then if body == [] then Some([]) else None
    else if !Present(fspec, frn) then ParseItems(fspec, frn + 1, sizes, body)
    else if frn >= |sizes| || |body| < sizes[frn] then None
    else
      var rest := ParseItems(fspec, frn + 1, sizes, body[sizes[frn]..]);
      if rest.Some? then Some([Item(frn, body[..sizes[frn]])] + rest.value) else None
  }

  function DeclaredLength(high: bv8, low: bv8): nat {
    256 * high as int + low as int
  }

  /** A record, as its receiver reads it. */
  function Parse(record: seq<bv8>, sizes: seq<nat>): Option<seq<Item>> {
    if |record| < 3 || record[0] != CATEGORY || DeclaredLength(record[1], record[2]) != |record| then None
    else if |record| == 3 then Some([])
    else
      var n := FspecLength(record[3..]);
      if n.None? then None else ParseItems(record[3..3 + n.value], 1, sizes, record[3 + n.value..])
  }

  /** The items of a packet in the order of their numbers, from number i on. */
  function Items(f: Fields, i: nat): seq<Item>
    requires i <= |f|
    decreases |f| - i
  {
    if i == |f| then [] else (if f[i].Some? then [Item(i, f[i].value)] else []) + Items(f, i + 1)
  }

  /** Every item has the size the table of items says. */
  predicate SizesFit(f: Fields, sizes: seq<nat>) {
    |sizes| == |f| && forall frn :: 0 <= frn < |f| && f[frn].Some? ==> |f[frn].value| == sizes[frn]
  }

  // ---- Round trip ---------------------------------------------------------------------------------

  lemma {:induction false} PrefixInUse(fspec: seq<bv8>, inuse: seq<bool>, i: nat, n: nat)
    requires |fspec| == |inuse| && i <= |fspec| && n <= |fspec|
    requires forall b :: 0 <= b < |fspec| ==> (inuse[b] <==> b < n)
    ensures FspecInUse(fspec, inuse, i) == if i < n then fspec[i..n] else []
    decreases |fspec| - i
  {
    hide FspecInUse;
    NextFspec(fspec, inuse, i);
    if i < |fspec| {
      PrefixInUse(fspec, inuse, i + 1, n);
      assert i < n ==> fspec[i..n] == [fspec[i]] + fspec[i + 1..n];
    }
  }

  lemma NextFspec(fspec: seq<bv8>, inuse: seq<bool>, i: nat)
    requires i <= |fspec| == |inuse|
    ensures i < |fspec| && inuse[i] ==> FspecInUse(fspec, inuse, i) == [fspec[i]] + FspecInUse(fspec, inuse, i + 1)
    ensures i < |fspec| && !inuse[i] ==> FspecInUse(fspec, inuse, i) == FspecInUse(fspec, inuse, i + 1)
    ensures i == |fspec| ==> FspecInUse(fspec, inuse, i) == []
  {
  }

  lemma {:induction false} ChainLength(s: seq<bv8>, n: nat, body: seq<bv8>)
    requires 0 < n == |s| && (forall b :: 0 <= b < n ==> (BitOfByte(s[b], 7) <==> b < n - 1))
    ensures FspecLength(s + body) == Some(n)
    decreases n
  {
    hide BitOfByte;
    var t := s + body;
    assert t[0] == s[0];
    if n > 1 {
      assert t[1..] == s[1..] + body;
      ChainLength(s[1..], n - 1, body);
    }
  }

  lemma {:induction false} NoItems(f: Fields, i: nat)
    requires i <= |f| && forall k :: i <= k < |f| ==> f[k].None?
    ensures Data(f, i) == [] && Items(f, i) == []
    decreases |f| - i
  {
    if i < |f| {
      NoItems(f, i + 1);
    }
  }

  /** The presence bits of the first n bytes say which items there are. */
  ghost predicate Describes(fspec: seq<bv8>, f: Fields) {
    && 7 * |fspec| < |f|
    && (forall frn :: 1 <= frn <= 7 * |fspec| ==> (Present(fspec, frn) <==> f[frn].Some?))
    && (forall frn :: 7 * |fspec| < frn < |f| ==> f[frn].None?)
  }

  lemma {:induction false} ItemsRoundTrip(fspec: seq<bv8>, f: Fields, sizes: seq<nat>, frn: nat)
    requires Describes(fspec, f) && SizesFit(f, sizes) && 1 <= frn <= 7 * |fspec| + 1
    ensures ParseItems(fspec, frn, sizes, Data(f, frn)) == Some(Items(f, frn))
    decreases 7 * |fspec| + 1 - frn
  {
    hide Present, Data, Items;
    if frn == 7 * |fspec| + 1 {
      NoItems(f, frn);
    } else {
      ItemsRoundTrip(fspec, f, sizes, frn + 1);
      NextData(f, frn);
      NextItems(f, frn);
      if f[frn].Some? {
        TakeItem(f[frn].value, Data(f, frn + 1), sizes[frn]);
      } else {
        NothingPrepended(Data(f, frn + 1), Items(f, frn + 1));
      }
    }
  }

  lemma NextItems(f: Fields, i: nat)
    requires i < |f|
    ensures Items(f, i) == (if f[i].Some? then [Item(i, f[i].value)] else []) + Items(f, i + 1)
  {
  }

  lemma NothingPrepended(d: seq<bv8>, items: seq<Item>)
    ensures [] + d == d && [] + items == items
  {
  }

  lemma TakeItem(d: seq<bv8>, rest: seq<bv8>, size: nat)
    requires |d| == size
    ensures (d + rest)[..size] == d && (d + rest)[size..] == rest
  {
  }

  lemma FspecDescribes(f: Fields, fspec: seq<bv8>, inuse: seq<bool>, n: nat)
    requires FspecOk(f, fspec, inuse) && n <= MAX_FSPEC_BYTES
    requires forall frn: nat :: Used(f, frn) ==> 1 <= frn <= 7 * n
    ensures Describes(fspec[..n], f)
  {
    hide BitOfByte;
    forall frn | 1 <= frn <= 7 * n ensures Present(fspec[..n], frn) <==> f[frn].Some? {
      var b, k := (frn - 1) / 7, (frn - 1) % 7;
      assert BitOfByte(fspec[b], k) <==> Used(f, 7 * b + k + 1);
    }
    forall frn | 7 * n < frn < |f| ensures f[frn].None? {
      assert !Used(f, frn);
    }
  }

  /** Reading a sent record gives back exactly the items that were set, in the order of their
      numbers, if the record has at most 255 bytes; a longer one is not read back at all, because
      the high byte of its length is always 0. */
  lemma RecordRoundTrip(f: Fields, fspec: seq<bv8>, inuse: seq<bool>, sizes: seq<nat>)
    requires FspecOk(f, fspec, inuse) && SizesFit(f, sizes)
    ensures Parse(Record(f, fspec, inuse), sizes) == if Length(f, fspec, inuse) <= 255 then Some(Items(f, 1)) else None
  {
    hide BitOfByte, FspecLength, Parse, ParseItems, FspecOk, FspecInUse, Data, Items, SizesFit,
      LengthByte, Record, Present, Reaches, Describes;
    FspecShape(f, fspec, inuse);
    var n := FspecIsAChain(f, fspec, inuse);
    FspecDescribes(f, fspec, inuse, n);
    var s, body := fspec[..n], Data(f, 1);
    var record := Record(f, fspec, inuse);
    RecordParts(f, fspec, inuse, n);
    if |record| > 255 {
      LongIsNotParsed(record, sizes);
    } else if n == 0 {
      NothingDescribed(s, f);
      EmptyIsParsed(record, sizes);
    } else {
      ChainLength(s, n, body);
      ItemsRoundTrip(s, f, sizes, 1);
      ShortIsParsed(record, s, body, sizes);
    }
  }

  lemma RecordParts(f: Fields, fspec: seq<bv8>, inuse: seq<bool>, n: nat)
    requires |fspec| == |inuse| && n <= |fspec| && |f| > 0 && f[0].None?
    requires forall b :: 0 <= b < |fspec| ==> (inuse[b] <==> b < n)
    ensures var record := Record(f, fspec, inuse);
      |record| == Length(f, fspec, inuse) == 3 + n + |Data(f, 1)|
      && record == [CATEGORY, 0, LengthByte(|record|)] + fspec[..n] + Data(f, 1)
  {
    hide FspecInUse, Data, LengthByte;
    PrefixInUse(fspec, inuse, 0, n);
    FirstItem(f);
  }

  lemma NothingDescribed(fspec: seq<bv8>, f: Fields)
    requires Describes(fspec, f) && fspec == []
    ensures Data(f, 1) == [] && Items(f, 1) == []
  {
    NoItems(f, 1);
  }

  lemma LongIsNotParsed(record: seq<bv8>, sizes: seq<nat>)
    requires |record| > 255 && record[..3] == [CATEGORY, 0, LengthByte(|record|)]
    ensures Parse(record, sizes) == None
  {
    hide FspecLength, ParseItems, LengthByte, DeclaredLength;
    assert record[2] == record[..3][2] && record[1] == record[..3][1];
    LengthByteIs(|record|);
  }

  lemma EmptyIsParsed(record: seq<bv8>, sizes: seq<nat>)
    requires record == [CATEGORY, 0, LengthByte(3)]
    ensures Parse(record, sizes) == Some([])
  {
    hide FspecLength, ParseItems, LengthByte, DeclaredLength;
    LengthByteIs(3);
  }

  lemma ShortIsParsed(record: seq<bv8>, s: seq<bv8>, body: seq<bv8>, sizes: seq<nat>)
    requires 3 < |record| <= 255 && record == [CATEGORY, 0, LengthByte(|record|)] + s + body
    requires FspecLength(s + body) == Some(|s|)
    ensures Parse(record, sizes) == ParseItems(s, 1, sizes, body)
  {
    hide FspecLength, ParseItems, LengthByte, DeclaredLength;
    LengthByteIs(|record|);
    assert record[3..] == s + body;
    assert record[3..3 + |s|] == s && record[3 + |s|..] == body;
  }

  lemma FspecShape(f: Fields, fspec: seq<bv8>, inuse: seq<bool>)
    requires FspecOk(f, fspec, inuse)
    ensures |f| == MAX_ITEMS && |fspec| == |inuse| == MAX_FSPEC_BYTES && f[0].None?
  {
    hide BitOfByte;
  }

  lemma FirstItem(f: Fields)
    requires |f| > 0 && f[0].None?
    ensures Data(f, 0) == Data(f, 1)
  {
  }

  // ---- A record that is too long --------------------------------------------------------------------

  /** The data of a packet with item k alone. */
  lemma {:induction false} DataOfOne(f: Fields, k: nat, i: nat)
    requires i <= |f| && k < |f| && f[k].Some? && forall x :: 0 <= x < |f| && x != k ==> f[x].None?
    ensures Data(f, i) == if i <= k then f[k].value else []
    decreases |f| - i
  {
    if i < |f| {
      DataOfOne(f, k, i + 1);
    }
  }

  /** Item 11 alone, with a declared size of 251 bytes: 256 bytes or more with the header and at
      least two FSPEC bytes, which are not read back. Sizes come from a specification file. */
  method LongRecordIsLost() returns (p: Packet, sizes: seq<nat>)
    ensures p.Valid() && SizesFit(p.fields[..], sizes)
    ensures p.fields[..] == seq(MAX_ITEMS, _ => None)[11 := Some(seq(251, _ => 0))]
    ensures Length(p.fields[..], p.fspec[..], p.inuse[..]) > 255
    ensures Parse(Record(p.fields[..], p.fspec[..], p.inuse[..]), sizes) == None
  {
    hide Parse, Record, FspecOk, FspecInUse, Data;
    var data: seq<bv8> := seq(251, _ => 0);
    p := new Packet();
    assert p.fields[..] == seq(MAX_ITEMS, _ => None);
    p.SetItem(11, data);
    sizes := seq(MAX_ITEMS, i => if i == 11 then 251 else 0);
    ghost var f, s, u := p.fields[..], p.fspec[..], p.inuse[..];
    FspecShape(f, s, u);
    ghost var n := FspecIsAChain(f, s, u);
    assert Used(f, 11);
    PrefixInUse(s, u, 0, n);
    DataOfOne(f, 11, 0);
    RecordRoundTrip(f, s, u, sizes);
  }
}
