/** The Beast wire format (net_io.c): an escaped frame encoder, and the frames a byte stream
    contains, defined without buffers or reads. */
module BeastFrame {
  import opened Options

  const ESCAPE: bv8 := 0x1a

  // ---- Frames ---------------------------------------------------------------------------

  /** The number of data bytes (time stamp, signal level, message) that follow a frame type,
      or 0 for a byte that is not a frame type: '1' Mode A/C, '2' short, '3' long, '4' status,
      '5' position. */
  function Payload(t: bv8): nat {
    if t == 0x31 then 9
    else if t == 0x32 then 14
    else if t == 0x33 || t == 0x34 || t == 0x35 then 21
    else 0
  }

  /** The number of bytes at the front of s that hold n data bytes, an escape byte counting
      together with the byte after it; None if s is too short. */
  function Take(s: seq<bv8>, n: nat): (r: Option<nat>)
    ensures r.Some? ==> n <= r.value <= |s| && r.value <= 2 * n
    ensures r.None? ==> |s| < 2 * n
  {
    if n == 0 then Some(0)
    else if s == [] then None
    else if s[0] == ESCAPE then
      if |s| == 1 then None
      else var r := Take(s[2..], n - 1);
        if r.Some? then Some(r.value + 2) else None
    else
      var r := Take(s[1..], n - 1);
      if r.Some? then Some(r.value + 1) else None
  }

  /** What a whole byte stream says: the complete frames in it, each as type byte followed by
      the escaped data, and the beginning of a frame that is still incomplete. Anything that
      is not part of a frame is skipped. */
  datatype Parsed = Parsed(frames: seq<seq<bv8>>, rest: seq<bv8>)

  function Parse(s: seq<bv8>): Parsed {
    if s == [] then Parsed([], [])
    else if s[0] != ESCAPE then Parse(s[1..])
    else if |s| == 1 then Parsed([], s)
    else if Payload(s[1]) == 0 then Parse(s[1..])
    else
      var r := Take(s[2..], Payload(s[1]));
      if r.None? then Parsed([], s)
      else
        var p := Parse(s[2 + r.value..]);
        Parsed([s[1..2 + r.value]] + p.frames, p.rest)
  }

  /** The longest incomplete frame has 43 bytes. */
  lemma {:induction false} RestIsShort(s: seq<bv8>)
    ensures |Parse(s).rest| <= 43
    ensures Parse(s).rest != [] ==> Parse(s).rest[0] == ESCAPE
    decreases |s|
  {
    if s == [] {
    } else if s[0] != ESCAPE {
      RestIsShort(s[1..]);
    } else if |s| == 1 {
    } else if Payload(s[1]) == 0 {
      RestIsShort(s[1..]);
    } else {
      var r := Take(s[2..], Payload(s[1]));
      if r.Some? {
        RestIsShort(s[2 + r.value..]);
      }
    }
  }

  lemma {:induction false} TakeMore(s: seq<bv8>, more: seq<bv8>, n: nat)
    requires Take(s, n).Some?
    ensures Take(s + more, n) == Take(s, n)
    decreases n
  {
    if n > 0 {
      if s[0] == ESCAPE {
        assert (s + more)[2..] == s[2..] + more;
        TakeMore(s[2..], more, n - 1);
      } else {
        assert (s + more)[1..] == s[1..] + more;
        TakeMore(s[1..], more, n - 1);
      }
    }
  }

  /** A frame starts at the front of s and is complete. */
  predicate StartsFrame(s: seq<bv8>) {
    |s| > 1 && s[0] == ESCAPE && Payload(s[1]) > 0 && Take(s[2..], Payload(s[1])).Some?
  }

  /** A frame starts at the front of s but its end is missing. */
  predicate StartsIncomplete(s: seq<bv8>) {
    && |s| > 0 && s[0] == ESCAPE
    && (|s| > 1 ==> Payload(s[1]) > 0 && Take(s[2..], Payload(s[1])).None?)
  }

  /** The length of the frame at the front of s, leading escape byte included. */
  function FrameLength(s: seq<bv8>): (n: nat)
    requires StartsFrame(s)
    ensures 2 < n <= |s|
  {
    2 + Take(s[2..], Payload(s[1])).value
  }

  lemma ParseCases(s: seq<bv8>)
    ensures s == [] ==> Parse(s) == Parsed([], [])
    ensures StartsIncomplete(s) ==> Parse(s) == Parsed([], s)
    ensures StartsFrame(s) ==> Parse(s) == Parsed([s[1..FrameLength(s)]] + Parse(s[FrameLength(s)..]).frames,
                                                  Parse(s[FrameLength(s)..]).rest)
    ensures s != [] && !StartsFrame(s) && !StartsIncomplete(s) ==> Parse(s) == Parse(s[1..])
  {
  }

  lemma StartsFrameMore(s: seq<bv8>, more: seq<bv8>)
    requires StartsFrame(s)
    ensures StartsFrame(s + more) && FrameLength(s + more) == FrameLength(s)
  {
    assert (s + more)[2..] == s[2..] + more;
    TakeMore(s[2..], more, Payload(s[1]));
  }

  lemma StartsNothingMore(s: seq<bv8>, more: seq<bv8>)
    requires s != [] && !StartsFrame(s) && !StartsIncomplete(s)
    ensures !StartsFrame(s + more) && !StartsIncomplete(s + more)
  {
  }

  /** Parsing can be interrupted anywhere and resumed from the incomplete frame. */
  lemma {:induction false} ParseResumes(s: seq<bv8>, more: seq<bv8>)
    ensures Parse(s + more)
         == Parsed(Parse(s).frames + Parse(Parse(s).rest + more).frames, Parse(Parse(s).rest + more).rest)
    decreases |s|
  {
    hide Parse, StartsFrame, StartsIncomplete, FrameLength;
    var all := s + more;
    ParseCases(s);
    ParseCases(all);
    if s == [] {
      assert all == more && [] + more == more;
    } else if StartsFrame(s) {
      StartsFrameMore(s, more);
      var n := FrameLength(s);
      assert 2 < n <= |s|;
      assert all[n..] == s[n..] + more && all[1..n] == s[1..n];
      ParseResumes(s[n..], more);
      assert Parse(all).frames == [s[1..n]] + (Parse(s[n..]).frames + Parse(Parse(s).rest + more).frames);
    } else if !StartsIncomplete(s) {
      StartsNothingMore(s, more);
      assert all[1..] == s[1..] + more;
      ParseResumes(s[1..], more);
    }
  }

  /** Garbage without an escape byte says nothing. */
  lemma {:induction false} GarbageIsSkipped(g: seq<bv8>, s: seq<bv8>)
    requires ESCAPE !in g
    ensures Parse(g + s) == Parse(s)
    decreases |g|
  {
    if g == [] {
      assert g + s == s;
    } else {
      assert (g + s)[1..] == g[1..] + s;
      GarbageIsSkipped(g[1..], s);
    }
  }

  // ---- Encoding -------------------------------------------------------------------------

  function Escaped(s: seq<bv8>): seq<bv8> {
    if s == [] then [] else (if s[0] == ESCAPE then [ESCAPE, ESCAPE] else [s[0]]) + Escaped(s[1..])
  }

  /** Removing the escapes from the front of s, n data bytes in all. */
  function Unescaped(s: seq<bv8>, n: nat): seq<bv8>
    requires Take(s, n).Some?
  {
    if n == 0 then [] else [s[0]] + Unescaped(if s[0] == ESCAPE then s[2..] else s[1..], n - 1)
  }

  lemma {:induction false} EscapeRoundTrip(s: seq<bv8>, more: seq<bv8>)
    ensures Take(Escaped(s) + more, |s|) == Some(|Escaped(s)|)
    ensures Unescaped(Escaped(s) + more, |s|) == s
    decreases |s|
  {
    if s != [] {
      EscapeRoundTrip(s[1..], more);
      var e := Escaped(s) + more;
      assert e[if s[0] == ESCAPE then 2 else 1..] == Escaped(s[1..]) + more;
    }
  }

  lemma {:induction false} EscapedAppend(a: seq<bv8>, b: seq<bv8>)
    ensures Escaped(a + b) == Escaped(a) + Escaped(b)
    decreases |a|
  {
    if a == [] {
      assert a + b == b;
    } else {
      assert (a + b)[1..] == a[1..] + b;
      EscapedAppend(a[1..], b);
    }
  }

  lemma {:induction false} EscapedLength(s: seq<bv8>)
    ensures |s| <= |Escaped(s)| <= 2 * |s|
  {
    if s != [] {
      EscapedLength(s[1..]);
    }
  }

  function Byte40(t: bv64): bv8 { ((t >> 40) & 0xff) as bv8 }
  function Byte32(t: bv64): bv8 { ((t >> 32) & 0xff) as bv8 }
  function Byte24(t: bv64): bv8 { ((t >> 24) & 0xff) as bv8 }
  function Byte16(t: bv64): bv8 { ((t >> 16) & 0xff) as bv8 }
  function Byte8(t: bv64): bv8 { ((t >> 8) & 0xff) as bv8 }
  function Byte0(t: bv64): bv8 { (t & 0xff) as bv8 }

  /** The big-endian bytes of the low 48 bits of a time stamp. */
  function TimestampBytes(t: bv64): (r: seq<bv8>)
    ensures |r| == 6
  {
    [Byte40(t), Byte32(t), Byte24(t), Byte16(t), Byte8(t), Byte0(t)]
  }

  /** A time stamp read one byte at a time, most significant first. */
  function TimestampOf(b: seq<bv8>): bv64 {
    if b == [] then 0 else PushByte(TimestampOf(b[..|b| - 1]), b[|b| - 1])
  }

  function PushByte(t: bv64, x: bv8): bv64 {
    (t << 8) | (x as bv64)
  }

  predicate IsMessageLength(n: nat) {
    n == 2 || n == 7 || n == 14
  }

  function TypeByte(n: nat): bv8
    requires IsMessageLength(n)
  {
    if n == 7 then 0x32 else if n == 14 then 0x33 else 0x31
  }

  /** One queued message: time stamp, signal level byte and message bytes. */
  datatype Item = Item(timestamp: bv64, signal: bv8, msg: seq<bv8>)

  predicate IsItem(i: Item) {
    IsMessageLength(|i.msg|)
  }

  /** The data bytes of a frame. */
  function Data(i: Item): seq<bv8> {
    TimestampBytes(i.timestamp) + [i.signal] + i.msg
  }

  /** What writeBeastMessage appends to the output buffer. */
  function Encode(i: Item): seq<bv8>
    requires IsItem(i)
  {
    [ESCAPE, TypeByte(|i.msg|)] + Escaped(Data(i))
  }

  /** What decodeBinMessage reads from a frame it does not ignore. The buffer it is given
      holds the whole frame. `modeAc` is Modes.mode_ac. */
  function Decode(frame: seq<bv8>, modeAc: bool): Option<Item>
    requires |frame| > 0 && Take(frame[1..], Payload(frame[0])).Some?
  {
    var n := if frame[0] == 0x31 && modeAc then 2 else if frame[0] == 0x32 then 7
      else if frame[0] == 0x33 then 14 else 0;
    if n == 0 then None
    else
      var d := Unescaped(frame[1..], n + 7);
      UnescapedLength(frame[1..], n + 7);
      Some(Item(TimestampOf(d[..6]), d[6], d[7..]))
  }

  lemma {:induction false} UnescapedLength(s: seq<bv8>, n: nat)
    requires Take(s, n).Some?
    ensures |Unescaped(s, n)| == n
    decreases n
  {
    if n > 0 {
      UnescapedLength(if s[0] == ESCAPE then s[2..] else s[1..], n - 1);
    }
  }

  function Low48(t: bv64): bv64 {
    t & 0xFFFF_FFFF_FFFF
  }

  /** Only the low 48 bits of a time stamp travel. */
  function Delivered(i: Item): Item {
    i.(timestamp := Low48(i.timestamp))
  }

  lemma PushByte40(t: bv64)
    ensures PushByte(0, Byte40(t)) == Low48(t) >> 40
  {
  }

  lemma PushByte32(t: bv64)
    ensures PushByte(Low48(t) >> 40, Byte32(t)) == Low48(t) >> 32
  {
  }

  lemma PushByte24(t: bv64)
    ensures PushByte(Low48(t) >> 32, Byte24(t)) == Low48(t) >> 24
  {
  }

  lemma PushByte16(t: bv64)
    ensures PushByte(Low48(t) >> 24, Byte16(t)) == Low48(t) >> 16
  {
  }

  lemma PushByte8(t: bv64)
    ensures PushByte(Low48(t) >> 16, Byte8(t)) == Low48(t) >> 8
  {
  }

  lemma PushByte0(t: bv64)
    ensures PushByte(Low48(t) >> 8, Byte0(t)) == Low48(t)
  {
  }

  lemma TimestampStep(b: seq<bv8>, k: nat)
    requires k < |b|
    ensures TimestampOf(b[..k + 1]) == PushByte(TimestampOf(b[..k]), b[k])
  {
    hide PushByte;
    assert b[..k + 1][..k] == b[..k];
  }

  lemma TimestampRoundTrip(t: bv64)
    ensures TimestampOf(TimestampBytes(t)) == Low48(t)
  {
    var b := TimestampBytes(t);
    assert TimestampOf(b[..0]) == 0;
    hide TimestampOf, PushByte, Byte40, Byte32, Byte24, Byte16, Byte8, Byte0, Low48;
    PushByte40(t);
    PushByte32(t);
    PushByte24(t);
    PushByte16(t);
    PushByte8(t);
    PushByte0(t);
    TimestampStep(b, 0);
    TimestampStep(b, 1);
    TimestampStep(b, 2);
    TimestampStep(b, 3);
    TimestampStep(b, 4);
    TimestampStep(b, 5);
    assert b[..6] == b;
  }

  /** The data bytes of an encoded frame are found again. */
  lemma EncodedFrame(i: Item)
    requires IsItem(i)
    ensures var frame := Encode(i)[1..];
      && |frame| == 1 + |Escaped(Data(i))| && frame[0] == TypeByte(|i.msg|) && Payload(frame[0]) == |i.msg| + 7
      && Take(frame[1..], |i.msg| + 7) == Some(|frame| - 1)
      && Unescaped(frame[1..], |i.msg| + 7) == Data(i)
  {
    hide Take, Unescaped, Escaped, TimestampBytes;
    var frame := Encode(i)[1..];
    assert frame[1..] == Escaped(Data(i)) + [];
    EscapeRoundTrip(Data(i), []);
  }

  /** Decoding inverts encoding; a reader without Mode A/C ignores the messages of two bytes. */
  lemma DecodeInvertsEncode(i: Item)
    requires IsItem(i)
    ensures var frame := Encode(i)[1..];
      && Payload(frame[0]) == |i.msg| + 7
      && Take(frame[1..], Payload(frame[0])) == Some(|frame| - 1)
      && Decode(frame, true) == Some(Delivered(i))
      && Decode(frame, false) == if |i.msg| == 2 then None else Some(Delivered(i))
  {
    EncodedFrame(i);
    TimestampRoundTrip(i.timestamp);
    var d := Data(i);
    assert d[..6] == TimestampBytes(i.timestamp) && d[6] == i.signal && d[7..] == i.msg;
    hide Take, Unescaped, Encode, Data, TimestampOf, TimestampBytes, Low48;
  }

  // ---- The format in numbers ------------------------------------------------------------------

  /** The data bytes of each kind of frame: '1' Mode A/C, '2' short and '3' long messages with time
      stamp and signal level, '4' status and '5' position as long as a long message. */
  predicate DataFits(t: bv8, n: nat) {
    || (t == 0x31 && n == 6 + 1 + 2)
    || (t == 0x32 && n == 6 + 1 + 7)
    || ((t == 0x33 || t == 0x34 || t == 0x35) && n == 6 + 1 + 14)
  }

  /** An escape byte, a type and so many data bytes, escaped, are exactly one frame. */
  lemma FrameIsParsed(t: bv8, d: seq<bv8>)
    requires DataFits(t, |d|)
    ensures Parse([0x1a, t] + Escaped(d)) == Parsed([[t] + Escaped(d)], [])
  {
    hide Parse, Take, Escaped, Unescaped, Payload, DataFits;
    var s := [0x1a, t] + Escaped(d);
    PayloadFits(t, |d|);
    EscapeRoundTrip(d, []);
    assert s[2..] == Escaped(d) + [];
    ParseCases(s);
    ParseCases([]);
    assert s[1..|s|] == [t] + Escaped(d) && s[|s|..] == [];
  }

  lemma PayloadFits(t: bv8, n: nat)
    ensures DataFits(t, n) <==> Payload(t) == n > 0
  {
  }

  /** Escaping doubles the escape byte and nothing else. */
  lemma EscapedByte(b: bv8)
    ensures Escaped([b]) == if b == 0x1a then [0x1a, 0x1a] else [b]
  {
    assert [b][1..] == [];
  }

  lemma BigEndianRaw(t: bv64)
    ensures ((((t >> 40) & 0xff) as bv8) as bv64) << 40 == t & 0xff00_0000_0000
    ensures ((((t >> 32) & 0xff) as bv8) as bv64) << 32 == t & 0xff_0000_0000
    ensures ((((t >> 24) & 0xff) as bv8) as bv64) << 24 == t & 0xff00_0000
    ensures ((((t >> 16) & 0xff) as bv8) as bv64) << 16 == t & 0xff_0000
    ensures ((((t >> 8) & 0xff) as bv8) as bv64) << 8 == t & 0xff00
    ensures (((t & 0xff) as bv8) as bv64) == t & 0xff
  {
  }

  /** The escape byte, the type, and then escaped: the low 48 bits of the time stamp, most significant
      byte first, the signal level and the message. */
  lemma WireFormat(i: Item)
    requires IsItem(i)
    ensures var d := Data(i);
      && Encode(i) == [0x1a, if |i.msg| == 2 then 0x31 else if |i.msg| == 7 then 0x32 else 0x33] + Escaped(d)
      && |d| == 7 + |i.msg| && d[6] == i.signal && d[7..] == i.msg
      && (d[0] as bv64) << 40 == i.timestamp & 0xff00_0000_0000
      && (d[1] as bv64) << 32 == i.timestamp & 0xff_0000_0000
      && (d[2] as bv64) << 24 == i.timestamp & 0xff00_0000
      && (d[3] as bv64) << 16 == i.timestamp & 0xff_0000
      && (d[4] as bv64) << 8 == i.timestamp & 0xff00
      && (d[5] as bv64) == i.timestamp & 0xff
  {
    BigEndianRaw(i.timestamp);
  }

  function EncodeAll(items: seq<Item>): seq<bv8>
    requires forall k :: 0 <= k < |items| ==> IsItem(items[k])
  {
    if items == [] then [] else EncodeAll(items[..|items| - 1]) + Encode(items[|items| - 1])
  }

  function Bodies(items: seq<Item>): (r: seq<seq<bv8>>)
    requires forall k :: 0 <= k < |items| ==> IsItem(items[k])
    ensures |r| == |items|
  {
    seq(|items|, k requires 0 <= k < |items| => Encode(items[k])[1..])
  }

  lemma ParseOne(i: Item)
    requires IsItem(i)
    ensures Parse(Encode(i)) == Parsed([Encode(i)[1..]], [])
  {
    var s := Encode(i);
    DecodeInvertsEncode(i);
    hide Encode, Take;
    assert s[2..] == s[1..][1..];
    assert s[|s|..] == [];
    assert s[1..|s|] == s[1..];
  }

  /** After complete frames, parsing starts afresh. */
  lemma ParseThen(a: seq<bv8>, b: seq<bv8>)
    requires Parse(a).rest == []
    ensures Parse(a + b) == Parsed(Parse(a).frames + Parse(b).frames, Parse(b).rest)
  {
    hide Parse;
    ParseResumes(a, b);
    assert [] + b == b;
  }

  lemma BodiesExtend(items: seq<Item>, i: Item)
    requires (forall k :: 0 <= k < |items| ==> IsItem(items[k])) && IsItem(i)
    ensures Bodies(items + [i]) == Bodies(items) + [Encode(i)[1..]]
  {
    hide Encode;
  }

  /** A stream of encoded messages contains exactly their frames, in order. */
  lemma {:induction false} ParseInvertsEncodeAll(items: seq<Item>)
    requires forall k :: 0 <= k < |items| ==> IsItem(items[k])
    ensures Parse(EncodeAll(items)) == Parsed(Bodies(items), [])
    decreases |items|
  {
    if items != [] {
      hide Encode, Parse;
      var init, last := items[..|items| - 1], items[|items| - 1];
      ParseInvertsEncodeAll(init);
      ParseOne(last);
      ParseThen(EncodeAll(init), Encode(last));
      BodiesExtend(init, last);
      assert items == init + [last];
    } else {
      assert Parse([]) == Parsed([], []);
    }
  }

  /** The heartbeat is the encoding of an all-zero Mode A/C message. */
  lemma HeartbeatIsAFrame()
    ensures Encode(Item(0, 0, [0, 0])) == [0x1a, 0x31, 0, 0, 0, 0, 0, 0, 0, 0, 0]
  {
    EscapedZeros(9);
    assert TimestampBytes(0) == [0, 0, 0, 0, 0, 0];
    assert Data(Item(0, 0, [0, 0])) == seq(9, _ => 0);
  }

  lemma {:induction false} EscapedZeros(n: nat)
    ensures Escaped(seq(n, _ => 0)) == seq(n, _ => 0)
  {
    if n > 0 {
      var z: seq<bv8> := seq(n, _ => 0);
      assert z[1..] == seq(n - 1, _ => 0);
      EscapedZeros(n - 1);
    }
  }
}
