/** End-to-end delivery of Beast messages: from the writer's queue through the socket to the
    handler of the reading client (net_io.c). */
module BeastDelivery {
  import opened BeastFrame
  import R = BeastReader
  import W = BeastWriter
  import opened Options

  predicate IsFrame(f: seq<bv8>) {
    |f| > 0 && Payload(f[0]) > 0 && Take(f[1..], Payload(f[0])) == Some(|f| - 1)
  }

  lemma {:induction false} TakeExact(s: seq<bv8>, n: nat)
    requires Take(s, n).Some?
    ensures Take(s[..Take(s, n).value], n) == Take(s, n)
    decreases n
  {
    if n > 0 {
      var k := Take(s, n).value;
      if s[0] == ESCAPE {
        TakeExact(s[2..], n - 1);
        assert s[..k][2..] == s[2..][..k - 2];
      } else {
        TakeExact(s[1..], n - 1);
        assert s[..k][1..] == s[1..][..k - 1];
      }
    }
  }

  /** Every frame the parser finds is complete, so that decoding it never runs past its end. */
  lemma {:induction false} FramesAreComplete(s: seq<bv8>)
    ensures forall f :: f in Parse(s).frames ==> IsFrame(f)
    decreases |s|
  {
    hide Parse, Take, Payload;
    ParseCases(s);
    if StartsFrame(s) {
      var n := FrameLength(s);
      FramesAreComplete(s[n..]);
      TakeExact(s[2..], Payload(s[1]));
      assert s[1..n][1..] == s[2..][..n - 2];
    } else if s != [] && !StartsIncomplete(s) {
      FramesAreComplete(s[1..]);
    }
  }

  /** What the frame handler makes of a run of frames. */
  function DecodeAll(frames: seq<seq<bv8>>, modeAc: bool): (r: seq<Option<Item>>)
    requires forall f :: f in frames ==> IsFrame(f)
    ensures |r| == |frames|
  {
    seq(|frames|, k requires 0 <= k < |frames| && IsFrame(frames[k]) => Decode(frames[k], modeAc))
  }

  /** Whether the reader makes a message of it: without Mode A/C it ignores Mode A/C messages, the
      heartbeat included. */
  predicate Arrives(i: Item, modeAc: bool) {
    modeAc || |i.msg| != 2
  }

  /** What the reader makes of the messages, with the time stamps cut to 48 bits. */
  function AllDelivered(items: seq<Item>, modeAc: bool): (r: seq<Option<Item>>)
    ensures |r| == |items|
  {
    seq(|items|, k requires 0 <= k < |items| => if Arrives(items[k], modeAc) then Some(Delivered(items[k])) else None)
  }

  /** A stream that was cut short yields the first messages of the whole stream. */
  lemma PrefixOfFrames(s: seq<bv8>, whole: seq<bv8>)
    requires s <= whole
    ensures Parse(s).frames <= Parse(whole).frames
  {
    hide Parse;
    ParseResumes(s, whole[|s|..]);
    assert s + whole[|s|..] == whole;
  }

  /** Decoding what was queued. */
  lemma DecodeBodies(items: seq<Item>, modeAc: bool)
    requires W.AllItems(items)
    ensures forall f :: f in Bodies(items) ==> IsFrame(f)
    ensures DecodeAll(Bodies(items), modeAc) == AllDelivered(items, modeAc)
  {
    hide Take, Unescaped, Encode, Payload, Decode, Delivered;
    forall k | 0 <= k < |items|
      ensures IsFrame(Bodies(items)[k]) && Decode(Bodies(items)[k], modeAc) == AllDelivered(items, modeAc)[k]
    {
      EncodeNonempty(items[k]);
      DecodeInvertsEncode(items[k]);
    }
  }

  lemma EncodeNonempty(i: Item)
    requires IsItem(i)
    ensures |Encode(i)| > 1
  {
    EncodedFrame(i);
  }

  /** The messages themselves, as far as the reader listens to them. */
  function Kept(r: seq<Option<Item>>): seq<Item> {
    if r == [] then [] else Kept(r[..|r| - 1]) + (if r[|r| - 1].Some? then [r[|r| - 1].value] else [])
  }

  /** The items a reader listens to, cut to 48-bit time stamps, in order. */
  function Listened(items: seq<Item>, modeAc: bool): seq<Item> {
    if items == [] then []
    else
      var last := items[|items| - 1];
      Listened(items[..|items| - 1], modeAc) + (if Arrives(last, modeAc) then [Delivered(last)] else [])
  }

  lemma {:induction false} KeptIsListened(items: seq<Item>, modeAc: bool)
    ensures Kept(AllDelivered(items, modeAc)) == Listened(items, modeAc)
  {
    hide Delivered;
    if items != [] {
      var n := |items| - 1;
      KeptIsListened(items[..n], modeAc);
      assert AllDelivered(items, modeAc)[..n] == AllDelivered(items[..n], modeAc);
    }
  }

  /** Nothing is missing exactly if the reader has Mode A/C on or there are only Mode S messages. */
  lemma {:induction false} NothingMissingExactly(items: seq<Item>, modeAc: bool)
    ensures |Listened(items, modeAc)| <= |items|
    ensures |Listened(items, modeAc)| == |items| <==> modeAc || forall i :: i in items ==> |i.msg| != 2
  {
    if items != [] {
      var n := |items| - 1;
      NothingMissingExactly(items[..n], modeAc);
      assert items == items[..n] + [items[n]];
    }
  }

  /** End to end: a reader of an open client's connection that has read everything sent so far,
      in whatever pieces, has decoded exactly the messages queued for that client except those
      still in the service's buffer, in order: those it listens to, with the time stamps cut to
      48 bits. */
  lemma EndToEnd(w: W.NetClient, r: R.Client, modeAc: bool)
    requires w.InStep() && w.service != null && r.Valid() && r.received == w.sent
    ensures w.queued == w.delivered + w.service.pending
    ensures forall f :: f in r.handled ==> IsFrame(f)
    ensures DecodeAll(r.handled, modeAc) == AllDelivered(w.delivered, modeAc)
    ensures Kept(DecodeAll(r.handled, modeAc)) == Listened(w.delivered, modeAc)
  {
    hide Parse, Decode, Delivered, Encode, EncodeAll, Kept, Listened;
    ParseInvertsEncodeAll(w.delivered);
    DecodeBodies(w.delivered, modeAc);
    KeptIsListened(w.delivered, modeAc);
  }

  /** Whatever part of the stream has arrived, and whether or not the client was closed in the
      meantime, the reader has seen the first of the queued messages and nothing else. */
  lemma NothingElseArrives(w: W.NetClient, r: R.Client, modeAc: bool)
    requires w.InStep() && r.Valid() && r.received <= w.sent
    ensures forall f :: f in r.handled ==> IsFrame(f)
    ensures DecodeAll(r.handled, modeAc) <= AllDelivered(w.queued, modeAc)
  {
    hide Parse, Decode, Delivered, Encode, EncodeAll;
    var whole := EncodeAll(w.queued);
    W.SentIsPrefix(w);
    PrefixOfFrames(r.received, whole);
    ParseInvertsEncodeAll(w.queued);
    DecodeBodies(w.queued, modeAc);
    assert forall k :: 0 <= k < |r.handled| ==> r.handled[k] == Bodies(w.queued)[k];
    var all := DecodeAll(Bodies(w.queued), modeAc);
    assert forall k :: 0 <= k < |r.handled| ==> DecodeAll(r.handled, modeAc)[k] == all[k];
  }
}
