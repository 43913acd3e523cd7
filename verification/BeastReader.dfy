/** The incremental Beast parser over a bounded buffer: modesReadFromClient in
    READ_MODE_BEAST (net_io.c). */
module BeastReader {
  import opened BeastFrame
  import opened Options

  const CLIENT_BUF_SIZE: nat := 1024

  datatype ReadResult =
    | Data(bytes: seq<bv8>)   // at least one byte
    | WouldBlock
    | Eof
    | Error

  /** The peer: the bytes it will have sent, and read() calls that return any part of them. */
  class Socket {
    var pending: seq<bv8>

    constructor (pending: seq<bv8>)
      ensures this.pending == pending
    {
      this.pending := pending;
    }

    /** read() returns between 1 and `left` of the pending bytes, or fails. */
    method Read(left: nat) returns (r: ReadResult)
      requires left > 0
      modifies this
      ensures match r
        case Data(b) => 1 <= |b| <= left && old(pending) == b + pending
        case _ => pending == old(pending)
    {
      var choice: int := *;
      if choice == 0 || pending == [] {
        r := WouldBlock;
      } else if choice == 1 {
        r := Eof;
      } else if choice == 2 {
        r := Error;
      } else {
        var n: nat :| 1 <= n <= left && n <= |pending|;
        r := Data(pending[..n]);
        pending := pending[n..];
      }
    }
  }

  /** The position of the first escape byte of d at or after `from`. */
  method MemChr(d: seq<bv8>, from: nat) returns (p: Option<nat>)
    requires from <= |d|
    ensures p.Some? ==> from <= p.value < |d| && d[p.value] == ESCAPE && ESCAPE !in d[from..p.value]
    ensures p.None? ==> ESCAPE !in d[from..]
  {
    for i := from to |d|
      invariant ESCAPE !in d[from..i]
    {
      if d[i] == ESCAPE {
        return Some(i);
      }
    }
    p := None;
  }

  function Advance(r: Option<nat>, n: nat): Option<nat> {
    if r.Some? then Some(r.value + n) else None
  }

  lemma TakeStep(s: seq<bv8>, p: nat, n: nat)
    requires p < |s| && n > 0
    ensures s[p] != ESCAPE ==> Take(s[p..], n) == Advance(Take(s[p + 1..], n - 1), 1)
    ensures s[p] == ESCAPE && p + 1 == |s| ==> Take(s[p..], n) == None
    ensures s[p] == ESCAPE && p + 1 < |s| ==> Take(s[p..], n) == Advance(Take(s[p + 2..], n - 1), 2)
  {
    assert s[p..][1..] == s[p + 1..];
    assert p + 1 < |s| ==> s[p..][2..] == s[p + 2..];
  }

  lemma TakeEnds(s: seq<bv8>, n: nat)
    ensures Take(s, 0) == Some(0)
    ensures n > 0 ==> Take([], n) == None
  {
  }

  /** A type byte and its data, taken together. */
  lemma TakeFrame(s: seq<bv8>)
    requires |s| > 1 && s[0] == ESCAPE && Payload(s[1]) > 0
    ensures var r := Take(s[1..], Payload(s[1]) + 1);
      (r.Some? <==> StartsFrame(s)) && (r.Some? ==> 1 + r.value == FrameLength(s))
  {
    assert s[1..][1..] == s[2..];
  }

  /** One past the last byte of the frame at som, skipping over doubled escapes; beyond the
      end of the data if the frame is incomplete. */
  method EndOfMessage(d: seq<bv8>, som: nat, payload: nat) returns (eom: nat)
    requires som + 1 < |d| && d[som] == ESCAPE
    requires payload == Payload(d[som + 1]) > 0
    ensures eom <= |d| <==> StartsFrame(d[som..])
    ensures eom <= |d| ==> eom == som + FrameLength(d[som..])
  {
    hide Take, Payload, StartsFrame, FrameLength;
    TakeFrame(d[som..]);
    assert d[som..][1..] == d[som + 1..];
    ghost var goal := Take(d[som + 1..], payload + 1);
    assert Advance(goal, 0) == goal;
    eom := som + 2 + payload;
    var p := som + 1;
    while p < |d| && p < eom
      invariant som < p <= |d| + 1 && p <= eom
      invariant p == |d| + 1 ==> goal.None?
      invariant p <= |d| ==> goal == Advance(Take(d[p..], eom - p), p - som - 1)
      decreases eom - p
    {
      TakeStep(d, p, eom - p);
      if d[p] == ESCAPE {
        p := p + 1;
        eom := eom + 1;
      }
      p := p + 1;
    }
    if p <= |d| {
      TakeEnds(d[p..], eom - p);
    }
  }

  /** What the buffer may hold between reads: the incomplete frame, or garbage. */
  predicate Leftover(buf: seq<bv8>, rest: seq<bv8>) {
    buf == rest || (ESCAPE !in buf && rest == [])
  }

  class Client {
    var buf: array<bv8>
    var buflen: nat
    var open: bool
    /** The frames handed to the read handler, in order. */
    var handled: seq<seq<bv8>>
    /** Everything read from the connection so far. */
    ghost var received: seq<bv8>

    ghost predicate Shape()
      reads this
    {
      buf.Length == CLIENT_BUF_SIZE + 1 && buflen <= CLIENT_BUF_SIZE
    }

    /** Chunking independence, as an invariant: however the stream arrived, the handler has
        seen exactly the frames of the whole stream. */
    ghost predicate Valid()
      reads this, buf
    {
      && Shape()
      && handled == Parse(received).frames
      && Leftover(buf[..buflen], Parse(received).rest)
    }

    constructor ()
      ensures Valid() && received == [] && handled == [] && open
      ensures fresh(buf)
    {
      buf := new bv8[CLIENT_BUF_SIZE + 1];
      buflen := 0;
      open := true;
      handled := [];
      received := [];
    }

    /** The READ_MODE_BEAST scan: hands every complete frame in the buffer to the handler and
        returns where the unprocessed bytes start. */
    method ScanFrames() returns (som: nat)
      requires Shape()
      modifies `handled
      ensures som <= buflen
      ensures handled == old(handled) + Parse(buf[..buflen]).frames
      ensures Leftover(buf[som..buflen], Parse(buf[..buflen]).rest)
    {
      hide Take, Parse, Payload, StartsFrame, FrameLength;
      som := 0;
      var d := buf[..buflen];
      assert d[0..] == d;
      while som < |d|
        invariant som <= |d|
        invariant handled + Parse(d[som..]).frames == old(handled) + Parse(d).frames
        invariant Parse(d[som..]).rest == Parse(d).rest
        decreases |d| - som
      {
        var found := MemChr(d, som);
        if found.None? {
          OnlyGarbage(d[som..]);
          break;
        }
        SkipGarbage(d, som, found.value);
        som := found.value;  // by SkipGarbage
        if som + 1 >= |d| {
          LoneEscape(d[som..]);
          break;  // what is left is the rest
        }
        var payload := Payload(d[som + 1]);
        if payload == 0 {
          SkipEscape(d, som);
          som := som + 1;  // by SkipEscape
        } else {
          var eom := EndOfMessage(d, som, payload);
          FrameOrIncomplete(d, som, eom);
          if eom > |d| {
            break;  // what is left is the rest
          }
          handled := handled + [d[som + 1..eom]];
          som := eom;
        }
      }
      if som == |d| {
        OnlyGarbage(d[som..]);
      }
      assert buf[som..buflen] == d[som..];
    }

    /** modesReadFromClient: reads until a read falls short of the buffer space offered. */
    method ModesReadFromClient(sock: Socket)
      requires Valid() && open
      modifies this, buf, sock
      ensures Valid()
      ensures old(received) <= received && old(handled) <= handled
      ensures received + sock.pending == old(received) + old(sock.pending)
    {
      var bContinue := true;
      while bContinue
        invariant Valid() && open && buf == old(buf)
        invariant old(received) <= received && old(handled) <= handled
        invariant received + sock.pending == old(received) + old(sock.pending)
        decreases bContinue, |sock.pending|
      {
        var left := CLIENT_BUF_SIZE as int - buflen - 1;
        if left <= 0 {
          DiscardIsHarmless(buf[..buflen], received);
          buflen := 0;
          left := CLIENT_BUF_SIZE;
        }
        ghost var pending := sock.pending;
        var r := sock.Read(left);
        if r.Eof? || r.Error? {
          open := false;  // modesCloseClient
          return;
        }
        if r.WouldBlock? {
          return;
        }
        bContinue := |r.bytes| == left;
        var processed := Accept(r.bytes);
        if !processed {
          return;
        }
      }
    }

    /** One round of the reading loop: append the bytes, scan, move what remains to the front.
        Returns whether anything was processed. */
    method Accept(bytes: seq<bv8>) returns (processed: bool)
      requires Valid() && buflen + |bytes| <= CLIENT_BUF_SIZE
      modifies this, buf
      ensures Valid() && buf == old(buf) && open == old(open)
      ensures received == old(received) + bytes && old(handled) <= handled
    {
      ghost var b := buf[..buflen];
      forall i | 0 <= i < |bytes| {
        buf[buflen + i] := bytes[i];
      }
      buflen := buflen + |bytes|;
      assert buf[..buflen] == b + bytes;
      ResumeFromBuffer(b, bytes, received);
      received := received + bytes;
      var som := ScanFrames();
      ghost var leftover := buf[som..buflen];
      if som > 0 {
        var n := buflen - som;
        forall i | 0 <= i < n {
          buf[i] := buf[som + i];
        }
        buflen := n;
        assert buf[..buflen] == leftover;
      } else {
        assert buf[..buflen] == leftover;
      }
      processed := som > 0;
    }
  }

  /** A full buffer holds no frame at all: discarding it loses nothing. */
  lemma DiscardIsHarmless(b: seq<bv8>, received: seq<bv8>)
    requires Leftover(b, Parse(received).rest) && |b| >= CLIENT_BUF_SIZE - 1
    ensures Leftover([], Parse(received).rest)
  {
    hide Parse;
    RestIsShort(received);
  }

  /** Parsing the buffer continues where parsing the stream stopped. */
  lemma ResumeFromBuffer(b: seq<bv8>, bytes: seq<bv8>, received: seq<bv8>)
    requires Leftover(b, Parse(received).rest)
    ensures Parse(received + bytes) == Parsed(Parse(received).frames + Parse(b + bytes).frames, Parse(b + bytes).rest)
  {
    hide Parse;
    ParseResumes(received, bytes);
    if b != Parse(received).rest {
      GarbageIsSkipped(b, bytes);
      assert [] + bytes == bytes;
    }
  }

  lemma OnlyGarbage(g: seq<bv8>)
    requires ESCAPE !in g
    ensures Parse(g) == Parsed([], [])
  {
    GarbageIsSkipped(g, []);
    assert g + [] == g;
  }

  lemma SkipGarbage(d: seq<bv8>, from: nat, to: nat)
    requires from <= to <= |d| && ESCAPE !in d[from..to]
    ensures Parse(d[from..]) == Parse(d[to..])
  {
    assert d[from..] == d[from..to] + d[to..];
    GarbageIsSkipped(d[from..to], d[to..]);
  }

  lemma LoneEscape(s: seq<bv8>)
    requires |s| == 1 && s[0] == ESCAPE
    ensures Parse(s) == Parsed([], s)
  {
  }

  lemma SkipEscape(d: seq<bv8>, som: nat)
    requires som + 1 < |d| && d[som] == ESCAPE && Payload(d[som + 1]) == 0
    ensures Parse(d[som..]) == Parse(d[som + 1..])
  {
    assert d[som..][1..] == d[som + 1..];
  }

  lemma FrameOrIncomplete(d: seq<bv8>, som: nat, eom: nat)
    requires som + 1 < |d| && d[som] == ESCAPE && Payload(d[som + 1]) > 0
    requires eom <= |d| <==> StartsFrame(d[som..])
    requires eom <= |d| ==> eom == som + FrameLength(d[som..])
    ensures eom > |d| ==> Parse(d[som..]) == Parsed([], d[som..])
    ensures eom <= |d| ==>
      som + 2 < eom && Parse(d[som..]) == Parsed([d[som + 1..eom]] + Parse(d[eom..]).frames, Parse(d[eom..]).rest)
  {
    hide Take, Parse, FrameLength;
    ParseCases(d[som..]);
    if eom <= |d| {
      var n := FrameLength(d[som..]);
      assert d[som..][1..n] == d[som + 1..eom] && d[som..][n..] == d[eom..];
    }
  }
}
