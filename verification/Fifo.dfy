/** The sample FIFO (fifo.c): linked lists of buffers, and the overlap that is copied from each
    enqueued buffer into the next. Each method is one critical section; waiting on condition
    variables is the subject of FifoProtocol. */
module Fifo {
  import opened FifoLists
  import opened FifoStream
  import opened Sequences

  class MagBuf {
    const data: array<Sample>
    var validLength: nat
    var overlap: nat
    var discontinuous: bool
    var next: MagBuf?

    constructor (size: nat)
      ensures fresh(data) && data.Length == size
    {
      data := new Sample[size](_ => 0);
      validLength, overlap, discontinuous, next := 0, 0, false, null;
    }
  }

  function First(s: seq<MagBuf>): MagBuf? {
    if s == [] then null else s[0]
  }

  /** Each buffer of s links to the one after it. */
  ghost predicate Chain(s: seq<MagBuf>)
    reads s`next
  {
    forall i :: 0 <= i < |s| ==> s[i].next == First(s[i + 1..])
  }

  lemma ChainPops(s: seq<MagBuf>)
    requires Chain(s) && s != []
    ensures s[0].next == First(s[1..]) && Chain(s[1..])
  {
    forall i | 0 <= i < |s| - 1 ensures s[1..][i].next == First(s[1..][i + 1..]) {
      assert s[1..][i] == s[i + 1] && s[1..][i + 1..] == s[i + 2..];
    }
  }

  lemma ChainPushes(b: MagBuf, s: seq<MagBuf>)
    requires Chain(s) && b.next == First(s)
    ensures Chain([b] + s)
  {
    forall i | 0 <= i < |s| + 1 ensures ([b] + s)[i].next == First(([b] + s)[i + 1..]) {
      assert ([b] + s)[i + 1..] == s[i..];
    }
  }

  /** Linking b behind the last buffer of s, which is given with b appended. */
  twostate lemma ChainAppends(s: seq<MagBuf>)
    requires |s| > 1 && NoDuplicates(s) && old(Chain(s[..|s| - 1]))
    requires s[|s| - 1].next == null && s[|s| - 2].next == s[|s| - 1]
    requires forall k :: 0 <= k < |s| - 2 ==> s[k].next == old(s[k].next)
    ensures Chain(s)
  {
    forall i | 0 <= i < |s| ensures s[i].next == First(s[i + 1..]) {
      if i < |s| - 2 {
        assert s[..|s| - 1][i] == s[i] && s[..|s| - 1][i + 1..][0] == s[i + 1];
      }
    }
  }

  twostate lemma ChainStays(s: seq<MagBuf>)
    requires old(Chain(s)) && forall b :: b in s ==> b.next == old(b.next)
    ensures Chain(s)
  {
    forall i | 0 <= i < |s| ensures s[i].next == First(s[i + 1..]) {
      assert s[i] in s;
    }
  }

  ghost predicate Holds(b: MagBuf, s: seq<Sample>)
    reads b`validLength, b.data
  {
    b.validLength == |s| <= b.data.Length && b.data[..|s|] == s
  }

  class MagFifo {
    var head: MagBuf?
    var tail: MagBuf?
    var freelist: MagBuf?
    var halted: bool
    const overlapLength: nat
    const overlapBuffer: array<Sample>

    /** The lists as sequences, the buffers in callers' hands, and all buffers. */
    ghost var lists: Lists<MagBuf>
    ghost var out: set<MagBuf>
    ghost var pool: set<MagBuf>
    /** Everything enqueued before the FIFO was halted, and how much of it was dequeued. */
    ghost var log: seq<Block>
    ghost var taken: nat

    ghost function Arrays(): set<object>
      reads this
    {
      set b | b in pool :: b.data
    }

    ghost predicate Linked()
      reads this, lists.queue`next, lists.free`next
    {
      && head == First(lists.queue) && Chain(lists.queue)
      && tail == (if lists.queue == [] then null else lists.queue[|lists.queue| - 1])
      && freelist == First(lists.free) && Chain(lists.free)
      && lists.halted == halted
    }

    ghost predicate Separate()
      reads `pool
    {
      && (forall b, c :: b in pool && c in pool && b != c ==> b.data != c.data)
      && (forall b :: b in pool ==> b.data != overlapBuffer)
    }

    /** The k-th queued buffer holds what the consumer must find in it. */
    ghost predicate Filled()
      reads `halted, `lists, `log, `taken, lists.queue`validLength, set b | b in lists.queue :: b.data
    {
      if halted then lists.queue == []
      else
        && taken + |lists.queue| == |log|
        && forall k :: 0 <= k < |lists.queue| ==> Holds(lists.queue[k], Expected(log, taken + k, overlapLength))
    }

    ghost predicate OverlapSaved()
      reads `log, overlapBuffer
    {
      overlapBuffer[..] == Last(History(log, overlapLength), overlapLength)
    }

    ghost predicate Valid()
      reads this, pool, Arrays(), overlapBuffer
    {
      && Partition(lists, out, pool)
      && Linked() && Separate() && Filled() && OverlapSaved()
    }

    /** fifo_create */
    constructor (bufferCount: nat, bufferSize: nat, overlap: nat)
      ensures Valid() && overlapLength == overlap && !halted
      ensures lists.queue == [] && |lists.free| == bufferCount && out == {} && log == [] && taken == 0
      ensures forall b :: b in pool ==> fresh(b) && b.data.Length == bufferSize
    {
      overlapLength := overlap;
      overlapBuffer := new Sample[overlap](_ => 0);
      head, tail, freelist, halted := null, null, null, false;
      lists, out, pool, log, taken := Lists([], [], false), {}, {}, [], 0;
      new;
      assert overlapBuffer[..] == Zeros(overlap);
      NothingYet();
      hide *;
      AddBuffers(bufferCount, bufferSize);
    }

    method AddBuffers(count: nat, size: nat)
      requires Valid() && !halted
      modifies `freelist, `pool, `lists
      ensures Valid()
      ensures lists.queue == old(lists.queue) && |lists.free| == |old(lists.free)| + count
      ensures forall b :: b in pool ==> b in old(pool) || (fresh(b) && b.data.Length == size)
    {
      hide *;
      for i := 0 to count
        invariant Valid()
        invariant lists.queue == old(lists.queue) && |lists.free| == |old(lists.free)| + i
        invariant forall b :: b in pool ==> b in old(pool) || (fresh(b) && b.data.Length == size)
      {
        var newbuf := AddBuffer(size);
      }
    }

    lemma NothingYet()
      requires head == null && tail == null && freelist == null && !halted
      requires lists == Lists([], [], false) && out == {} && pool == {} && log == [] && taken == 0
      requires overlapBuffer[..] == Zeros(overlapLength)
      ensures Valid()
    {
    }

    /** One round of the allocation loop. */
    method AddBuffer(size: nat) returns (newbuf: MagBuf)
      requires Valid()
      modifies `freelist, `pool, `lists
      ensures Valid() && fresh(newbuf) && newbuf.data.Length == size
      ensures pool == old(pool) + {newbuf} && lists == old(lists).(free := [newbuf] + old(lists.free))
    {
      hide Partition, Chain, Expected, History, Last, NoDuplicates, MagFifo.Filled,
        MagFifo.OverlapSaved, MagFifo.Separate;
      newbuf := new MagBuf(size);
      newbuf.next := freelist;
      freelist := newbuf;
      ChainPushes(newbuf, lists.free);
      PartitionGrows(lists, out, pool, newbuf);
      pool := pool + {newbuf};
      lists := lists.(free := [newbuf] + lists.free);
      StillFilled();
      StillSeparate(newbuf);
    }

    twostate lemma StillSeparate(new newbuf: MagBuf)
      requires old(Separate()) && pool == old(pool) + {newbuf}
      requires fresh(newbuf) && fresh(newbuf.data)
      ensures Separate()
    {
    }

    /** A fresh buffer in the pool does not touch the stream. */
    twostate lemma StillFilled()
      requires old(Filled()) && old(OverlapSaved())
      requires lists.queue == old(lists.queue)
      requires log == old(log) && taken == old(taken) && halted == old(halted)
      requires overlapBuffer[..] == old(overlapBuffer[..])
      requires forall b :: b in lists.queue ==> b.validLength == old(b.validLength) && b.data[..] == old(b.data[..])
      ensures Filled() && OverlapSaved()
    {
      hide Expected, History, Last;
      if !halted {
        forall k | 0 <= k < |lists.queue| ensures Holds(lists.queue[k], Expected(log, taken + k, overlapLength)) {
          var b := lists.queue[k];
          assert b in lists.queue && b.data[..b.validLength] == old(b.data[..])[..b.validLength];
        }
      }
    }

    /** fifo_acquire, once it need not or must not wait any longer: null if the FIFO is halted
        or there is no free buffer. */
    method Acquire() returns (result: MagBuf?)
      requires Valid()
      modifies this, lists.free
      ensures Valid() && pool == old(pool) && log == old(log) && taken == old(taken) && halted == old(halted)
      ensures result == null <==> old(halted) || old(lists.free) == []
      ensures result == null ==> lists == old(lists) && out == old(out)
      ensures result != null ==>
        && result == old(lists.free)[0] && lists == Acquired(old(lists)) && out == old(out) + {result}
        && result.overlap == result.validLength == overlapLength && !result.discontinuous
    {
      hide Partition, Expected, History, Last, Chain, MagFifo.Filled, MagFifo.OverlapSaved;
      result := null;
      if !halted && freelist != null {
        PartitionAcquired(lists, out, pool);
        PartitionIsApart(lists, out, pool);
        result := TakeFree();
        out := out + {result};
        result.overlap := overlapLength;
        result.validLength := result.overlap;
        result.discontinuous := false;
        StillFilled();
      }
    }

    method TakeFree() returns (result: MagBuf)
      requires Linked() && lists.free != [] && Apart(lists)
      modifies `freelist, `lists, lists.free
      ensures Linked() && lists == Acquired(old(lists)) && result == old(lists.free)[0]
    {
      hide Chain;
      ChainPops(lists.free);
      result := freelist;
      freelist := result.next;
      lists := Acquired(lists);
      result.next := null;
      assert forall b :: b in lists.queue || b in lists.free ==> b != result;
      ChainStays(lists.queue);
      ChainStays(lists.free);
    }

    /** fifo_release */
    method Release(buf: MagBuf)
      requires Valid() && buf in out
      modifies this, buf`next
      ensures Valid() && pool == old(pool) && log == old(log) && taken == old(taken) && halted == old(halted)
      ensures lists == Released(old(lists), buf) && out == old(out) - {buf}
    {
      hide Partition, Expected, History, Last, Chain, MagFifo.Filled, MagFifo.OverlapSaved;
      PartitionReleased(lists, out, pool, buf);
      PartitionIsApart(lists, out, pool);
      PushFree(buf);
      out := out - {buf};
      StillFilled();
    }

    method PushFree(buf: MagBuf)
      requires Linked() && buf !in lists.queue && buf !in lists.free
      modifies `freelist, `lists, buf`next
      ensures Linked() && lists == Released(old(lists), buf)
    {
      hide Chain;
      buf.next := freelist;
      ChainStays(lists.queue);
      ChainStays(lists.free);
      ChainPushes(buf, lists.free);
      freelist := buf;
      lists := Released(lists, buf);
    }

    /** fifo_enqueue: a halted FIFO takes the buffer back, otherwise the overlap is filled in and
        the buffer joins the queue. */
    method Enqueue(buf: MagBuf)
      requires Valid() && buf in out
      requires overlapLength <= buf.validLength <= buf.data.Length
      modifies this, overlapBuffer, buf`next, buf.data, lists.queue`next
      ensures Valid() && pool == old(pool) && taken == old(taken) && halted == old(halted)
      ensures lists == Enqueued(old(lists), buf) && out == old(out) - {buf}
      ensures log == old(log) +
        if halted then [] else [Block(buf.discontinuous, old(buf.data[overlapLength..buf.validLength]))]
    {
      hide Partition, Expected, History, Before, Last, Chain, MagFifo.Filled, MagFifo.OverlapSaved, MagFifo.Separate;
      PartitionEnqueued(lists, out, pool, buf);
      PartitionIsApart(lists, out, pool);
      if halted {
        PushFree(buf);
        StillFilled();
      } else {
        JoinQueue(buf);
      }
      out := out - {buf};
    }

    method JoinQueue(buf: MagBuf)
      requires Linked() && Separate() && Filled() && OverlapSaved() && Apart(lists) && !halted
      requires buf in pool && buf !in lists.queue && buf !in lists.free && forall b :: b in lists.queue ==> b in pool
      requires overlapLength <= buf.validLength <= buf.data.Length
      modifies `head, `tail, `lists, `log, overlapBuffer, buf`next, buf.data, lists.queue`next
      ensures Linked() && Separate() && Filled() && OverlapSaved()
      ensures lists == Enqueued(old(lists), buf)
      ensures log == old(log) + [Block(buf.discontinuous, old(buf.data[overlapLength..buf.validLength]))]
    {
      hide Expected, History, Before, Last, Chain, NoDuplicates, MagFifo.Filled, MagFifo.OverlapSaved, MagFifo.Separate;
      FillBuffer(buf);
      Append(buf);
      StreamGrows(buf);
    }

    /** The overlap before the block: zeros, or the tail of the buffer before. */
    method FillOverlap(buf: MagBuf)
      requires overlapLength == overlapBuffer.Length <= buf.data.Length && buf.data != overlapBuffer
      modifies buf.data
      ensures buf.data[..] == (if buf.discontinuous then Zeros(overlapLength) else overlapBuffer[..])
        + old(buf.data[overlapLength..])
    {
      if buf.discontinuous {
        forall i | 0 <= i < overlapLength {
          buf.data[i] := 0;
        }
      } else {
        forall i | 0 <= i < overlapLength {
          buf.data[i] := overlapBuffer[i];
        }
      }
    }

    /** Saves the tail of the buffer for next time. */
    method SaveTail(buf: MagBuf)
      requires overlapLength == overlapBuffer.Length <= buf.validLength && buf.data != overlapBuffer
      requires log != [] && Holds(buf, Expected(log, |log| - 1, overlapLength))
      modifies overlapBuffer
      ensures Holds(buf, Expected(log, |log| - 1, overlapLength)) && OverlapSaved()
    {
      hide Expected, History;
      CopyTail(buf);
      TailCarriesOver(log, overlapLength);
    }

    method CopyTail(buf: MagBuf)
      requires overlapLength == overlapBuffer.Length <= buf.validLength <= buf.data.Length && buf.data != overlapBuffer
      modifies overlapBuffer
      ensures overlapBuffer[..] == Last(buf.data[..buf.validLength], overlapLength)
    {
      var start := buf.validLength - overlapLength;
      forall i | 0 <= i < overlapLength {
        overlapBuffer[i] := buf.data[start + i];
      }
    }

    /** One more buffer in the queue, filled as expected. */
    twostate lemma StreamGrows(buf: MagBuf)
      requires old(Separate()) && old(Filled()) && !old(halted) && !halted && pool == old(pool) && taken == old(taken)
      requires buf in pool && (forall b :: b in old(lists.queue) ==> b in pool && b != buf)
      requires lists.queue == old(lists.queue) + [buf] && |log| == |old(log)| + 1 && log[..|old(log)|] == old(log)
      requires forall b :: b in old(lists.queue) ==>
        && b.validLength == old(b.validLength)
        && (b.data != buf.data && b.data != overlapBuffer ==> b.data[..] == old(b.data[..]))
      requires Holds(buf, Expected(log, |log| - 1, overlapLength))
      ensures Filled() && Separate()
    {
      hide Expected;
      assert log == old(log) + [log[|log| - 1]];
      forall k | 0 <= k < |lists.queue| ensures Holds(lists.queue[k], Expected(log, taken + k, overlapLength)) {
        var b := lists.queue[k];
        if k < |old(lists.queue)| {
          assert b == old(lists.queue)[k];
          ExpectedStays(old(log), log[|log| - 1], taken + k, overlapLength);
          assert b.data[..b.validLength] == old(b.data[..])[..b.validLength];
        }
      }
    }

    /** Completes the buffer and saves its tail. */
    method FillBuffer(buf: MagBuf)
      requires Separate() && OverlapSaved() && buf in pool
      requires overlapLength <= buf.validLength <= buf.data.Length
      modifies buf.data, overlapBuffer, `log
      ensures log == old(log) + [Block(buf.discontinuous, old(buf.data[overlapLength..buf.validLength]))]
      ensures Holds(buf, Expected(log, |log| - 1, overlapLength)) && OverlapSaved()
    {
      hide Expected, History, Before;
      ghost var block := Block(buf.discontinuous, buf.data[overlapLength..buf.validLength]);
      ghost var k := |log|;
      LengthOfOverlap();
      ghost var d, saved := buf.data[..], overlapBuffer[..];
      FillOverlap(buf);
      FilledAsExpected(log, block, overlapLength, saved, d, buf.data[..], buf.validLength);
      log := log + [block];
      SaveTail(buf);
    }

    lemma LengthOfOverlap()
      requires OverlapSaved()
      ensures overlapBuffer.Length == overlapLength
    {
      hide History;
      assert |overlapBuffer[..]| == overlapLength;
    }

    /** Links the buffer behind the tail. */
    method Append(buf: MagBuf)
      requires Linked() && buf !in lists.queue && buf !in lists.free && Apart(lists) && !halted
      modifies `head, `tail, `lists, buf`next, lists.queue`next
      ensures Linked() && lists == Enqueued(old(lists), buf)
    {
      hide Chain, NoDuplicates;
      ghost var q := lists.queue + [buf];
      buf.next := null;
      if head == null {
        head := buf;
        tail := buf;
        ChainPushes(buf, []);
        assert q == [buf] + [];
      } else {
        LinkAtTail(buf);
      }
      lists := Enqueued(lists, buf);
      ChainStays(lists.free);
    }

    method LinkAtTail(buf: MagBuf)
      requires Linked() && lists.queue != [] && buf !in lists.queue && NoDuplicates(lists.queue) && buf.next == null
      modifies `tail, lists.queue`next
      ensures tail == buf && Chain(lists.queue + [buf])
    {
      ghost var q := lists.queue + [buf];
      assert NoDuplicates(q) && q[..|q| - 1] == lists.queue;
      hide Chain, First;
      tail.next := buf;
      tail := buf;
      ChainAppends(q);
    }

    /** fifo_dequeue, once it need not or must not wait any longer: null if the FIFO is halted or
        empty, otherwise the buffer at the head, which holds the next block of the stream and the
        samples before it. */
    method Dequeue() returns (result: MagBuf?)
      requires Valid()
      modifies this, lists.queue`next
      ensures Valid() && pool == old(pool) && log == old(log) && halted == old(halted)
      ensures result == null <==> old(lists.queue) == []
      ensures result == null ==> lists == old(lists) && out == old(out) && taken == old(taken)
      ensures result != null ==>
        && result == old(lists.queue)[0] && lists == Dequeued(old(lists)) && out == old(out) + {result}
        && !halted && old(taken) < |log| && taken == old(taken) + 1
        && Holds(result, Expected(log, old(taken), overlapLength))
    {
      hide Partition, Expected, History, Last, Chain, NoDuplicates, MagFifo.Filled,
        MagFifo.OverlapSaved, MagFifo.Separate;
      NothingQueued();
      result := null;
      if !halted && head != null {
        PartitionDequeued(lists, out, pool);
        PartitionIsApart(lists, out, pool);
        result := TakeHead();
        out := out + {result};
        taken := taken + 1;
        StreamShrinks();
      }
    }

    method TakeHead() returns (result: MagBuf)
      requires Linked() && lists.queue != [] && Apart(lists)
      modifies `head, `tail, `lists, lists.queue`next
      ensures Linked() && lists == Dequeued(old(lists)) && result == old(lists.queue)[0]
    {
      hide Chain;
      ChainPops(lists.queue);
      result := head;
      head := result.next;
      lists := Dequeued(lists);
      result.next := null;
      if head == null {
        tail := null;
      }
      assert forall b :: b in lists.queue || b in lists.free ==> b != result;
      ChainStays(lists.queue);
      ChainStays(lists.free);
    }

    twostate lemma StreamShrinks()
      requires old(Filled()) && !old(halted) && !halted && old(lists.queue) != []
      requires lists.queue == old(lists.queue)[1..] && log == old(log) && taken == old(taken) + 1
      requires forall b :: b in old(lists.queue) ==>
        b.validLength == old(b.validLength) && b.data[..] == old(b.data[..])
      ensures Filled() && old(taken) < |log| && Holds(old(lists.queue)[0], Expected(log, old(taken), overlapLength))
    {
      hide Expected;
      forall k | 0 <= k < |old(lists.queue)|
        ensures Holds(old(lists.queue)[k], Expected(log, old(taken) + k, overlapLength))
      {
        var b := old(lists.queue)[k];
        assert b.data[..b.validLength] == old(b.data[..])[..b.validLength];
      }
    }

    /** fifo_halt: all queued buffers go back to the freelist, and the FIFO stays halted. */
    method Halt()
      requires Valid()
      modifies this, lists.queue`next
      ensures Valid() && halted && pool == old(pool) && out == old(out) && log == old(log) && taken == old(taken)
      ensures lists == Halted(old(lists))
    {
      hide Partition, History, Last, Chain, MagFifo.Filled, MagFifo.OverlapSaved, MagFifo.Separate;
      PartitionHalted(lists, out, pool);
      PartitionIsApart(lists, out, pool);
      DrainToFreelist();
      tail := null;
      halted := true;
      lists := lists.(halted := true);
      NothingQueued();
    }

    lemma NothingQueued()
      ensures Chain([])
      ensures halted && lists.queue == [] ==> Filled()
      ensures halted && Filled() ==> lists.queue == []
    {
    }

    /** The loop of fifo_halt, which leaves a stale tail behind. */
    method DrainToFreelist()
      requires head == First(lists.queue) && Chain(lists.queue) && freelist == First(lists.free) && Chain(lists.free)
      requires Apart(lists)
      modifies `head, `freelist, `lists, lists.queue`next
      ensures head == null && freelist == First(lists.free) && Chain(lists.free)
      ensures lists == old(lists).(queue := [], free := Reversed(old(lists.queue)) + old(lists.free))
    {
      hide Chain;
      while head != null
        invariant head == First(lists.queue) && Chain(lists.queue) && freelist == First(lists.free) && Chain(lists.free)
        invariant Apart(lists) && lists.halted == old(lists.halted)
        invariant Reversed(lists.queue) + lists.free == Reversed(old(lists.queue)) + old(lists.free)
        invariant forall b :: b in lists.queue ==> b in old(lists.queue)
        decreases |lists.queue|
      {
        assert head == lists.queue[0] && head in lists.queue;
        MoveToFreelist();
      }
      assert [] + lists.free == lists.free;
    }

    method MoveToFreelist()
      requires lists.queue != [] && Apart(lists)
      requires head == First(lists.queue) && Chain(lists.queue) && freelist == First(lists.free) && Chain(lists.free)
      modifies `head, `freelist, `lists, head`next
      ensures head == First(lists.queue) && Chain(lists.queue) && freelist == First(lists.free) && Chain(lists.free)
      ensures lists == old(lists).(queue := old(lists.queue)[1..], free := [old(lists.queue)[0]] + old(lists.free))
      ensures Apart(lists) && Reversed(lists.queue) + lists.free == Reversed(old(lists.queue)) + old(lists.free)
    {
      hide Chain;
      ChainPops(lists.queue);
      var freebuf := head;
      head := freebuf.next;
      ghost var q, f := lists.queue[1..], lists.free;
      assert freebuf !in q && freebuf !in f;
      freebuf.next := freelist;
      ChainStays(q);
      ChainStays(f);
      ChainPushes(freebuf, f);
      freelist := freebuf;
      lists := lists.(queue := q, free := [freebuf] + f);
      assert Reversed(q) + ([freebuf] + f) == Reversed(q) + [freebuf] + f;
    }
  }

  /** No buffer is twice in the lists. */
  ghost predicate Apart(l: Lists<MagBuf>) {
    && NoDuplicates(l.queue) && NoDuplicates(l.free)
    && forall b :: b in l.queue ==> b !in l.free
  }

  lemma PartitionIsApart(l: Lists<MagBuf>, out: set<MagBuf>, pool: set<MagBuf>)
    requires Partition(l, out, pool)
    ensures Apart(l) && (forall b :: b in l.queue || b in l.free ==> b in pool && b !in out)
  {
  }
}
