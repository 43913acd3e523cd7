/** What the critical sections of the FIFO (fifo.c) do to its two lists and the halt flag. */
module FifoLists {
  import opened Sequences

  datatype Lists<B> = Lists(queue: seq<B>, free: seq<B>, halted: bool)

  function Reversed<B>(s: seq<B>): (r: seq<B>)
    ensures |r| == |s|
    ensures (forall x :: x in r ==> x in s) && (forall x :: x in s ==> x in r)
  {
    if s == [] then [] else Reversed(s[1..]) + [s[0]]
  }

  function Acquired<B>(l: Lists<B>): Lists<B>
    requires l.free != []
  {
    l.(free := l.free[1..])
  }

  function Enqueued<B>(l: Lists<B>, b: B): Lists<B> {
    if l.halted then l.(free := [b] + l.free) else l.(queue := l.queue + [b])
  }

  function Dequeued<B>(l: Lists<B>): Lists<B>
    requires l.queue != []
  {
    l.(queue := l.queue[1..])
  }

  function Released<B>(l: Lists<B>, b: B): Lists<B> {
    l.(free := [b] + l.free)
  }

  function Halted<B>(l: Lists<B>): Lists<B> {
    Lists([], Reversed(l.queue) + l.free, true)
  }

  /** Every buffer of the pool is in exactly one place: queue, freelist or a caller's hands. */
  ghost predicate Partition<B>(l: Lists<B>, out: set<B>, pool: set<B>) {
    && NoDuplicates(l.queue) && NoDuplicates(l.free)
    && (forall b :: b in l.queue ==> b in pool && b !in l.free && b !in out)
    && (forall b :: b in l.free ==> b in pool && b !in out)
    && (forall b :: b in pool ==> b in l.queue || b in l.free || b in out)
    && out <= pool
  }

  lemma PartitionAcquired<B>(l: Lists<B>, out: set<B>, pool: set<B>)
    requires Partition(l, out, pool) && l.free != []
    ensures Partition(Acquired(l), out + {l.free[0]}, pool)
  {
    assert forall b :: b in l.free <==> b == l.free[0] || b in l.free[1..];
  }

  lemma PartitionEnqueued<B>(l: Lists<B>, out: set<B>, pool: set<B>, b: B)
    requires Partition(l, out, pool) && b in out
    ensures Partition(Enqueued(l, b), out - {b}, pool)
  {
    assert forall x :: x in [b] + l.free <==> x == b || x in l.free;
    assert forall x :: x in l.queue + [b] <==> x == b || x in l.queue;
  }

  lemma PartitionDequeued<B>(l: Lists<B>, out: set<B>, pool: set<B>)
    requires Partition(l, out, pool) && l.queue != []
    ensures Partition(Dequeued(l), out + {l.queue[0]}, pool)
  {
    assert forall b :: b in l.queue <==> b == l.queue[0] || b in l.queue[1..];
  }

  lemma PartitionReleased<B>(l: Lists<B>, out: set<B>, pool: set<B>, b: B)
    requires Partition(l, out, pool) && b in out
    ensures Partition(Released(l, b), out - {b}, pool)
  {
    assert forall x :: x in [b] + l.free <==> x == b || x in l.free;
  }

  lemma PartitionGrows<B>(l: Lists<B>, out: set<B>, pool: set<B>, b: B)
    requires Partition(l, out, pool) && b !in pool
    ensures Partition(l.(free := [b] + l.free), out, pool + {b})
  {
    assert forall x :: x in [b] + l.free <==> x == b || x in l.free;
  }

  lemma {:induction false} ReversedNoDuplicates<B>(s: seq<B>)
    requires NoDuplicates(s)
    ensures NoDuplicates(Reversed(s))
  {
    if s != [] {
      ReversedNoDuplicates(s[1..]);
      assert s[0] !in s[1..];
    }
  }

  lemma PartitionHalted<B>(l: Lists<B>, out: set<B>, pool: set<B>)
    requires Partition(l, out, pool)
    ensures Partition(Halted(l), out, pool)
  {
    ReversedNoDuplicates(l.queue);
    ConcatNoDuplicates(Reversed(l.queue), l.free);
  }

  lemma ConcatNoDuplicates<B>(a: seq<B>, b: seq<B>)
    requires NoDuplicates(a) && NoDuplicates(b) && forall x :: x in a ==> x !in b
    ensures NoDuplicates(a + b)
  {
    forall i, j | 0 <= i < j < |a + b| ensures (a + b)[i] != (a + b)[j] {
      if i < |a| <= j {
        assert a[i] in a && b[j - |a|] in b;
      }
    }
  }
}
