/** The two-generation, open-addressed address filter (icao_filter.c). */
module IcaoFilter {

  const SIZE: nat := 4096
  const TTL: int := 60000
  const EMPTY: bv32 := 0xFFFFFFFF

  // ---- The hash -------------------------------------------------------------------------

  function Mix(hash: bv32, b: bv32): bv32 {
    var h1 := hash + b;
    var h2 := h1 + (h1 << 10);
    h2 ^ (h2 >> 6)
  }

  /** Jenkins' one-at-a-time hash over the three low bytes. */
  function Jenkins(a: bv32): bv32 {
    var h := Mix(Mix(Mix(0, a & 0xff), (a >> 8) & 0xff), (a >> 16) & 0xff);
    var h1 := h + (h << 3);
    var h2 := h1 ^ (h1 >> 11);
    h2 + (h2 << 15)
  }

  function Low12Bits(h: bv32): (r: nat)
    ensures r < SIZE
  {
    ((h & 0xfff) as bv12) as int
  }

  /** The first slot to look at. */
  function IcaoHash(a: bv32): (r: nat)
    ensures r < SIZE
  {
    Low12Bits(Jenkins(a))
  }

  /** The k-th slot of a probe sequence that starts at h. */
  function Slot(h: nat, k: nat): (r: nat)
    requires h < SIZE && k <= SIZE
    ensures r < SIZE
  {
    if h + k < SIZE then h + k else h + k - SIZE
  }

  /** How many steps a probe that starts at h needs to reach slot s. */
  function Steps(h: nat, s: nat): (k: nat)
    requires h < SIZE && s < SIZE
    ensures k < SIZE && Slot(h, k) == s
  {
    if h <= s then s - h else s + SIZE - h
  }

  // ---- What a table holds ----------------------------------------------------------------

  function Contents(t: seq<bv32>): set<bv32> {
    set i | 0 <= i < |t| && t[i] != EMPTY :: t[i]
  }

  /** Every entry can be reached from its hash without crossing an empty slot, and no
      address is stored twice. */
  ghost predicate Probeable(t: seq<bv32>) {
    && |t| == SIZE
    && (forall s: nat, k: nat :: s < SIZE && t[s] != EMPTY && k < Steps(IcaoHash(t[s]), s)
          ==> t[Slot(IcaoHash(t[s]), k)] != EMPTY)
    && (forall i, j :: 0 <= i < j < SIZE && t[i] != EMPTY ==> t[i] != t[j])
  }

  predicate Full(t: seq<bv32>) {
    forall i :: 0 <= i < |t| ==> t[i] != EMPTY
  }

  /** The first n slots of the probe for addr are occupied by other addresses. */
  ghost predicate Passed(t: seq<bv32>, addr: bv32, n: nat)
    requires |t| == SIZE && n <= SIZE
  {
    forall k: nat :: k < n ==> t[Slot(IcaoHash(addr), k)] != EMPTY && t[Slot(IcaoHash(addr), k)] != addr
  }

  /** A probe that runs into an empty slot, or all the way round, has not missed anything. */
  lemma ProbeFindsAll(t: seq<bv32>, addr: bv32, n: nat)
    requires Probeable(t) && n <= SIZE && addr != EMPTY
    requires Passed(t, addr, n)
    requires n == SIZE || t[Slot(IcaoHash(addr), n)] == EMPTY
    ensures addr !in Contents(t)
  {
    hide IcaoHash;
    forall s: nat | s < SIZE ensures t[s] != addr {
      NotAtSlot(t, addr, n, s, Steps(IcaoHash(addr), s));
    }
  }

  lemma NotAtSlot(t: seq<bv32>, addr: bv32, n: nat, s: nat, k: nat)
    requires |t| == SIZE && Probeable(t) && n <= SIZE && addr != EMPTY && s < SIZE
    requires Passed(t, addr, n)
    requires n == SIZE || t[Slot(IcaoHash(addr), n)] == EMPTY
    requires k == Steps(IcaoHash(addr), s)
    ensures t[s] != addr
  {
    hide IcaoHash, Probeable;
    assert k < n ==> t[Slot(IcaoHash(addr), k)] != addr;
    if n < k && t[s] == addr {
      PathIsOccupied(t, s, n);
    }
  }

  lemma PathIsOccupied(t: seq<bv32>, s: nat, k: nat)
    requires Probeable(t) && s < SIZE && t[s] != EMPTY && k < Steps(IcaoHash(t[s]), s)
    ensures t[Slot(IcaoHash(t[s]), k)] != EMPTY
  {
  }

  /** Storing addr in the first empty slot of its probe keeps the table probeable. */
  lemma StoreKeepsProbeable(t: seq<bv32>, addr: bv32, n: nat)
    requires Probeable(t) && n < SIZE && addr != EMPTY
    requires Passed(t, addr, n) && t[Slot(IcaoHash(addr), n)] == EMPTY
    ensures var t' := t[Slot(IcaoHash(addr), n) := addr];
      Probeable(t') && Contents(t') == Contents(t) + {addr}
  {
    hide IcaoHash;
    ProbeFindsAll(t, addr, n);
    var slot := Slot(IcaoHash(addr), n);
    var t' := t[slot := addr];
    forall x | x in Contents(t) + {addr} ensures x in Contents(t') {
      if x == addr {
        assert t'[slot] == addr;
      } else {
        var i :| 0 <= i < |t| && t[i] == x && x != EMPTY;
        assert t'[i] == x;
      }
    }
    assert Steps(IcaoHash(addr), slot) == n;
  }

  lemma {:induction false} DistinctCount(t: seq<bv32>)
    requires forall i, j :: 0 <= i < j < |t| ==> t[i] != t[j]
    requires Full(t)
    ensures |Contents(t)| == |t|
  {
    if t != [] {
      var u := t[..|t| - 1];
      DistinctCount(u);
      var last := t[|t| - 1];
      assert last !in Contents(u);
      forall x | x in Contents(t) ensures x in Contents(u) + {last} {
        var i :| 0 <= i < |t| && t[i] == x;
        assert i < |t| - 1 ==> u[i] == x;
      }
      forall x | x in Contents(u) ensures x in Contents(t) {
        var i :| 0 <= i < |u| && u[i] == x;
        assert t[i] == x;
      }
      assert Contents(t) == Contents(u) + {last};
    }
  }

  /** A full table holds SIZE addresses. */
  lemma FullCount(t: seq<bv32>)
    requires Probeable(t) && Full(t)
    ensures |Contents(t)| == SIZE
  {
    DistinctCount(t);
  }

  lemma {:induction false} ContentsCount(t: seq<bv32>)
    ensures |Contents(t)| <= |t| && (!Full(t) ==> |Contents(t)| < |t|)
  {
    if t != [] {
      var u, last := t[..|t| - 1], t[|t| - 1];
      ContentsCount(u);
      forall x | x in Contents(t) ensures x in Contents(u) + (if last == EMPTY then {} else {last}) {
        var i :| 0 <= i < |t| && t[i] == x;
        assert i < |t| - 1 ==> u[i] == x;
      }
      forall x | x in Contents(u) + (if last == EMPTY then {} else {last}) ensures x in Contents(t) {
        if x in Contents(u) {
          var i :| 0 <= i < |u| && u[i] == x && u[i] != EMPTY;
          assert t[i] == x;
        }
      }
      assert Contents(t) == Contents(u) + (if last == EMPTY then {} else {last});
    }
  }

  /** A table with an empty slot holds fewer. */
  lemma RoomLeft(t: seq<bv32>, i: nat)
    requires |t| == SIZE && i < SIZE && t[i] == EMPTY
    ensures |Contents(t)| < SIZE
  {
    ContentsCount(t);
  }

  // ---- The filter --------------------------------------------------------------------------

  /** What the filter knows: the addresses of the current and of the previous generation,
      and when the generations next change. */
  datatype View = View(current: set<bv32>, previous: set<bv32>, nextFlip: int) {
    predicate Knows(addr: bv32) {
      addr in current || addr in previous
    }

    function Add(addr: bv32): View {
      this.(current := current + {addr})
    }

    predicate Due(now: int) {
      now >= nextFlip
    }

    function Expire(now: int): View {
      if Due(now) then View({}, current, now + TTL) else this
    }
  }

  class Filter {
    const a: array<bv32>
    const b: array<bv32>
    var activeIsA: bool
    var nextFlip: int

    ghost predicate Valid()
      reads this, a, b
    {
      a != b && a.Length == SIZE && b.Length == SIZE && Probeable(a[..]) && Probeable(b[..])
    }

    ghost function Active(): array<bv32>
      reads this
    {
      if activeIsA then a else b
    }

    ghost function Inactive(): array<bv32>
      reads this
    {
      if activeIsA then b else a
    }

    ghost function Knowledge(): View
      reads this, a, b
    {
      View(Contents(Active()[..]), Contents(Inactive()[..]), nextFlip)
    }

    /** icaoFilterInit */
    constructor ()
      ensures Valid() && fresh(a) && fresh(b)
      ensures Knowledge() == View({}, {}, 0)
    {
      a := new bv32[SIZE](_ => EMPTY);
      b := new bv32[SIZE](_ => EMPTY);
      activeIsA := true;
      nextFlip := 0;
    }

    /** The loop shared by icaoFilterAdd and icaoFilterTest: stops at the address, at an
        empty slot, or after one full round. */
    static method Probe(t: array<bv32>, addr: bv32) returns (h: nat, wrapped: bool)
      requires Probeable(t[..])
      ensures h < SIZE
      ensures wrapped ==> h == IcaoHash(addr) && Passed(t[..], addr, SIZE)
      ensures !wrapped ==> t[h] == EMPTY || t[h] == addr
      ensures !wrapped && t[h] != addr ==>
        exists n: nat :: n < SIZE && h == Slot(IcaoHash(addr), n) && Passed(t[..], addr, n)
    {
      hide IcaoHash;
      var h0 := IcaoHash(addr);
      h := h0;
      ghost var n: nat := 0;
      while t[h] != EMPTY && t[h] != addr
        invariant n < SIZE && h == Slot(h0, n)
        invariant Passed(t[..], addr, n)
        decreases SIZE - n
      {
        h := if h + 1 < SIZE then h + 1 else 0;
        n := n + 1;
        if h == h0 {
          assert n == SIZE;
          return h, true;
        }
      }
      wrapped := false;
      assert n < SIZE && h == Slot(h0, n) && Passed(t[..], addr, n);
    }

    /** icaoFilterAdd: a full table drops the address. */
    method Add(addr: bv32)
      requires Valid() && addr != EMPTY
      modifies a, b
      ensures Valid()
      ensures Knowledge() == if |old(Knowledge()).current| < SIZE then old(Knowledge()).Add(addr) else old(Knowledge())
    {
      hide IcaoHash;
      var t := if activeIsA then a else b;
      ghost var was := t[..];
      var h, wrapped := Probe(t, addr);
      if wrapped {
        WrappedMeansFull(was, addr);
        FullCount(was);
        return;
      }
      if t[h] == EMPTY {
        ghost var n: nat :| n < SIZE && h == Slot(IcaoHash(addr), n) && Passed(was, addr, n);
        StoreKeepsProbeable(was, addr, n);
        RoomLeft(was, h);
        t[h] := addr;
        assert t[..] == was[h := addr];
      } else {
        assert was[h] == addr;
        assert Contents(was) + {addr} == Contents(was);
        assert Knowledge() == old(Knowledge()).Add(addr) == old(Knowledge());
      }
    }

    static lemma WrappedMeansFull(t: seq<bv32>, addr: bv32)
      requires |t| == SIZE && Passed(t, addr, SIZE)
      ensures Full(t)
    {
      hide IcaoHash;
      forall i | 0 <= i < SIZE ensures t[i] != EMPTY {
        assert i == Slot(IcaoHash(addr), Steps(IcaoHash(addr), i));
      }
    }

    static method TestTable(t: array<bv32>, addr: bv32) returns (known: bool)
      requires Probeable(t[..]) && addr != EMPTY
      ensures known <==> addr in Contents(t[..])
    {
      hide IcaoHash;
      var h, wrapped := Probe(t, addr);
      known := t[h] == addr;
      if known {
        assert t[..][h] == addr;
      } else if wrapped {
        ProbeFindsAll(t[..], addr, SIZE);
      } else {
        ghost var n: nat :| n < SIZE && h == Slot(IcaoHash(addr), n) && Passed(t[..], addr, n);
        ProbeFindsAll(t[..], addr, n);
      }
    }

    /** icaoFilterTest: exact even when a table is full. */
    method Test(addr: bv32) returns (known: bool)
      requires Valid() && addr != EMPTY
      ensures known <==> Knowledge().Knows(addr)
    {
      known := TestTable(a, addr);
      if !known {
        known := TestTable(b, addr);
      }
    }

    static lemma AllEmpty(t: seq<bv32>)
      requires |t| == SIZE && forall i :: 0 <= i < SIZE ==> t[i] == EMPTY
      ensures Contents(t) == {} && Probeable(t)
    {
    }

    /** icaoFilterExpire */
    method Expire(now: int)
      requires Valid()
      modifies this, a, b
      ensures Valid() && Knowledge() == old(Knowledge()).Expire(now)
    {
      hide Probeable, Contents;
      if now >= nextFlip {
        var stale := if activeIsA then b else a;
        ghost var kept := if activeIsA then a else b;
        ghost var was := kept[..];
        forall i | 0 <= i < stale.Length {
          stale[i] := EMPTY;
        }
        assert forall i :: 0 <= i < SIZE ==> stale[..][i] == EMPTY;
        AllEmpty(stale[..]);
        assert kept[..] == was;
        activeIsA := !activeIsA;
        nextFlip := now + TTL;
      }
    }
  }
}
