/** The error-correction tables of crc.c: one entry for every error pattern that is short
    enough to correct and whose syndrome no other detectable pattern shares. */
module ErrorTable {
  import opened Polynomial
  import opened Checksum
  import opened ErrorPatterns
  import opened Lookup
  import opened Options

  const MAX_BITERRORS: nat := 2

  /** struct errorinfo: bit[..errors] are the positions to fix, the rest is -1. */
  datatype ErrorInfo = ErrorInfo(syndrome: bv24, errors: int, bit: seq<int>)

  const NO_ERRORS: ErrorInfo := ErrorInfo(0, 0, [0, 0])

  function Pad(p: seq<nat>): (r: seq<int>)
    ensures |r| == MAX_BITERRORS
  {
    seq(MAX_BITERRORS, i requires 0 <= i < MAX_BITERRORS => if i < |p| then p[i] as int else -1)
  }

  /** The table entry of error pattern p. */
  function Entry(p: seq<nat>, bits: nat): ErrorInfo {
    ErrorInfo(Syndrome(p, bits), |p|, Pad(p))
  }

  function Entries(ps: seq<seq<nat>>, bits: nat): (r: seq<ErrorInfo>)
    ensures |r| == |ps|
  {
    seq(|ps|, i requires 0 <= i < |ps| => Entry(ps[i], bits))
  }

  lemma EntriesAppend(a: seq<seq<nat>>, b: seq<seq<nat>>, bits: nat)
    ensures Entries(a + b, bits) == Entries(a, bits) + Entries(b, bits)
  {
  }

  /** Entries of patterns that fit a table entry determine the pattern. */
  lemma EntryInjective(p: seq<nat>, q: seq<nat>, bits: nat)
    requires |p| <= MAX_BITERRORS && |q| <= MAX_BITERRORS
    requires Entry(p, bits) == Entry(q, bits)
    ensures p == q
  {
    forall i | 0 <= i < |p| ensures p[i] == q[i] {
      assert Pad(p)[i] == Pad(q)[i];
    }
  }

  // ---- What a table must contain ----------------------------------------------------

  /** No other pattern of at most maxDetect errors has the syndrome of p. */
  ghost predicate Unambiguous(p: seq<nat>, bits: nat, maxDetect: nat) {
    forall q :: IsPattern(q, bits) && 1 <= |q| <= maxDetect && Syndrome(q, bits) == Syndrome(p, bits) ==> q == p
  }

  ghost predicate Correctable(p: seq<nat>, bits: nat, maxCorrect: nat, maxDetect: nat) {
    IsPattern(p, bits) && 1 <= |p| <= maxCorrect && Unambiguous(p, bits, maxDetect)
  }

  /** The sort key: the C comparison function subtracts the syndromes as ints. */
  function Key(s: bv24): int {
    s as int
  }

  lemma KeyInjective(a: bv24, b: bv24)
    requires Key(a) == Key(b)
    ensures a == b
  {
    assert (a as int) as bv24 == a;
    assert (b as int) as bv24 == b;
  }

  predicate Sorted(s: seq<ErrorInfo>) {
    forall i, j :: 0 <= i < j < |s| ==> Key(s[i].syndrome) <= Key(s[j].syndrome)
  }

  predicate StrictlySorted(s: seq<ErrorInfo>) {
    forall i, j :: 0 <= i < j < |s| ==> Key(s[i].syndrome) < Key(s[j].syndrome)
  }

  /** e corrects a correctable pattern. */
  ghost predicate Corrects(e: ErrorInfo, bits: nat, maxCorrect: nat, maxDetect: nat) {
    exists p :: Correctable(p, bits, maxCorrect, maxDetect) && e == Entry(p, bits)
  }

  /** A finished table: strictly sorted, and holding exactly the correctable patterns. */
  ghost predicate Complete(s: seq<ErrorInfo>, bits: nat, maxCorrect: nat, maxDetect: nat) {
    && StrictlySorted(s)
    && (forall k :: 0 <= k < |s| ==> Corrects(s[k], bits, maxCorrect, maxDetect))
    && (forall p :: Correctable(p, bits, maxCorrect, maxDetect) ==> Entry(p, bits) in s)
  }

  // ---- Filling the table ------------------------------------------------------------

  lemma ExtendEntry(p: seq<nat>, k: nat, bits: nat)
    requires |p| < MAX_BITERRORS
    ensures Entry(p + [k], bits)
         == ErrorInfo(Add(Syndrome(p, bits), BitSyndrome(k, bits)), |p| + 1, Pad(p)[|p| := k])
  {
    assert (p + [k])[..|p|] == p;
  }

  /** The syndrome of bit k of a shorter message is found at k + 112 - bits. */
  lemma OffsetSyndrome(k: nat, bits: nat)
    requires k < bits <= LONG_MSG_BITS
    ensures BitSyndrome(k + LONG_MSG_BITS - bits, LONG_MSG_BITS) == BitSyndrome(k, bits)
  {
  }

  method PrepareSubtable(tables: Tables, table: array<ErrorInfo>, n0: nat, offset: nat, startbit: nat, endbit: nat,
                         base: ErrorInfo, errorBit: nat, maxErrors: nat, ghost p: seq<nat>)
    returns (n: nat)
    requires tables.SyndromesReady() && tables.singleBitSyndrome as object != table
    requires startbit <= endbit && offset + endbit == LONG_MSG_BITS
    requires |p| == errorBit <= maxErrors <= MAX_BITERRORS && base == Entry(p, endbit)
    requires n0 + |Subsets(p, startbit, endbit, maxErrors - errorBit)| <= table.Length
    modifies table
    ensures n == n0 + |Subsets(p, startbit, endbit, maxErrors - errorBit)| <= table.Length
    ensures table[..n] == old(table[..n0]) + Entries(Subsets(p, startbit, endbit, maxErrors - errorBit), endbit)
    decreases maxErrors - errorBit
  {
    hide Add, BitSyndrome, Pad, Syndrome, Subsets, Entries;
    n := n0;
    SubsetsOfNothing(p, startbit, endbit);
    if errorBit >= maxErrors {
      assert Entries([], endbit) == [];
      return;
    }
    ghost var left := maxErrors - errorBit;
    ghost var all := Subsets(p, startbit, endbit, left);
    ghost var old0 := table[..n0];
    ghost var done: seq<seq<nat>> := [];
    assert Entries([], endbit) == [];
    assert done + all == all;
    for i := startbit to endbit
      invariant done + Subsets(p, i, endbit, left) == all
      invariant n == n0 + |done|
      invariant table[..n] == old0 + Entries(done, endbit)
      invariant tables.SyndromesReady()
    {
      ghost var deeper := Subsets(p + [i], i + 1, endbit, left - 1);
      ghost var done' := done + [p + [i]] + deeper;
      SubsetsSplit(done, p, i, endbit, left, all);
      NewEntry(p, i, endbit);
      ghost var before := table[..n];
      table[n] := ErrorInfo(Add(base.syndrome, tables.singleBitSyndrome[i + offset]), errorBit + 1,
        base.bit[errorBit := i]);
      n := n + 1;
      assert table[..n] == before + [Entry(p + [i], endbit)];
      n := PrepareSubtable(tables, table, n, offset, i + 1, endbit, table[n - 1], errorBit + 1, maxErrors, p + [i]);
      StepEntries(old0, done, p + [i], deeper, endbit);
      done := done';
    }
    NothingLeft(p, endbit, left);
    assert done == all;
  }

  lemma SubsetsOfNothing(p: seq<nat>, lo: nat, hi: nat)
    ensures Subsets(p, lo, hi, 0) == []
  {
  }

  lemma NothingLeft(p: seq<nat>, hi: nat, left: nat)
    ensures Subsets(p, hi, hi, left) == []
  {
  }

  lemma SubsetsSplit(done: seq<seq<nat>>, p: seq<nat>, i: nat, hi: nat, left: nat, all: seq<seq<nat>>)
    requires i < hi && left > 0
    requires done + Subsets(p, i, hi, left) == all
    ensures done + [p + [i]] + Subsets(p + [i], i + 1, hi, left - 1) + Subsets(p, i + 1, hi, left) == all
  {
    var a, b := Subsets(p + [i], i + 1, hi, left - 1), Subsets(p, i + 1, hi, left);
    assert Subsets(p, i, hi, left) == [p + [i]] + a + b;
    assert done + ([p + [i]] + a + b) == done + [p + [i]] + a + b;
  }

  lemma NewEntry(p: seq<nat>, k: nat, bits: nat)
    requires |p| < MAX_BITERRORS && k < bits <= LONG_MSG_BITS
    ensures Entry(p + [k], bits)
         == ErrorInfo(Add(Syndrome(p, bits), BitSyndrome(k + LONG_MSG_BITS - bits, LONG_MSG_BITS)),
                      |p| + 1, Pad(p)[|p| := k])
  {
    ExtendEntry(p, k, bits);
    OffsetSyndrome(k, bits);
  }

  lemma StepEntries(start: seq<ErrorInfo>, done: seq<seq<nat>>, q: seq<nat>, deeper: seq<seq<nat>>, bits: nat)
    ensures start + Entries(done, bits) + [Entry(q, bits)] + Entries(deeper, bits)
         == start + Entries(done + [q] + deeper, bits)
  {
    EntriesAppend(done + [q], deeper, bits);
    EntriesAppend(done, [q], bits);
    assert Entries([q], bits) == [Entry(q, bits)];
  }

  // ---- Sorting and searching: the C library's qsort and bsearch ----------------------

  function InsertSorted(s: seq<ErrorInfo>, e: ErrorInfo): seq<ErrorInfo> {
    if s == [] || Key(s[|s| - 1].syndrome) <= Key(e.syndrome) then s + [e]
    else InsertSorted(s[..|s| - 1], e) + [s[|s| - 1]]
  }

  function SortBySyndrome(s: seq<ErrorInfo>): seq<ErrorInfo> {
    if s == [] then [] else InsertSorted(SortBySyndrome(s[..|s| - 1]), s[|s| - 1])
  }

  lemma {:induction false} InsertSortedElements(s: seq<ErrorInfo>, e: ErrorInfo)
    ensures multiset(InsertSorted(s, e)) == multiset(s) + multiset{e}
  {
    hide Key;
    if s == [] || Key(s[|s| - 1].syndrome) <= Key(e.syndrome) {
    } else {
      InsertSortedElements(s[..|s| - 1], e);
      assert s == s[..|s| - 1] + [s[|s| - 1]];
    }
  }

  lemma {:induction false} InsertSortedIsSorted(s: seq<ErrorInfo>, e: ErrorInfo)
    requires Sorted(s)
    ensures Sorted(InsertSorted(s, e))
  {
    hide Key;
    if s == [] || Key(s[|s| - 1].syndrome) <= Key(e.syndrome) {
    } else {
      var t, last := s[..|s| - 1], s[|s| - 1];
      var r := InsertSorted(t, e);
      InsertSortedIsSorted(t, e);
      InsertSortedElements(t, e);
      forall k | 0 <= k < |r| ensures Key(r[k].syndrome) <= Key(last.syndrome) {
        assert r[k] in multiset(r);
        assert r[k] == e || r[k] in t;
      }
    }
  }

  lemma {:induction false} SortBySyndromeSorts(s: seq<ErrorInfo>)
    ensures Sorted(SortBySyndrome(s))
    ensures multiset(SortBySyndrome(s)) == multiset(s)
  {
    if s != [] {
      var t := s[..|s| - 1];
      SortBySyndromeSorts(t);
      InsertSortedIsSorted(SortBySyndrome(t), s[|s| - 1]);
      InsertSortedElements(SortBySyndrome(t), s[|s| - 1]);
      assert s == t + [s[|s| - 1]];
    }
  }

  method Qsort(table: array<ErrorInfo>)
    modifies table
    ensures Sorted(table[..])
    ensures multiset(table[..]) == old(multiset(table[..]))
  {
    ghost var was := table[..];
    hide SortBySyndrome, Sorted;
    var r := SortBySyndrome(table[..]);
    SortBySyndromeSorts(was);
    assert |r| == |multiset(r)| == |multiset(was)| == |was|;
    forall k | 0 <= k < table.Length {
      table[k] := r[k];
    }
    assert table[..] == r;
  }

  /** The entry with the given syndrome, if the table has one. */
  method Bsearch(table: array<ErrorInfo>, size: nat, syndrome: bv24) returns (found: Option<nat>)
    requires size <= table.Length && StrictlySorted(table[..size])
    ensures found.Some? ==> found.value < size && table[found.value].syndrome == syndrome
    ensures found.None? ==> forall k :: 0 <= k < size ==> table[k].syndrome != syndrome
  {
    hide Key;
    var lo, hi := 0, size;
    while lo < hi
      invariant lo <= hi <= size
      invariant forall k :: 0 <= k < lo ==> Key(table[..size][k].syndrome) < Key(syndrome)
      invariant forall k :: hi <= k < size ==> Key(syndrome) < Key(table[..size][k].syndrome)
    {
      var mid := (lo + hi) / 2;
      var key := table[mid].syndrome;
      if Key(key) < Key(syndrome) {
        lo := mid + 1;
      } else if Key(syndrome) < Key(key) {
        hi := mid;
      } else {
        KeyInjective(key, syndrome);
        return Some(mid);
      }
    }
    found := None;
    forall k | 0 <= k < size ensures table[k].syndrome != syndrome {
      assert table[..size][k] == table[k];
    }
  }

  // ---- Discarding collisions within the table ----------------------------------------

  /** Entry k of the sorted table s has a syndrome of its own. */
  predicate Single(s: seq<ErrorInfo>, k: nat)
    requires k < |s|
  {
    && (k == 0 || s[k - 1].syndrome != s[k].syndrome)
    && (k + 1 == |s| || s[k + 1].syndrome != s[k].syndrome)
  }

  /** The singles among the first i entries of s. */
  function Singles(s: seq<ErrorInfo>, i: nat): (r: seq<ErrorInfo>)
    requires i <= |s|
    ensures |r| <= i
  {
    if i == 0 then [] else Singles(s, i - 1) + (if Single(s, i - 1) then [s[i - 1]] else [])
  }

  /** The last two entries have the same syndrome. */
  predicate EndsInCollision(s: seq<ErrorInfo>) {
    |s| >= 2 && s[|s| - 2].syndrome == s[|s| - 1].syndrome
  }

  /** The syndrome read at index k of the table; past its end, whatever lies there. */
  function SyndromeAt(s: seq<ErrorInfo>, beyond: bv24, k: nat): bv24 {
    if k < |s| then s[k].syndrome else beyond
  }

  /** Compacts the sorted table to the entries whose syndrome is unique in it. The guard of the
      inner loop compares with the next entry before it knows that there is one: `overran` says
      whether it looked at the entry past the end, where `beyond` lies. That happens exactly if
      the table ends in a collision, and what lies there does not change the result. */
  method RemoveCollisions(table: array<ErrorInfo>, beyond: bv24) returns (j: nat, overran: bool)
    modifies table
    ensures j <= table.Length
    ensures table[..j] == Singles(old(table[..]), table.Length)
    ensures overran <==> EndsInCollision(old(table[..]))
  {
    hide Singles, Single;
    NoSingles(table[..]);
    ghost var s := table[..];
    var usedsize := table.Length;
    var i := 0;
    j, overran := 0, false;
    while i < usedsize
      invariant j <= i && j <= usedsize
      invariant 0 < i < usedsize ==> s[i - 1].syndrome != s[i].syndrome
      invariant table[..j] == Singles(s, if i < usedsize then i else usedsize)
      invariant forall k :: i <= k < usedsize ==> table[k] == s[k]
      invariant overran <==> i >= usedsize && EndsInCollision(s)
    {
      if i < usedsize - 1 && table[i + 1].syndrome == table[i].syndrome {
        i := SkipCollisions(table, beyond, i, s, j);
        overran := i >= usedsize - 1;
      } else {
        NextSingle(s, i);
        if i != j {
          table[j] := table[i];
        }
        j := j + 1;
        assert table[..j] == table[..j - 1] + [s[i]];
      }
      i := i + 1;
    }
  }

  lemma NoSingles(s: seq<ErrorInfo>)
    ensures Singles(s, 0) == []
  {
  }

  lemma NextSingle(s: seq<ErrorInfo>, i: nat)
    requires i < |s| && (i == 0 || s[i - 1].syndrome != s[i].syndrome)
      && (i + 1 == |s| || s[i + 1].syndrome != s[i].syndrome)
    ensures Singles(s, i + 1) == Singles(s, i) + [s[i]]
  {
  }

  /** The inner loop. It stops at the last entry of the run of collisions or, if that is the last
      entry of the table, there or one further, after reading past the end. */
  method SkipCollisions(table: array<ErrorInfo>, beyond: bv24, start: nat, ghost s: seq<ErrorInfo>, ghost j: nat)
    returns (i: nat)
    requires |s| == table.Length && start + 1 < |s| && j <= start
    requires forall k :: start <= k < |s| ==> table[k] == s[k]
    requires 0 < start ==> s[start - 1].syndrome != s[start].syndrome
    requires s[start].syndrome == s[start + 1].syndrome
    ensures start < i <= |s|
    ensures Singles(s, if i < |s| then i + 1 else |s|) == Singles(s, start)
    ensures i + 1 < |s| ==> s[i].syndrome != s[i + 1].syndrome
    ensures i >= |s| - 1 <==> forall k :: start <= k < |s| ==> s[k].syndrome == s[start].syndrome
  {
    i := start;
    while i < table.Length && SyndromeAt(table[..], beyond, i + 1) == table[i].syndrome
      invariant start <= i <= table.Length
      invariant forall k :: start <= k <= i && k < |s| ==> s[k].syndrome == s[start].syndrome
      invariant Singles(s, i) == Singles(s, start)
      decreases table.Length - i
    {
      assert !Single(s, i);
      i := i + 1;
    }
    if i < |s| {
      assert !Single(s, i);
    }
  }

  /** A sorted table for which the loop reads past the end. */
  lemma OverrunExample()
    ensures var s := [ErrorInfo(3, 1, [0, -1]), ErrorInfo(5, 1, [1, -1]), ErrorInfo(5, 2, [2, 3])];
      EndsInCollision(s) && Singles(s, 3) == [s[0]]
  {
    var s := [ErrorInfo(3, 1, [0, -1]), ErrorInfo(5, 1, [1, -1]), ErrorInfo(5, 2, [2, 3])];
    assert Single(s, 0) && !Single(s, 1) && !Single(s, 2);
    assert Singles(s, 1) == [s[0]];
  }

  // ---- Flagging collisions that are detected but not corrected -----------------------

  /** Some pattern of ps with at least `first` errors has the given syndrome. */
  ghost predicate Hit(syndrome: bv24, ps: seq<seq<nat>>, first: nat, bits: nat) {
    exists k :: 0 <= k < |ps| && |ps[k]| >= first && Syndrome(ps[k], bits) == syndrome
  }

  function Flag(e: ErrorInfo): ErrorInfo {
    e.(errors := -1)
  }

  /** The table after flagging every entry whose syndrome is hit. */
  ghost function Flagged(s: seq<ErrorInfo>, ps: seq<seq<nat>>, first: nat, bits: nat): (r: seq<ErrorInfo>)
    ensures |r| == |s|
  {
    seq(|s|, k requires 0 <= k < |s| => if Hit(s[k].syndrome, ps, first, bits) then Flag(s[k]) else s[k])
  }

  lemma HitAppend(syndrome: bv24, a: seq<seq<nat>>, b: seq<seq<nat>>, first: nat, bits: nat)
    ensures Hit(syndrome, a + b, first, bits) <==> Hit(syndrome, a, first, bits) || Hit(syndrome, b, first, bits)
  {
    var ps := a + b;
    if Hit(syndrome, a, first, bits) {
      var k :| 0 <= k < |a| && |a[k]| >= first && Syndrome(a[k], bits) == syndrome;
      assert ps[k] == a[k];
    }
    if Hit(syndrome, b, first, bits) {
      var k :| 0 <= k < |b| && |b[k]| >= first && Syndrome(b[k], bits) == syndrome;
      assert ps[|a| + k] == b[k];
    }
    if Hit(syndrome, ps, first, bits) {
      var k :| 0 <= k < |ps| && |ps[k]| >= first && Syndrome(ps[k], bits) == syndrome;
      assert ps[k] == if k < |a| then a[k] else b[k - |a|];
    }
  }

  lemma FlaggedAppend(s: seq<ErrorInfo>, a: seq<seq<nat>>, b: seq<seq<nat>>, first: nat, bits: nat)
    ensures Flagged(Flagged(s, a, first, bits), b, first, bits) == Flagged(s, a + b, first, bits)
  {
    var t := Flagged(s, a, first, bits);
    forall k | 0 <= k < |s| ensures Flagged(t, b, first, bits)[k] == Flagged(s, a + b, first, bits)[k] {
      HitAppend(s[k].syndrome, a, b, first, bits);
    }
  }

  lemma FlaggedNothing(s: seq<ErrorInfo>, first: nat, bits: nat)
    ensures Flagged(s, [], first, bits) == s
  {
  }

  lemma FlaggedSorted(s: seq<ErrorInfo>, ps: seq<seq<nat>>, first: nat, bits: nat)
    requires StrictlySorted(s)
    ensures StrictlySorted(Flagged(s, ps, first, bits))
  {
    hide Key;
  }

  /** Flagging for a single pattern changes the one entry with its syndrome. */
  lemma FlaggedOne(s: seq<ErrorInfo>, p: seq<nat>, first: nat, bits: nat, found: Option<nat>)
    requires StrictlySorted(s)
    requires found.Some? ==> found.value < |s| && s[found.value].syndrome == Syndrome(p, bits)
    requires found.None? ==> forall k :: 0 <= k < |s| ==> s[k].syndrome != Syndrome(p, bits)
    ensures Flagged(s, [p], first, bits)
         == if |p| >= first && found.Some? then s[found.value := Flag(s[found.value])] else s
  {
    hide Key, Syndrome;
    var ps := [p];
    forall k | 0 <= k < |s|
      ensures Hit(s[k].syndrome, ps, first, bits) <==> |p| >= first && s[k].syndrome == Syndrome(p, bits)
    {
      if |p| >= first && s[k].syndrome == Syndrome(p, bits) {
        assert ps[0] == p;
      }
    }
  }

  method FlagCollisions(tables: Tables, table: array<ErrorInfo>, size: nat, offset: nat, startbit: nat, endbit: nat,
                        baseSyndrome: bv24, errorBit: nat, first: nat, last: nat, ghost p: seq<nat>)
    returns (count: nat)
    requires tables.SyndromesReady() && tables.singleBitSyndrome as object != table
    requires startbit <= endbit && offset + endbit == LONG_MSG_BITS
    requires |p| + 1 == errorBit <= last + 1 && baseSyndrome == Syndrome(p, endbit)
    requires size <= table.Length && StrictlySorted(table[..size])
    modifies table
    ensures table[..size]
         == Flagged(old(table[..size]), Subsets(p, startbit, endbit, last + 1 - errorBit), first, endbit)
    ensures count == 0 ==> table[..size] == old(table[..size])
    decreases last + 1 - errorBit
  {
    hide Add, BitSyndrome, Syndrome, Subsets, Flagged, StrictlySorted;
    count := 0;
    ghost var s := table[..size];
    SubsetsOfNothing(p, startbit, endbit);
    FlaggedNothing(s, first, endbit);
    if errorBit > last {
      return;
    }
    ghost var left := last + 1 - errorBit;
    ghost var all := Subsets(p, startbit, endbit, left);
    ghost var done: seq<seq<nat>> := [];
    assert done + all == all;
    for i := startbit to endbit
      invariant done + Subsets(p, i, endbit, left) == all
      invariant table[..size] == Flagged(s, done, first, endbit)
      invariant StrictlySorted(table[..size])
      invariant count == 0 ==> table[..size] == s
      invariant tables.SyndromesReady()
    {
      ghost var deeper := Subsets(p + [i], i + 1, endbit, left - 1);
      SubsetsSplit(done, p, i, endbit, left, all);
      NewSyndrome(p, i, endbit);
      var syndrome := Add(baseSyndrome, tables.singleBitSyndrome[i + offset]);
      ghost var before := table[..size];
      var found := Bsearch(table, size, syndrome);
      assert found.None? ==> forall k :: 0 <= k < size ==> before[k].syndrome != syndrome;
      FlaggedOne(before, p + [i], first, endbit, found);
      if errorBit >= first {
        if found.Some? && table[found.value].errors != -1 {
          count := count + 1;
          table[found.value] := table[found.value].(errors := -1);
        }
        assert table[..size] == if found.Some? then before[found.value := Flag(before[found.value])] else before;
      }
      FlaggedSorted(before, [p + [i]], first, endbit);
      ghost var middle := table[..size];
      var more := FlagCollisions(tables, table, size, offset, i + 1, endbit, syndrome, errorBit + 1,
        first, last, p + [i]);
      count := count + more;
      FlaggedSorted(middle, deeper, first, endbit);
      FlaggedAppend(s, done, [p + [i]], first, endbit);
      FlaggedAppend(s, done + [p + [i]], deeper, first, endbit);
      done := done + [p + [i]] + deeper;
    }
    NothingLeft(p, endbit, left);
    assert done == all;
  }

  lemma NewSyndrome(p: seq<nat>, k: nat, bits: nat)
    requires k < bits <= LONG_MSG_BITS
    ensures Syndrome(p + [k], bits) == Add(Syndrome(p, bits), BitSyndrome(k + LONG_MSG_BITS - bits, LONG_MSG_BITS))
  {
    assert (p + [k])[..|p|] == p;
    OffsetSyndrome(k, bits);
  }

  /** The entries among the first i that are not flagged. */
  function Unflagged(s: seq<ErrorInfo>): (r: seq<ErrorInfo>)
    ensures |r| <= |s|
  {
    if s == [] then []
    else Unflagged(s[..|s| - 1]) + (if s[|s| - 1].errors != -1 then [s[|s| - 1]] else [])
  }

  method RemoveFlagged(table: array<ErrorInfo>, usedsize: nat) returns (j: nat)
    requires usedsize <= table.Length
    modifies table
    ensures j <= usedsize
    ensures table[..j] == Unflagged(old(table[..usedsize]))
  {
    ghost var s := table[..usedsize];
    j := 0;
    for i := 0 to usedsize
      invariant j <= i
      invariant table[..j] == Unflagged(s[..i])
      invariant forall k :: i <= k < usedsize ==> table[k] == s[k]
    {
      assert s[..i + 1][..i] == s[..i];
      if table[i].errors != -1 {
        if i != j {
          table[j] := table[i];
        }
        j := j + 1;
        assert table[..j] == table[..j - 1] + [s[i]];
      }
    }
    assert s[..usedsize] == s;
  }
}
