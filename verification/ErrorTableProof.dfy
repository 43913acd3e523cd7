/** Why the table built by prepareErrorTable is complete: its entries are exactly the
    patterns of at most maxCorrect errors whose syndrome no other pattern of at most
    maxDetect errors shares. */
module ErrorTableProof {
  import opened ErrorPatterns
  import opened ErrorTable
  import opened Sequences

  ghost predicate ShortPattern(p: seq<nat>, bits: nat, k: nat) {
    IsPattern(p, bits) && 1 <= |p| <= k
  }

  ghost predicate FromPattern(e: ErrorInfo, bits: nat, k: nat) {
    exists p :: ShortPattern(p, bits, k) && e == Entry(p, bits)
  }

  /** t lists the entry of every pattern of 1 to k errors exactly once. */
  ghost predicate Listing(t: seq<ErrorInfo>, bits: nat, k: nat) {
    && NoDuplicates(t)
    && (forall i :: 0 <= i < |t| ==> FromPattern(t[i], bits, k))
    && (forall p :: ShortPattern(p, bits, k) ==> Entry(p, bits) in t)
  }

  lemma SubsetsOfMessage(bits: nat, k: nat, p: seq<nat>)
    ensures p in Subsets([], 0, bits, k) <==> ShortPattern(p, bits, k)
  {
    SubsetsMembers([], 0, bits, k, p);
    assert p[0..] == p;
  }

  lemma EnumerationIsListing(bits: nat, k: nat)
    requires k <= MAX_BITERRORS
    ensures Listing(Entries(Subsets([], 0, bits, k), bits), bits, k)
  {
    hide Pad, Syndrome;
    var ps := Subsets([], 0, bits, k);
    var t := Entries(ps, bits);
    forall i, j | 0 <= i < j < |t| ensures t[i] != t[j] {
      SubsetsDistinct([], 0, bits, k, i, j);
      SubsetsOfMessage(bits, k, ps[i]);
      SubsetsOfMessage(bits, k, ps[j]);
      if t[i] == t[j] {
        EntryInjective(ps[i], ps[j], bits);
      }
    }
    forall i | 0 <= i < |t| ensures FromPattern(t[i], bits, k) {
      SubsetsOfMessage(bits, k, ps[i]);
    }
    forall p | ShortPattern(p, bits, k) ensures Entry(p, bits) in t {
      SubsetsOfMessage(bits, k, p);
      var i :| 0 <= i < |ps| && ps[i] == p;
      assert t[i] == Entry(p, bits);
    }
  }

  lemma TwiceMeansTwo<T>(t: seq<T>, i: nat, j: nat)
    requires i < j < |t| && t[i] == t[j]
    ensures multiset(t)[t[i]] >= 2
  {
    assert t == t[..j] + [t[j]] + t[j + 1..];
    assert t[..j] == t[..i] + [t[i]] + t[i + 1..j];
  }

  lemma {:induction false} DistinctMeansOne<T>(t: seq<T>, x: T)
    requires forall i, j :: 0 <= i < j < |t| ==> t[i] != t[j]
    ensures multiset(t)[x] <= 1
  {
    if t != [] {
      var n := |t| - 1;
      assert t == t[..n] + [t[n]];
      DistinctMeansOne(t[..n], x);
      if t[n] == x {
        assert x !in t[..n];
      }
    }
  }

  /** Sorting does not matter. */
  lemma ListingPermutation(a: seq<ErrorInfo>, b: seq<ErrorInfo>, bits: nat, k: nat)
    requires Listing(a, bits, k) && multiset(a) == multiset(b)
    ensures Listing(b, bits, k)
  {
    forall i, j | 0 <= i < j < |b| ensures b[i] != b[j] {
      if b[i] == b[j] {
        TwiceMeansTwo(b, i, j);
        DistinctMeansOne(a, b[i]);
      }
    }
    forall i | 0 <= i < |b| ensures FromPattern(b[i], bits, k) {
      assert b[i] in multiset(a);
      var m :| 0 <= m < |a| && a[m] == b[i];
    }
    forall p | ShortPattern(p, bits, k) ensures Entry(p, bits) in b {
      assert Entry(p, bits) in multiset(b);
    }
  }

  // ---- Entries with a syndrome of their own ------------------------------------------

  lemma {:induction false} SinglesMembers(t: seq<ErrorInfo>, i: nat, e: ErrorInfo)
    requires i <= |t|
    ensures e in Singles(t, i) <==> exists k :: 0 <= k < i && Single(t, k) && t[k] == e
  {
    if i > 0 {
      SinglesMembers(t, i - 1, e);
    }
  }

  lemma {:induction false} SinglesSorted(t: seq<ErrorInfo>, i: nat)
    requires i <= |t| && Sorted(t)
    ensures StrictlySorted(Singles(t, i))
  {
    hide Key, Single;
    if i > 0 {
      SinglesSorted(t, i - 1);
      if Single(t, i - 1) {
        var s := Singles(t, i - 1);
        forall m | 0 <= m < |s| ensures Key(s[m].syndrome) < Key(t[i - 1].syndrome) {
          SinglesMembers(t, i - 1, s[m]);
          var k :| 0 <= k < i - 1 && Single(t, k) && t[k] == s[m];
          SingleIsLarger(t, k, i - 1);
        }
      }
    }
  }

  lemma SingleIsLarger(t: seq<ErrorInfo>, k: nat, i: nat)
    requires k < i < |t| && Sorted(t) && Single(t, i)
    ensures Key(t[k].syndrome) < Key(t[i].syndrome)
  {
    hide Key;
    if Key(t[i - 1].syndrome) == Key(t[i].syndrome) {
      KeyInjective(t[i - 1].syndrome, t[i].syndrome);
    }
  }

  /** In a sorted table, an entry is single exactly if its syndrome occurs nowhere else. */
  lemma SingleMeansUnique(t: seq<ErrorInfo>, i: nat)
    requires i < |t| && Sorted(t)
    ensures Single(t, i) <==> forall m :: 0 <= m < |t| && m != i ==> t[m].syndrome != t[i].syndrome
  {
    hide Key;
    if Single(t, i) {
      forall m | 0 <= m < |t| && m != i ensures t[m].syndrome != t[i].syndrome {
        if m < i {
          SingleIsLarger(t, m, i);
        } else {
          if Key(t[i + 1].syndrome) == Key(t[i].syndrome) {
            KeyInjective(t[i + 1].syndrome, t[i].syndrome);
          }
        }
      }
    }
  }

  lemma SingleIsCorrectable(t: seq<ErrorInfo>, bits: nat, k: nat, i: nat, p: seq<nat>)
    requires k <= MAX_BITERRORS && Sorted(t) && Listing(t, bits, k)
    requires i < |t| && ShortPattern(p, bits, k) && t[i] == Entry(p, bits)
    ensures Single(t, i) <==> Correctable(p, bits, k, k)
  {
    hide Pad, Syndrome, Key, Sorted;
    SingleMeansUnique(t, i);
    if Single(t, i) {
      forall q | IsPattern(q, bits) && 1 <= |q| <= k && Syndrome(q, bits) == Syndrome(p, bits) ensures q == p {
        assert ShortPattern(q, bits, k);
        var m :| 0 <= m < |t| && t[m] == Entry(q, bits);
        assert m == i;
        EntryInjective(p, q, bits);
      }
    }
    if Correctable(p, bits, k, k) {
      forall m | 0 <= m < |t| && m != i ensures t[m].syndrome != t[i].syndrome {
        var q :| ShortPattern(q, bits, k) && t[m] == Entry(q, bits);
        assert t[m] != t[i];
      }
    }
  }

  lemma SinglesComplete(t: seq<ErrorInfo>, bits: nat, k: nat)
    requires k <= MAX_BITERRORS && Sorted(t) && Listing(t, bits, k)
    ensures Complete(Singles(t, |t|), bits, k, k)
  {
    hide Pad, Syndrome, Key, Single, Sorted;
    var u := Singles(t, |t|);
    SinglesSorted(t, |t|);
    forall m | 0 <= m < |u| ensures Corrects(u[m], bits, k, k) {
      SinglesMembers(t, |t|, u[m]);
      var i :| 0 <= i < |t| && Single(t, i) && t[i] == u[m];
      var p :| ShortPattern(p, bits, k) && t[i] == Entry(p, bits);
      SingleIsCorrectable(t, bits, k, i, p);
    }
    forall p | Correctable(p, bits, k, k) ensures Entry(p, bits) in u {
      assert ShortPattern(p, bits, k);
      var i :| 0 <= i < |t| && t[i] == Entry(p, bits);
      SingleIsCorrectable(t, bits, k, i, p);
      SinglesMembers(t, |t|, Entry(p, bits));
    }
  }

  /** Two patterns of at most k errors share a syndrome, and no such pattern has a greater one. */
  ghost predicate AmbiguousMaximum(bits: nat, k: nat) {
    exists p, q :: AmbiguousPair(p, q, bits, k)
  }

  ghost predicate AmbiguousPair(p: seq<nat>, q: seq<nat>, bits: nat, k: nat) {
    && ShortPattern(p, bits, k) && ShortPattern(q, bits, k) && p != q && Syndrome(p, bits) == Syndrome(q, bits)
    && forall r :: ShortPattern(r, bits, k) ==> Key(Syndrome(r, bits)) <= Key(Syndrome(p, bits))
  }

  /** The table of all patterns ends in a collision exactly if the greatest syndrome is ambiguous. */
  lemma EndsInCollisionExactly(t: seq<ErrorInfo>, bits: nat, k: nat)
    requires k <= MAX_BITERRORS && Sorted(t) && Listing(t, bits, k)
    ensures EndsInCollision(t) <==> AmbiguousMaximum(bits, k)
  {
    hide Pad, Syndrome, Key;
    if EndsInCollision(t) {
      var p :| ShortPattern(p, bits, k) && t[|t| - 2] == Entry(p, bits);
      var q :| ShortPattern(q, bits, k) && t[|t| - 1] == Entry(q, bits);
      forall r | ShortPattern(r, bits, k) ensures Key(Syndrome(r, bits)) <= Key(Syndrome(q, bits)) {
        var i :| 0 <= i < |t| && t[i] == Entry(r, bits);
      }
      assert AmbiguousPair(p, q, bits, k);
    }
    if p, q :| AmbiguousPair(p, q, bits, k) {
      var i :| 0 <= i < |t| && t[i] == Entry(p, bits);
      var j :| 0 <= j < |t| && t[j] == Entry(q, bits);
      if i == j {
        EntryInjective(p, q, bits);
      }
      GreatestIsLast(t, bits, k, if i < j then i else j, if i < j then j else i);
    }
  }

  lemma GreatestIsLast(t: seq<ErrorInfo>, bits: nat, k: nat, i: nat, j: nat)
    requires Sorted(t) && Listing(t, bits, k) && i < j < |t| && t[i].syndrome == t[j].syndrome
    requires forall r :: ShortPattern(r, bits, k) ==> Key(Syndrome(r, bits)) <= Key(t[i].syndrome)
    ensures EndsInCollision(t)
  {
    hide Pad, Syndrome, Key;
    var n := |t|;
    var p :| ShortPattern(p, bits, k) && t[n - 1] == Entry(p, bits);
    assert Key(t[n - 2].syndrome) == Key(t[n - 1].syndrome) == Key(t[i].syndrome);
    KeyInjective(t[n - 2].syndrome, t[n - 1].syndrome);
  }

  // ---- Flagged entries ---------------------------------------------------------------

  lemma {:induction false} UnflaggedMembers(s: seq<ErrorInfo>, e: ErrorInfo)
    ensures e in Unflagged(s) <==> e in s && e.errors != -1
  {
    if s != [] {
      UnflaggedMembers(s[..|s| - 1], e);
      assert s == s[..|s| - 1] + [s[|s| - 1]];
    }
  }

  lemma {:induction false} UnflaggedSorted(s: seq<ErrorInfo>)
    requires StrictlySorted(s)
    ensures StrictlySorted(Unflagged(s))
  {
    hide Key;
    if s != [] {
      var t, last := s[..|s| - 1], s[|s| - 1];
      UnflaggedSorted(t);
      var u := Unflagged(t);
      forall m | 0 <= m < |u| ensures Key(u[m].syndrome) < Key(last.syndrome) {
        UnflaggedMembers(t, u[m]);
        var k :| 0 <= k < |t| && t[k] == u[m];
        assert s[k] == u[m];
      }
    }
  }

  lemma HitMeansCollision(bits: nat, first: nat, last: nat, syndrome: bv24)
    requires first >= 1
    ensures Hit(syndrome, Subsets([], 0, bits, last), first, bits)
       <==> exists q :: IsPattern(q, bits) && first <= |q| <= last && Syndrome(q, bits) == syndrome
  {
    hide Syndrome;
    var ps := Subsets([], 0, bits, last);
    if Hit(syndrome, ps, first, bits) {
      var k :| 0 <= k < |ps| && |ps[k]| >= first && Syndrome(ps[k], bits) == syndrome;
      SubsetsOfMessage(bits, last, ps[k]);
    }
    if q :| IsPattern(q, bits) && first <= |q| <= last && Syndrome(q, bits) == syndrome {
      SubsetsOfMessage(bits, last, q);
      var k :| 0 <= k < |ps| && ps[k] == q;
    }
  }

  /** A pattern correctable against maxCorrect errors stays correctable against maxDetect
      errors exactly if no longer pattern hits its syndrome. */
  lemma DetectMore(p: seq<nat>, bits: nat, maxCorrect: nat, maxDetect: nat)
    requires maxCorrect <= maxDetect
    ensures Correctable(p, bits, maxCorrect, maxDetect)
       <==> Correctable(p, bits, maxCorrect, maxCorrect)
            && !Hit(Syndrome(p, bits), Subsets([], 0, bits, maxDetect), maxCorrect + 1, bits)
  {
    hide Syndrome, Hit;
    HitMeansCollision(bits, maxCorrect + 1, maxDetect, Syndrome(p, bits));
  }

  lemma FlaggingCompletes(u: seq<ErrorInfo>, bits: nat, maxCorrect: nat, maxDetect: nat)
    requires maxCorrect <= MAX_BITERRORS && maxCorrect < maxDetect
    requires Complete(u, bits, maxCorrect, maxCorrect)
    ensures Complete(Unflagged(Flagged(u, Subsets([], 0, bits, maxDetect), maxCorrect + 1, bits)), bits,
      maxCorrect, maxDetect)
  {
    hide Syndrome, Hit, Pad, Key;
    var ps := Subsets([], 0, bits, maxDetect);
    var f := Flagged(u, ps, maxCorrect + 1, bits);
    var v := Unflagged(f);
    FlaggedSorted(u, ps, maxCorrect + 1, bits);
    UnflaggedSorted(f);
    forall m | 0 <= m < |v| ensures Corrects(v[m], bits, maxCorrect, maxDetect) {
      UnflaggedCorrects(u, bits, maxCorrect, maxDetect, v[m]);
    }
    forall p | Correctable(p, bits, maxCorrect, maxDetect) ensures Entry(p, bits) in v {
      CorrectableStays(u, bits, maxCorrect, maxDetect, p);
    }
  }

  /** An entry that was not flagged corrects one pattern without ambiguity. */
  lemma UnflaggedCorrects(u: seq<ErrorInfo>, bits: nat, maxCorrect: nat, maxDetect: nat, e: ErrorInfo)
    requires maxCorrect <= MAX_BITERRORS && maxCorrect < maxDetect
    requires Complete(u, bits, maxCorrect, maxCorrect)
    requires e in Unflagged(Flagged(u, Subsets([], 0, bits, maxDetect), maxCorrect + 1, bits))
    ensures Corrects(e, bits, maxCorrect, maxDetect)
  {
    hide Syndrome, Hit, Pad, Key, Correctable;
    var ps := Subsets([], 0, bits, maxDetect);
    var f := Flagged(u, ps, maxCorrect + 1, bits);
    UnflaggedMembers(f, e);
    var k :| 0 <= k < |f| && f[k] == e;
    assert e == u[k] && !Hit(u[k].syndrome, ps, maxCorrect + 1, bits);
    var p :| Correctable(p, bits, maxCorrect, maxCorrect) && u[k] == Entry(p, bits);
    DetectMore(p, bits, maxCorrect, maxDetect);
  }

  /** A pattern that stays correctable keeps its entry. */
  lemma CorrectableStays(u: seq<ErrorInfo>, bits: nat, maxCorrect: nat, maxDetect: nat, p: seq<nat>)
    requires maxCorrect <= MAX_BITERRORS && maxCorrect < maxDetect
    requires Complete(u, bits, maxCorrect, maxCorrect) && Correctable(p, bits, maxCorrect, maxDetect)
    ensures Entry(p, bits) in Unflagged(Flagged(u, Subsets([], 0, bits, maxDetect), maxCorrect + 1, bits))
  {
    hide Syndrome, Hit, Pad, Key, Correctable;
    var f := Flagged(u, Subsets([], 0, bits, maxDetect), maxCorrect + 1, bits);
    DetectMore(p, bits, maxCorrect, maxDetect);
    var k :| 0 <= k < |u| && u[k] == Entry(p, bits);
    assert f[k] == u[k];
    UnflaggedMembers(f, f[k]);
  }

  lemma NothingFlagged(u: seq<ErrorInfo>, bits: nat, maxCorrect: nat, maxDetect: nat)
    requires maxCorrect <= MAX_BITERRORS && maxCorrect < maxDetect
    requires Complete(u, bits, maxCorrect, maxCorrect)
    requires Flagged(u, Subsets([], 0, bits, maxDetect), maxCorrect + 1, bits) == u
    ensures Complete(u, bits, maxCorrect, maxDetect)
  {
    hide Syndrome, Hit, Pad, Key;
    forall k | 0 <= k < |u| ensures u[k].errors != -1 {
      assert Corrects(u[k], bits, maxCorrect, maxCorrect);
      var p :| Correctable(p, bits, maxCorrect, maxCorrect) && u[k] == Entry(p, bits);
    }
    AllUnflagged(u);
    FlaggingCompletes(u, bits, maxCorrect, maxDetect);
  }

  lemma {:induction false} AllUnflagged(s: seq<ErrorInfo>)
    requires forall k :: 0 <= k < |s| ==> s[k].errors != -1
    ensures Unflagged(s) == s
  {
    if s != [] {
      AllUnflagged(s[..|s| - 1]);
      assert s == s[..|s| - 1] + [s[|s| - 1]];
    }
  }
}
