/** Building the tables (prepareErrorTable, modesChecksumInit), looking a syndrome up
    (modesChecksumDiagnose), repairing a message (modesChecksumFix), and the theorem that
    the three together are a bounded-distance decoder. */
module ErrorCorrection {
  import opened Bits
  import opened Polynomial
  import opened Checksum
  import opened CodeDistance
  import opened ErrorPatterns
  import opened ErrorTable
  import opened ErrorTableProof
  import opened Lookup
  import opened Options

  // ---- prepareErrorTable -------------------------------------------------------------

  ghost predicate Ready(table: array?<ErrorInfo>, size: nat, bits: nat, maxCorrect: nat, maxDetect: nat)
    reads table
  {
    if maxCorrect == 0 then table == null && size == 0
    else table != null && size <= table.Length && Complete(table[..size], bits, maxCorrect, maxDetect)
  }

  /** Space for all patterns of 1 to maxCorrect errors. */
  method TableSize(bits: nat, maxCorrect: nat) returns (maxsize: nat)
    ensures maxsize == BinomialSum(bits, maxCorrect)
  {
    maxsize := 0;
    for i := 1 to maxCorrect + 1
      invariant maxsize == BinomialSum(bits, i - 1)
    {
      var c := Combinations(bits, i);
      maxsize := maxsize + c;
    }
  }

  /** All patterns, sorted by syndrome. PrepareSubtable never runs out of space: its bound
      on n is what the assertion of prepareSubtable demands. */
  method FillAndSort(tables: Tables, bits: nat, maxCorrect: nat) returns (t: array<ErrorInfo>)
    requires tables.SyndromesReady()
    requires bits <= LONG_MSG_BITS && maxCorrect <= MAX_BITERRORS
    ensures fresh(t) && Sorted(t[..]) && Listing(t[..], bits, maxCorrect)
  {
    hide Sorted, Listing;
    var maxsize := TableSize(bits, maxCorrect);
    SubsetsCount([], 0, bits, maxCorrect);
    t := new ErrorInfo[maxsize];
    EmptyEntry(bits);
    var usedsize := PrepareSubtable(tables, t, 0, LONG_MSG_BITS - bits, 0, bits,
                                    ErrorInfo(0, 0, [-1, -1]), 0, maxCorrect, []);
    assert t[..usedsize] == t[..];
    ghost var filled := t[..];
    assert filled == Entries(Subsets([], 0, bits, maxCorrect), bits);
    EnumerationIsListing(bits, maxCorrect);
    Qsort(t);
    ListingPermutation(filled, t[..], bits, maxCorrect);
  }

  /** Patterns of at most 2 errors in at most 112 bits have different syndromes. */
  lemma NoCollisions(bits: nat, k: nat)
    requires bits <= LONG_MSG_BITS && k <= MAX_BITERRORS
    ensures !AmbiguousMaximum(bits, k)
  {
    hide Syndrome, Key, IsPattern;
    if p, q :| AmbiguousPair(p, q, bits, k) {
      SyndromesDiffer(p, q, bits);
    }
  }

  /** prepareErrorTable. `overran` says whether removing collisions read past the end of the table. */
  method PrepareErrorTable(tables: Tables, bits: nat, maxCorrect: nat, maxDetect: nat)
    returns (table: array?<ErrorInfo>, size: nat, overran: bool)
    requires tables.SyndromesReady()
    requires bits <= LONG_MSG_BITS && maxCorrect <= MAX_BITERRORS && maxCorrect <= maxDetect
    ensures Ready(table, size, bits, maxCorrect, maxDetect)
    ensures table != null ==> fresh(table)
    ensures !overran
  {
    hide Complete, Sorted, Listing, StrictlySorted, Flagged, Subsets, Singles, AmbiguousMaximum;
    if maxCorrect == 0 {
      return null, 0, false;
    }
    var t := FillAndSort(tables, bits, maxCorrect);
    ghost var sorted := t[..];
    var beyond: bv24 := *;
    var usedsize: nat;
    usedsize, overran := RemoveCollisions(t, beyond);
    SinglesComplete(sorted, bits, maxCorrect);
    EndsInCollisionExactly(sorted, bits, maxCorrect);
    NoCollisions(bits, maxCorrect);
    if maxDetect > maxCorrect {
      usedsize := DiscardFlagged(tables, t, usedsize, bits, maxCorrect, maxDetect);
    }
    table, size := t, usedsize;
  }

  /** The last phase: discard what a longer detectable pattern collides with. */
  method DiscardFlagged(tables: Tables, t: array<ErrorInfo>, size: nat, bits: nat, maxCorrect: nat, maxDetect: nat)
    returns (usedsize: nat)
    requires tables.SyndromesReady() && tables.singleBitSyndrome as object != t
    requires bits <= LONG_MSG_BITS && maxCorrect <= MAX_BITERRORS && maxCorrect < maxDetect
    requires size <= t.Length && Complete(t[..size], bits, maxCorrect, maxCorrect)
    modifies t
    ensures usedsize <= size && Complete(t[..usedsize], bits, maxCorrect, maxDetect)
  {
    hide Complete, StrictlySorted, Flagged, Subsets;
    ghost var uncollided := t[..size];
    usedsize := size;
    CompleteIsSorted(uncollided, bits, maxCorrect, maxCorrect);
    EmptyEntry(bits);
    var flagged := FlagCollisions(tables, t, usedsize, LONG_MSG_BITS - bits, 0, bits, 0, 1,
      maxCorrect + 1, maxDetect, []);
    FlaggingCompletes(uncollided, bits, maxCorrect, maxDetect);
    if flagged > 0 {
      usedsize := RemoveFlagged(t, usedsize);
    } else {
      NothingFlagged(uncollided, bits, maxCorrect, maxDetect);
    }
  }

  lemma EmptyEntry(bits: nat)
    ensures Entry([], bits) == ErrorInfo(0, 0, [-1, -1])
    ensures Syndrome([], bits) == 0
  {
    assert Pad([]) == [-1, -1];
  }

  lemma CompleteIsSorted(s: seq<ErrorInfo>, bits: nat, maxCorrect: nat, maxDetect: nat)
    requires Complete(s, bits, maxCorrect, maxDetect)
    ensures StrictlySorted(s)
  {
  }

  // ---- modesChecksumInit, modesChecksumDiagnose ---------------------------------------

  function MaxCorrect(fixBits: int): nat {
    if fixBits == 0 then 0 else if fixBits == 1 then 1 else 2
  }

  function MaxDetect(fixBits: int): nat {
    if fixBits == 0 then 0 else if fixBits == 1 then 1 else 4
  }

  /** What a diagnosis must be, said without tables. */
  ghost function Diagnosis(syndrome: bv24, bits: nat, maxCorrect: nat, maxDetect: nat): (d: Option<ErrorInfo>)
  {
    if syndrome == 0 then Some(NO_ERRORS)
    else if p :| Correctable(p, bits, maxCorrect, maxDetect) && Syndrome(p, bits) == syndrome then Some(Entry(p, bits))
    else None
  }

  class Corrector {
    const tables: Tables
    ghost const fixBits: int
    var shortTable: array?<ErrorInfo>
    var shortSize: nat
    var longTable: array?<ErrorInfo>
    var longSize: nat

    ghost predicate Valid()
      reads this, tables.crcTable, tables.singleBitSyndrome, shortTable, longTable
    {
      && tables.Valid()
      && Ready(shortTable, shortSize, SHORT_MSG_BITS, MaxCorrect(fixBits), MaxDetect(fixBits))
      && Ready(longTable, longSize, LONG_MSG_BITS, MaxCorrect(fixBits), MaxDetect(fixBits))
    }

    constructor (fixBits: int)
      ensures Valid() && this.fixBits == fixBits
      ensures fresh(tables.crcTable) && fresh(tables.singleBitSyndrome)
    {
      this.fixBits := fixBits;
      tables := new Tables();
      shortTable, shortSize, longTable, longSize := null, 0, null, 0;
      new;
      hide Complete;
      var overran: bool;
      if fixBits == 0 {
      } else if fixBits == 1 {
        shortTable, shortSize, overran := PrepareErrorTable(tables, SHORT_MSG_BITS, 1, 1);
        longTable, longSize, overran := PrepareErrorTable(tables, LONG_MSG_BITS, 1, 1);
      } else {
        shortTable, shortSize, overran := PrepareErrorTable(tables, SHORT_MSG_BITS, 2, 4);
        longTable, longSize, overran := PrepareErrorTable(tables, LONG_MSG_BITS, 2, 4);
      }
    }

    method Diagnose(syndrome: bv24, bitlen: nat) returns (d: Option<ErrorInfo>)
      requires Valid()
      requires bitlen == SHORT_MSG_BITS || bitlen == LONG_MSG_BITS
      ensures d == Diagnosis(syndrome, bitlen, MaxCorrect(fixBits), MaxDetect(fixBits))
    {
      if syndrome == 0 {
        return Some(NO_ERRORS);
      }
      var table, size := longTable, longSize;
      if bitlen == SHORT_MSG_BITS {
        table, size := shortTable, shortSize;
      }
      if table == null {
        return None;
      }
      CompleteIsSorted(table[..size], bitlen, MaxCorrect(fixBits), MaxDetect(fixBits));
      var found := Bsearch(table, size, syndrome);
      DiagnosisByTable(table[..size], syndrome, bitlen, MaxCorrect(fixBits), MaxDetect(fixBits), found);
      if found.None? {
        return None;
      }
      return Some(table[found.value]);
    }
  }

  lemma CorrectableUnique(p: seq<nat>, q: seq<nat>, bits: nat, maxCorrect: nat, maxDetect: nat)
    requires maxCorrect <= maxDetect
    requires Correctable(p, bits, maxCorrect, maxDetect) && Correctable(q, bits, maxCorrect, maxDetect)
    requires Syndrome(p, bits) == Syndrome(q, bits)
    ensures p == q
  {
  }

  lemma DiagnosisByTable(s: seq<ErrorInfo>, syndrome: bv24, bits: nat, maxCorrect: nat,
                         maxDetect: nat, found: Option<nat>)
    requires syndrome != 0 && maxCorrect <= maxDetect
    requires Complete(s, bits, maxCorrect, maxDetect)
    requires found.Some? ==> found.value < |s| && s[found.value].syndrome == syndrome
    requires found.None? ==> forall k :: 0 <= k < |s| ==> s[k].syndrome != syndrome
    ensures Diagnosis(syndrome, bits, maxCorrect, maxDetect) == if found.Some? then Some(s[found.value]) else None
  {
    hide Syndrome, Pad, StrictlySorted, Unambiguous;
    if found.Some? {
      assert Corrects(s[found.value], bits, maxCorrect, maxDetect);
      var p :| Correctable(p, bits, maxCorrect, maxDetect) && s[found.value] == Entry(p, bits);
      DiagnosisOf(p, bits, maxCorrect, maxDetect);
    } else {
      forall p | Correctable(p, bits, maxCorrect, maxDetect) ensures Syndrome(p, bits) != syndrome {
        var k :| 0 <= k < |s| && s[k] == Entry(p, bits);
      }
    }
  }

  lemma DiagnosisOf(p: seq<nat>, bits: nat, maxCorrect: nat, maxDetect: nat)
    requires maxCorrect <= maxDetect && Correctable(p, bits, maxCorrect, maxDetect)
    requires Syndrome(p, bits) != 0
    ensures Diagnosis(Syndrome(p, bits), bits, maxCorrect, maxDetect) == Some(Entry(p, bits))
  {
    hide Syndrome, Pad, Unambiguous;
    forall q | Correctable(q, bits, maxCorrect, maxDetect) && Syndrome(q, bits) == Syndrome(p, bits) ensures q == p {
      CorrectableUnique(p, q, bits, maxCorrect, maxDetect);
    }
  }

  // ---- modesChecksumFix ---------------------------------------------------------------

  predicate Applicable(e: ErrorInfo, bits: nat) {
    0 <= e.errors <= |e.bit| && forall i :: 0 <= i < e.errors ==> 0 <= e.bit[i] < bits
  }

  /** The bits an entry says to invert. */
  function PatternOf(e: ErrorInfo): (p: seq<nat>)
    requires 0 <= e.errors <= |e.bit| && forall i :: 0 <= i < e.errors ==> 0 <= e.bit[i]
    ensures |p| == e.errors && forall i :: 0 <= i < e.errors ==> p[i] == e.bit[i]
  {
    seq(e.errors, i requires 0 <= i < e.errors => e.bit[i])
  }

  /** The repaired message; a missing diagnosis repairs nothing. */
  function Fixed(msg: seq<bv8>, info: Option<ErrorInfo>): (r: seq<bv8>)
    requires info.Some? ==> Applicable(info.value, 8 * |msg|)
    ensures |r| == |msg|
  {
    if info.None? then msg else Flips(msg, PatternOf(info.value))
  }

  method ModesChecksumFix(msg: array<bv8>, info: Option<ErrorInfo>)
    requires info.Some? ==> Applicable(info.value, 8 * msg.Length)
    modifies msg
    ensures msg[..] == Fixed(old(msg[..]), info)
  {
    if info.None? {
      return;
    }
    ghost var p := PatternOf(info.value);
    for i := 0 to info.value.errors
      invariant msg[..] == Flips(old(msg[..]), p[..i])
    {
      assert p[..i + 1][..i] == p[..i];
      FlipBitInPlace(msg, info.value.bit[i]);
    }
    assert p[..info.value.errors] == p;
  }

  // ---- Bounded-distance decoding --------------------------------------------------------

  /** Every diagnosis is NO_ERRORS or the entry of a pattern with the diagnosed syndrome. */
  lemma DiagnosisShape(syndrome: bv24, bits: nat, maxCorrect: nat, maxDetect: nat)
    requires maxCorrect <= MAX_BITERRORS
    ensures var d := Diagnosis(syndrome, bits, maxCorrect, maxDetect);
      && (d == Some(NO_ERRORS) <==> syndrome == 0)
      && (d.Some? ==> Applicable(d.value, bits) && IsPattern(PatternOf(d.value), bits)
                      && |PatternOf(d.value)| <= maxCorrect
                      && Syndrome(PatternOf(d.value), bits) == syndrome
                      && (syndrome != 0 ==> Correctable(PatternOf(d.value), bits, maxCorrect, maxDetect)))
  {
    hide Syndrome, Unambiguous;
    var d := Diagnosis(syndrome, bits, maxCorrect, maxDetect);
    if syndrome == 0 {
      assert PatternOf(NO_ERRORS) == [];
      EmptyEntry(bits);
    } else if d.Some? {
      var p :| Correctable(p, bits, maxCorrect, maxDetect) && Syndrome(p, bits) == syndrome
        && d.value == Entry(p, bits);
      PatternOfEntry(p, bits);
    }
  }

  lemma PatternOfEntry(p: seq<nat>, bits: nat)
    requires IsPattern(p, bits) && |p| <= MAX_BITERRORS
    ensures Applicable(Entry(p, bits), bits) && PatternOf(Entry(p, bits)) == p
  {
    var e := Entry(p, bits);
    assert forall i :: 0 <= i < |p| ==> e.bit[i] == p[i];
  }

  /** Applying a diagnosis always leaves a message with a zero checksum, in which exactly
      the diagnosed bits have changed. */
  lemma RepairIsValid(msg: seq<bv8>, maxCorrect: nat, maxDetect: nat)
    requires maxCorrect <= MAX_BITERRORS
    ensures var d := Diagnosis(Parity(msg), 8 * |msg|, maxCorrect, maxDetect);
      d.Some? ==> (
        && Applicable(d.value, 8 * |msg|)
        && Parity(Fixed(msg, d)) == 0
        && forall j: nat :: j < 8 * |msg| ==> Bit(Fixed(msg, d), j) == (Bit(msg, j) != (j in PatternOf(d.value))))
  {
    hide Parity, Syndrome, Add, Unambiguous;
    var bits := 8 * |msg|;
    var d := Diagnosis(Parity(msg), bits, maxCorrect, maxDetect);
    DiagnosisShape(Parity(msg), bits, maxCorrect, maxDetect);
    if d.Some? {
      var p := PatternOf(d.value);
      ParityOfFlips(msg, p);
      AddIdentities(Parity(msg));
      forall j: nat | j < bits ensures Bit(Fixed(msg, d), j) == (Bit(msg, j) != (j in p)) {
        BitOfFlips(msg, p, j);
      }
    }
  }

  /** Up to maxDetect errors are never mis-corrected: when a valid message is received with
      error pattern p, the diagnosis is NO_ERRORS exactly if the syndrome vanishes, and any
      other diagnosis is p itself, so that applying it restores the message that was sent. */
  lemma BoundedDistanceDecoding(sent: seq<bv8>, p: seq<nat>, maxCorrect: nat, maxDetect: nat)
    requires maxCorrect <= MAX_BITERRORS && maxCorrect <= maxDetect
    requires Parity(sent) == 0
    requires IsPattern(p, 8 * |sent|) && 1 <= |p| <= maxDetect
    ensures var received := Flips(sent, p);
      var d := Diagnosis(Parity(received), 8 * |sent|, maxCorrect, maxDetect);
      && Parity(received) == Syndrome(p, 8 * |sent|)
      && (d == Some(NO_ERRORS) <==> Parity(received) == 0)
      && (d.Some? && d.value != NO_ERRORS ==>
            Applicable(d.value, 8 * |sent|) && PatternOf(d.value) == p && Fixed(received, d) == sent)
  {
    hide Parity, Syndrome, Add;
    var bits := 8 * |sent|;
    var received := Flips(sent, p);
    ParityOfFlips(sent, p);
    AddIdentities(Syndrome(p, bits));
    var d := Diagnosis(Parity(received), bits, maxCorrect, maxDetect);
    DiagnosisShape(Parity(received), bits, maxCorrect, maxDetect);
    if d.Some? && d.value != NO_ERRORS {
      var q := PatternOf(d.value);
      assert Unambiguous(q, bits, maxDetect);
      assert q == p;
      FlipsTwice(sent, p);
    }
  }

  /** The other half: a pattern of at most maxCorrect errors that no other pattern of at most
      maxDetect errors can be confused with is always corrected. */
  lemma UnambiguousIsCorrected(sent: seq<bv8>, p: seq<nat>, maxCorrect: nat, maxDetect: nat)
    requires maxCorrect <= MAX_BITERRORS && maxCorrect <= maxDetect
    requires Parity(sent) == 0
    requires Correctable(p, 8 * |sent|, maxCorrect, maxDetect) && Syndrome(p, 8 * |sent|) != 0
    ensures var received := Flips(sent, p);
      var d := Diagnosis(Parity(received), 8 * |sent|, maxCorrect, maxDetect);
      d == Some(Entry(p, 8 * |sent|)) && Applicable(d.value, 8 * |sent|) && Fixed(received, d) == sent
  {
    hide Parity, Syndrome, Add, Unambiguous;
    var bits := 8 * |sent|;
    ParityOfFlips(sent, p);
    AddIdentities(Syndrome(p, bits));
    DiagnosisOf(p, bits, maxCorrect, maxDetect);
    PatternOfEntry(p, bits);
    FlipsTwice(sent, p);
  }
}
