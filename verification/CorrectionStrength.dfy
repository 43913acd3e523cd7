/** What the tables of modesChecksumInit correct and detect: 1-bit correction needs no search for
    collisions, and 2-bit correction misses only what 4 errors can imitate. */
module CorrectionStrength {
  import opened Checksum
  import opened CodeDistance
  import opened ErrorCorrection
  import opened ErrorPatterns
  import opened ErrorTable
  import opened Lookup
  import opened Options
  import opened Polynomial
  import opened PowerTable

  /** Four errors have the same syndrome as p. */
  ghost predicate Imitated(p: seq<nat>, bits: nat) {
    exists q :: Imitates(q, p, bits)
  }

  ghost predicate Imitates(q: seq<nat>, p: seq<nat>, bits: nat) {
    IsPattern(q, bits) && |q| == 4 && Syndrome(q, bits) == Syndrome(p, bits)
  }

  /** Up to 5 errors in a valid message are always noticed. */
  lemma ErrorsAreNoticed(sent: seq<bv8>, p: seq<nat>)
    requires 8 * |sent| <= LONG_MSG_BITS && Parity(sent) == 0
    requires IsPattern(p, 8 * |sent|) && 1 <= |p| <= 5
    ensures Parity(Flips(sent, p)) == Syndrome(p, 8 * |sent|) != 0
  {
    hide Parity, Syndrome, Add;
    ParityOfFlips(sent, p);
    AddIdentities(Syndrome(p, 8 * |sent|));
    MinimumDistance(p, 8 * |sent|);
  }

  lemma NothingToCorrect(p: seq<nat>, bits: nat, maxCorrect: nat, maxDetect: nat)
    requires Syndrome(p, bits) != 0
    requires forall q :: Correctable(q, bits, maxCorrect, maxDetect) ==> Syndrome(q, bits) != Syndrome(p, bits)
    ensures Diagnosis(Syndrome(p, bits), bits, maxCorrect, maxDetect) == None
  {
  }

  /** With 1-bit correction, whose table is built without looking for collisions with longer
      patterns, a single error is always corrected and 2 to 4 errors never look like one. */
  lemma OneBitCorrection(sent: seq<bv8>, p: seq<nat>)
    requires 8 * |sent| <= LONG_MSG_BITS && Parity(sent) == 0
    requires IsPattern(p, 8 * |sent|) && 1 <= |p| <= 4
    ensures var received, bits := Flips(sent, p), 8 * |sent|;
      Diagnosis(Parity(received), bits, MaxCorrect(1), MaxDetect(1)) == if |p| == 1 then Some(Entry(p, bits)) else None
  {
    hide Parity, Syndrome, IsPattern, Entry, Diagnosis;
    var bits := 8 * |sent|;
    ErrorsAreNoticed(sent, p);
    forall q | IsPattern(q, bits) && |q| == 1 && q != p ensures Syndrome(q, bits) != Syndrome(p, bits) {
      SyndromesDiffer(q, p, bits);
    }
    if |p| == 1 {
      DiagnosisOf(p, bits, 1, 1);
    } else {
      NothingToCorrect(p, bits, 1, 1);
    }
  }

  /** With 2-bit correction and detection up to 4 errors, a single error is always corrected, two
      errors exactly if no 4 errors imitate them, and 3 or 4 errors are never corrected. */
  lemma TwoBitCorrection(sent: seq<bv8>, p: seq<nat>)
    requires 8 * |sent| <= LONG_MSG_BITS && Parity(sent) == 0
    requires IsPattern(p, 8 * |sent|) && 1 <= |p| <= 4
    ensures var received, bits := Flips(sent, p), 8 * |sent|;
      Diagnosis(Parity(received), bits, MaxCorrect(2), MaxDetect(2))
      == if |p| == 1 || (|p| == 2 && !Imitated(p, bits)) then Some(Entry(p, bits)) else None
  {
    hide Parity, Syndrome, IsPattern, Entry, Diagnosis, Imitated;
    var bits := 8 * |sent|;
    ErrorsAreNoticed(sent, p);
    forall q | IsPattern(q, bits) && |q| + |p| <= 5 && q != p ensures Syndrome(q, bits) != Syndrome(p, bits) {
      SyndromesDiffer(q, p, bits);
    }
    if |p| <= 2 {
      UnlessImitated(p, bits);
    }
    if |p| == 1 || (|p| == 2 && !Imitated(p, bits)) {
      DiagnosisOf(p, bits, 2, 4);
    } else {
      NothingToCorrect(p, bits, 2, 4);
    }
  }

  lemma UnlessImitated(p: seq<nat>, bits: nat)
    requires bits <= LONG_MSG_BITS && IsPattern(p, bits) && 1 <= |p| <= 2
    ensures Unambiguous(p, bits, 4) <==> !Imitated(p, bits)
    ensures |p| == 1 ==> !Imitated(p, bits)
  {
    hide Syndrome, IsPattern;
    forall q | IsPattern(q, bits) && |q| + |p| <= 5 && q != p ensures Syndrome(q, bits) != Syndrome(p, bits) {
      SyndromesDiffer(q, p, bits);
    }
    if !Imitated(p, bits) {
      forall q | IsPattern(q, bits) && 1 <= |q| <= 4 && Syndrome(q, bits) == Syndrome(p, bits) ensures q == p {
        assert !Imitates(q, p, bits);
      }
    }
  }

  /** Two errors that four errors imitate, so that 2-bit correction leaves them alone. */
  lemma ImitationExample()
    ensures IsPattern([47, 53], LONG_MSG_BITS) && Imitated([47, 53], LONG_MSG_BITS)
  {
    hide Syndrome, Add;
    var p, q := [47, 53], [54, 57, 98, 111];
    SixErrorsCanBeMissed();
    DifferenceOfExample();
    SyndromeOfDifference(p, q, LONG_MSG_BITS);
    ZeroSum(Syndrome(p, LONG_MSG_BITS), Syndrome(q, LONG_MSG_BITS));
    assert Imitates(q, p, LONG_MSG_BITS);
  }

  lemma DifferenceOfExample()
    ensures Difference([47, 53], [54, 57, 98, 111]) == [47, 53, 54, 57, 98, 111]
  {
    assert [54, 57, 98, 111][..3] == [54, 57, 98] && [54, 57, 98][..2] == [54, 57] && [54, 57][..1] == [54];
    assert Difference([47, 53], [54]) == [47, 53, 54];
    assert Difference([47, 53], [54, 57]) == [47, 53, 54, 57];
    assert Difference([47, 53], [54, 57, 98]) == [47, 53, 54, 57, 98];
  }
}
