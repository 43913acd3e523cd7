/** Choosing the best of the candidate phases of a message (demodulate2400 in demod_2400.c). */
module Demodulator {
  import opened Acceptance
  import opened Checksum
  import opened CleanSignal
  import opened DamageSet
  import opened DfBitsets
  import opened ErrorCorrection
  import opened Fields
  import opened IcaoFilter
  import opened Lookup
  import opened MessageCorrection
  import opened Preference
  import opened Receiver
  import S = Slicer

  // ---- The early filter -------------------------------------------------------------------------

  predicate ValidLong(cfg: Config, df: nat) {
    || df in {16, 17, 18, 20, 21}
    || (cfg.enableDf24 && 24 <= df)
    || (cfg.FixDfBits() > 0 && NearLong(df, cfg.FixDfBits()))
  }

  predicate ValidShort(cfg: Config, df: nat) {
    df in {0, 4, 5, 11} || (cfg.FixDfBits() > 0 && Distance(df, 11) <= 1)
  }

  method With(bits: bv32, df: nat) returns (r: bv32)
    requires df < 32
    ensures forall x: nat :: x < 32 ==> (InBitset(r, x) <==> InBitset(bits, x) || x == df)
  {
    hide InBitset, DfBit;
    r := bits | DfBit(df);
    forall x: nat | x < 32 ensures InBitset(r, x) <==> InBitset(bits, x) || x == df {
      UnionSet(bits, DfBit(df), x);
      SingletonSet(df, x);
    }
  }

  method Either(a: bv32, b: bv32) returns (r: bv32)
    ensures forall x: nat :: x < 32 ==> (InBitset(r, x) <==> InBitset(a, x) || InBitset(b, x))
  {
    hide InBitset;
    r := a | b;
    forall x: nat | x < 32 ensures InBitset(r, x) <==> InBitset(a, x) || InBitset(b, x) {
      UnionSet(a, b, x);
    }
  }

  method FromList(dfs: seq<nat>) returns (r: bv32)
    requires forall d :: d in dfs ==> d < 32
    ensures forall x: nat :: x < 32 ==> (InBitset(r, x) <==> x in dfs)
  {
    hide InBitset;
    r := 0;
    forall x: nat | x < 32 ensures !InBitset(0, x) {
      EmptySet(x);
    }
    for i := 0 to |dfs|
      invariant forall x: nat :: x < 32 ==> (InBitset(r, x) <==> x in dfs[..i])
    {
      assert dfs[i] in dfs;
      r := With(r, dfs[i]);
      assert dfs[..i + 1] == dfs[..i] + [dfs[i]];
    }
    assert dfs[..|dfs|] == dfs;
  }

  lemma EmptyRaw(m: bv32)
    ensures !Tests(0, m)
  {
  }

  lemma EmptySet(x: nat)
    requires x < 32
    ensures !InBitset(0, x)
  {
    hide DfBit, Tests;
    EmptyRaw(DfBit(x));
  }

  /** init_bitsets */
  method InitBitsets(cfg: Config) returns (short: bv32, long: bv32)
    ensures forall df: nat :: df < 32 ==> (InBitset(short, df) <==> ValidShort(cfg, df))
    ensures forall df: nat :: df < 32 ==> (InBitset(long, df) <==> ValidLong(cfg, df))
  {
    hide InBitset, Distance;
    short := FromList([0, 4, 5, 11]);
    long := FromList([16, 17, 18, 20, 21]);
    if cfg.enableDf24 {
      var elm := FromList([24, 25, 26, 27, 28, 29, 30, 31]);
      long := Either(long, elm);
    }
    if cfg.fixDf && cfg.nfixCrc > 0 {
      var near11 := GenerateDamageSet(11, 1);
      short := Either(short, near11);
      var near17 := GenerateDamageSet(17, cfg.nfixCrc);
      long := Either(long, near17);
      var near18 := GenerateDamageSet(18, cfg.nfixCrc);
      long := Either(long, near18);
    }
  }

  /** How many bytes the demodulator slices for a format; 1 if it drops the candidate. */
  function BytesFor(cfg: Config, df: nat): nat {
    if ValidLong(cfg, df) then LONG_MSG_BYTES else if ValidShort(cfg, df) then SHORT_MSG_BYTES else 1
  }

  lemma LooksImplyValid(cfg: Config, msg: seq<bv8>)
    requires cfg.Valid() && |msg| == LONG_MSG_BYTES
    ensures LooksLong(cfg, msg) ==> ValidLong(cfg, Df(msg))
    ensures LooksShort(cfg, msg) ==> ValidShort(cfg, Df(msg))
    ensures Df(msg) in {17, 18} ==> LooksLong(cfg, msg)
    ensures Df(msg) == 11 ==> LooksShort(cfg, msg)
  {
    hide Df, InBitset;
    DfDigits(msg);
    BitsetsAreBalls(cfg.FixDfBits(), Df(msg));
    ZeroDistance(Df(msg), 11);
    ZeroDistance(Df(msg), 17);
    ZeroDistance(Df(msg), 18);
    hide Distance;
  }

  /** The early filter never drops a message that could be repaired or accepted, whatever the
      address filter knows. */
  lemma FilterDropsOnlyBadMessages(cfg: Config, v: View, msg: seq<bv8>)
    requires cfg.Valid() && |msg| == LONG_MSG_BYTES && BytesFor(cfg, Df(msg)) == 1
    ensures Corrected(cfg, msg) == Uncorrected
    ensures !Score(cfg, v, msg).Acceptable() && Decoded(cfg, v, msg).None?
  {
    hide Parity, Df, InBitset, Distance;
    DfDigits(msg);
    LooksImplyValid(cfg, msg);
  }

  /** The bytes that are not sliced do not matter for the score. */
  lemma ScoreNeedsOnly(cfg: Config, v: View, a: seq<bv8>, b: seq<bv8>)
    requires cfg.Valid() && |a| == |b| == LONG_MSG_BYTES
    requires var n := BytesFor(cfg, Df(a)); n > 1 && a[..n] == b[..n]
    ensures Score(cfg, v, a) == Score(cfg, v, b)
  {
    hide Parity, Df, InBitset, Distance, Diagnosis;
    assert a[..LONG_MSG_BYTES] == a && b[..LONG_MSG_BYTES] == b;
    if BytesFor(cfg, Df(a)) != LONG_MSG_BYTES {
      SameDf(a, a[..SHORT_MSG_BYTES]);
      SameDf(b, b[..SHORT_MSG_BYTES]);
      DfDigits(a);
      LooksImplyValid(cfg, a);
      LooksImplyValid(cfg, b);
      assert forall i :: 0 <= i < SHORT_MSG_BYTES ==>
        a[i] == a[..SHORT_MSG_BYTES][i] && b[i] == b[..SHORT_MSG_BYTES][i];
    }
  }

  // ---- Trying all phases --------------------------------------------------------------------------

  /** The score of the whole message at phase t. */
  ghost function ScoreAt(cfg: Config, v: View, m: seq<int>, j: nat, t: nat): Rank
    requires cfg.Valid() && S.Enough(m, j) && 4 <= t <= 8
  {
    Score(cfg, v, S.Message(m, j, t))
  }

  /** Whether the early filter keeps the candidate at phase t. */
  predicate Kept(cfg: Config, m: seq<int>, j: nat, t: nat)
    requires S.Enough(m, j) && 4 <= t <= 8
  {
    BytesFor(cfg, Df(S.Message(m, j, t))) > 1
  }

  /** msg holds the bytes of the candidate at phase t that matter. */
  predicate HoldsCandidate(cfg: Config, msg: seq<bv8>, m: seq<int>, j: nat, t: nat)
    requires S.Enough(m, j) && 4 <= t <= 8 && |msg| == LONG_MSG_BYTES
  {
    var full := S.Message(m, j, t);
    var n := BytesFor(cfg, Df(full));
    msg[..n] == full[..n]
  }

  ghost predicate BitsetsReady(cfg: Config, short: bv32, long: bv32) {
    && (forall df: nat :: df < 32 ==> (InBitset(short, df) <==> ValidShort(cfg, df)))
    && (forall df: nat :: df < 32 ==> (InBitset(long, df) <==> ValidLong(cfg, df)))
  }

  /** The demodulator's buffers are not the correction tables. */
  ghost predicate Apart(msg: array<bv8>, corrector: Corrector)
    reads corrector
  {
    msg as object? != corrector.shortTable && msg as object? != corrector.longTable
  }

  lemma FirstByteTellsDf(msg: seq<bv8>, full: seq<bv8>)
    requires |msg| > 0 && |full| > 0 && msg[0] == full[0]
    ensures Df(msg) == Df(full) < 32
  {
    DfDigits(full);
    FieldDependsOnBits(msg, full, 1, 5);
  }

  /** One candidate: slices its bytes into msg and scores them, unless the filter drops it. */
  method TryPhase(cfg: Config, corrector: Corrector, filter: Filter, short: bv32, long: bv32,
                  m: seq<int>, j: nat, t: nat, msg: array<bv8>)
    returns (kept: bool, score: Rank)
    requires cfg.Valid() && corrector.Valid() && corrector.fixBits == cfg.fixBits && filter.Valid()
    requires BitsetsReady(cfg, short, long)
    requires S.Enough(m, j) && 4 <= t <= 8 && msg.Length == LONG_MSG_BYTES && Apart(msg, corrector)
    modifies msg
    ensures corrector.Valid() && filter.Valid() && filter.Knowledge() == old(filter.Knowledge())
    ensures kept == Kept(cfg, m, j, t)
    ensures kept ==> HoldsCandidate(cfg, msg[..], m, j, t) && score == ScoreAt(cfg, filter.Knowledge(), m, j, t)
  {
    hide Score, Df, InBitset, ValidShort, ValidLong, S.Message, Ready, Probeable, Contents, S.SampleOf, S.PhaseOf;
    ghost var full := S.Message(m, j, t);
    score := NOT_SET;
    assert S.SampleOf(t, 0) == t / 5 && S.PhaseOf(t, 0) == t % 5 by { StartOfMessage(t); }
    var p, ph := S.SliceBytes(m, j, t, msg, 0, 1, j + 19 + t / 5, t % 5);
    assert msg[..][0] == full[0];
    FirstByteTellsDf(msg[..], full);
    var df := Df(msg[..]);
    var bytelen := 1;
    if InBitset(long, df) {
      bytelen := LONG_MSG_BYTES;
    } else if InBitset(short, df) {
      bytelen := SHORT_MSG_BYTES;
    }
    assert bytelen == BytesFor(cfg, df);
    if bytelen == 1 {
      return false, score;
    }
    p, ph := S.SliceBytes(m, j, t, msg, 1, bytelen, p, ph);
    assert msg[..][..bytelen] == full[..bytelen];
    ScoreNeedsOnly(cfg, filter.Knowledge(), full, msg[..]);
    score := ScoreModesMessage(cfg, corrector, filter, msg);
    kept := true;
  }

  lemma StartOfMessage(t: nat)
    ensures S.SampleOf(t, 0) == t / 5 && S.PhaseOf(t, 0) == t % 5
  {
  }

  /** The loop over the five phases with its two buffers: the result is a candidate with the
      highest score, the first one of equal ones, and its bytes are still there. */
  method BestPhase(cfg: Config, corrector: Corrector, filter: Filter, short: bv32, long: bv32,
                   m: seq<int>, j: nat, msg1: array<bv8>, msg2: array<bv8>)
    returns (bestmsg: array?<bv8>, bestscore: Rank, bestphase: int)
    requires cfg.Valid() && corrector.Valid() && corrector.fixBits == cfg.fixBits && filter.Valid()
    requires BitsetsReady(cfg, short, long)
    requires S.Enough(m, j) && msg1.Length == msg2.Length == LONG_MSG_BYTES && msg1 != msg2
    requires Apart(msg1, corrector) && Apart(msg2, corrector)
    modifies msg1, msg2
    ensures filter.Valid() && filter.Knowledge() == old(filter.Knowledge())
    ensures bestmsg == null <==> forall t :: 4 <= t <= 8 ==> !Kept(cfg, m, j, t)
    ensures bestmsg != null ==>
      && bestmsg in {msg1, msg2} && 4 <= bestphase <= 8
      && HoldsCandidate(cfg, bestmsg[..], m, j, bestphase)
      && bestscore == ScoreAt(cfg, filter.Knowledge(), m, j, bestphase)
      && forall t :: 4 <= t <= 8 && Kept(cfg, m, j, t) ==>
           && ScoreAt(cfg, filter.Knowledge(), m, j, t).Ord() <= bestscore.Ord()
           && (t < bestphase ==> ScoreAt(cfg, filter.Knowledge(), m, j, t).Ord() < bestscore.Ord())
    ensures forall t :: 4 <= t <= 8 && ScoreAt(cfg, filter.Knowledge(), m, j, t).Acceptable() ==>
      && bestmsg != null && bestscore.Acceptable()
      && !Beats(GradeAt(cfg, filter.Knowledge(), m, j, t), GradeAt(cfg, filter.Knowledge(), m, j, bestphase))
    ensures forall t :: 4 <= t <= 8 && GradeAt(cfg, filter.Knowledge(), m, j, t) == BEST ==>
      bestmsg != null && GradeAt(cfg, filter.Knowledge(), m, j, bestphase) == BEST
  {
    hide ScoreAt, Kept, HoldsCandidate, InBitset, BitsetsReady, Ready, Probeable, Contents;
    var msg := msg1;
    bestmsg, bestscore, bestphase := null, NOT_SET, -1;
    ghost var v := filter.Knowledge();
    for t := 4 to 9
      invariant corrector.Valid() && filter.Valid() && filter.Knowledge() == v
      invariant msg in {msg1, msg2}
      invariant bestmsg == null ==> bestscore == NOT_SET && forall u :: 4 <= u < t ==> !Kept(cfg, m, j, u)
      invariant bestmsg != null ==>
        && bestmsg in {msg1, msg2} && bestmsg != msg && 4 <= bestphase < t && Kept(cfg, m, j, bestphase)
        && HoldsCandidate(cfg, bestmsg[..], m, j, bestphase) && bestscore == ScoreAt(cfg, v, m, j, bestphase)
        && forall u :: 4 <= u < t && Kept(cfg, m, j, u) ==>
             && ScoreAt(cfg, v, m, j, u).Ord() <= bestscore.Ord()
             && (u < bestphase ==> ScoreAt(cfg, v, m, j, u).Ord() < bestscore.Ord())
    {
      var kept, score := TryPhase(cfg, corrector, filter, short, long, m, j, t, msg);
      if kept {
        ScoresAreSet(cfg, v, m, j, t);
        if score.Ord() > bestscore.Ord() {
          bestmsg := msg;
          bestscore := score;
          bestphase := t;
          // the invariant bestmsg != msg keeps the best candidate
          msg := if msg == msg1 then msg2 else msg1;
        }
      }
    }
    if bestmsg == null {
      NoneIsAcceptable(cfg, v, m, j);
    } else {
      BestIsUnbeaten(cfg, v, m, j, bestphase);
    }
  }

  /** What the candidate at phase t is. */
  ghost function GradeAt(cfg: Config, v: View, m: seq<int>, j: nat, t: nat): Grade
    requires cfg.Valid() && S.Enough(m, j) && 4 <= t <= 8
  {
    GradeOf(cfg, v, S.Message(m, j, t))
  }

  lemma NoneIsAcceptable(cfg: Config, v: View, m: seq<int>, j: nat)
    requires cfg.Valid() && S.Enough(m, j)
    requires forall t :: 4 <= t <= 8 ==> !Kept(cfg, m, j, t)
    ensures forall t :: 4 <= t <= 8 ==> !ScoreAt(cfg, v, m, j, t).Acceptable() && GradeAt(cfg, v, m, j, t) != BEST
  {
    hide Score, GradeOf, Kept, S.Message, Rank.Acceptable;
    forall t: nat | 4 <= t <= 8 ensures !ScoreAt(cfg, v, m, j, t).Acceptable() && GradeAt(cfg, v, m, j, t) != BEST {
      if ScoreAt(cfg, v, m, j, t).Acceptable() {
        NoAcceptablePhaseIsLost(cfg, v, m, j, t);
      }
      if GradeAt(cfg, v, m, j, t) == BEST {
        BestIsAccepted(cfg, v, S.Message(m, j, t));
      }
    }
  }

  /** No acceptable candidate beats the one with the highest score. */
  lemma BestIsUnbeaten(cfg: Config, v: View, m: seq<int>, j: nat, best: nat)
    requires cfg.Valid() && S.Enough(m, j) && 4 <= best <= 8
    requires forall t :: 4 <= t <= 8 && Kept(cfg, m, j, t) ==>
      ScoreAt(cfg, v, m, j, t).Ord() <= ScoreAt(cfg, v, m, j, best).Ord()
    ensures forall t :: 4 <= t <= 8 && ScoreAt(cfg, v, m, j, t).Acceptable() ==>
      ScoreAt(cfg, v, m, j, best).Acceptable() && !Beats(GradeAt(cfg, v, m, j, t), GradeAt(cfg, v, m, j, best))
    ensures forall t :: 4 <= t <= 8 && GradeAt(cfg, v, m, j, t) == BEST ==> GradeAt(cfg, v, m, j, best) == BEST
  {
    hide Score, GradeOf, Kept, S.Message, Beats, Rank.Ord;
    forall t: nat | 4 <= t <= 8 && (ScoreAt(cfg, v, m, j, t).Acceptable() || GradeAt(cfg, v, m, j, t) == BEST)
      ensures ScoreAt(cfg, v, m, j, best).Acceptable()
      ensures !Beats(GradeAt(cfg, v, m, j, t), GradeAt(cfg, v, m, j, best))
      ensures GradeAt(cfg, v, m, j, t) == BEST ==> GradeAt(cfg, v, m, j, best) == BEST
    {
      if GradeAt(cfg, v, m, j, t) == BEST {
        BestIsAccepted(cfg, v, S.Message(m, j, t));
      }
      NoAcceptablePhaseIsLost(cfg, v, m, j, t);
      ScoresOrderGrades(cfg, v, S.Message(m, j, t), S.Message(m, j, best));
      BestIsBest(GradeAt(cfg, v, m, j, best));
    }
  }

  /** A clean extended squitter of a known transponder is a candidate of the best grade. */
  lemma CleanSquitterIsBest(cfg: Config, v: View, m: seq<int>, pulses: Pulses, amplitude: int, offset: int,
                            j: nat, t: nat, sent: seq<bv8>)
    requires cfg.Valid() && S.Enough(m, j) && 4 <= t <= 8
    requires Sampled(m, pulses, amplitude, offset) && MessageSent(pulses, j, t, sent)
    requires |sent| == LONG_MSG_BYTES && Df(sent) == 17 && Parity(sent) == 0 && v.Knows(Icao(Announced(sent)))
    ensures GradeAt(cfg, v, m, j, t) == BEST
  {
    hide Parity, Df, Sampled, MessageSent, S.Message, Corrected, Announced, Icao, NonTransponder;
    CleanMessageIsRead(m, pulses, amplitude, offset, j, t, sent);
    UndamagedIsUnchanged(cfg, sent);
  }

  lemma ScoresAreSet(cfg: Config, v: View, m: seq<int>, j: nat, t: nat)
    requires cfg.Valid() && S.Enough(m, j) && 4 <= t <= 8
    ensures ScoreAt(cfg, v, m, j, t).Ord() > NOT_SET.Ord()
  {
    hide Parity, Df, Corrected, S.Message;
  }

  /** Whatever the filter drops, the best candidate is as good as the best of all five phases:
      the demodulator finds an acceptable message whenever there is one. */
  lemma NoAcceptablePhaseIsLost(cfg: Config, v: View, m: seq<int>, j: nat, t: nat)
    requires cfg.Valid() && S.Enough(m, j) && 4 <= t <= 8
    requires ScoreAt(cfg, v, m, j, t).Acceptable()
    ensures Kept(cfg, m, j, t)
  {
    hide Score, BytesFor, S.Message;
    var full := S.Message(m, j, t);
    AtLeastOneByte(cfg, Df(full));
    if BytesFor(cfg, Df(full)) == 1 {
      FilterDropsOnlyBadMessages(cfg, v, full);
    }
  }

  lemma AtLeastOneByte(cfg: Config, df: nat)
    ensures BytesFor(cfg, df) >= 1
  {
  }
}
