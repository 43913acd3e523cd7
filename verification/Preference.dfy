/** Which of two acceptable candidates is the better one (mode_s.h), in plain terms. */
module Preference {
  import opened Acceptance
  import opened Checksum
  import opened Fields
  import opened IcaoFilter
  import opened Lookup
  import opened MessageCorrection

  /** What a candidate is: an extended squitter or an all-call reply with the number of corrected
      bits and whether its sender is known, or a message whose parity field hides an address. */
  datatype Grade =
    | Squitter(transponder: bool, errors: nat, known: bool)
    | AllCall(errors: nat, known: bool, acquisition: bool)
    | Unverified

  ghost function GradeOf(cfg: Config, v: View, msg: seq<bv8>): Grade
    requires cfg.Valid() && |msg| == LONG_MSG_BYTES
  {
    CorrectedIsSound(cfg, msg);
    match Corrected(cfg, msg)
    case Long(n, m) =>
      var df17 := Df(m) == 17;
      Squitter(df17, n, v.Knows(if df17 then Icao(Announced(m)) else NonTransponder(Announced(m))))
    case Short(n, m) => AllCall(n, v.Knows(Icao(Announced(m))), Iid(Parity(ShortPart(msg))) == 0)
    case Uncorrected => Unverified
  }

  /** An undamaged message of a known transponder. */
  const BEST: Grade := Squitter(true, 0, true)

  /** Of two squitters the one with fewer errors is better, then the one of a known sender, then the
      one of a transponder. */
  predicate BetterSquitter(a: Grade, b: Grade)
    requires a.Squitter? && b.Squitter?
  {
    || a.errors < b.errors
    || (a.errors == b.errors && a.known && !b.known)
    || (a.errors == b.errors && a.known == b.known && a.transponder && !b.transponder)
  }

  /** Of two all-call replies the one of a known sender is better, then the one with fewer errors,
      then the one without interrogator identifier. */
  predicate BetterAllCall(a: Grade, b: Grade)
    requires a.AllCall? && b.AllCall?
  {
    || (a.known && !b.known)
    || (a.known == b.known && a.errors < b.errors)
    || (a.known == b.known && a.errors == b.errors && a.acquisition && !b.acquisition)
  }

  /** A squitter is better than an all-call reply if it is undamaged, or has one error and a known
      sender, unless the reply is undamaged, from a known sender and without identifier. */
  predicate SquitterWins(a: Grade, b: Grade)
    requires a.Squitter? && b.AllCall?
  {
    a.errors == 0 || (a.errors == 1 && a.known && b != AllCall(0, true, true))
  }

  /** Anything that was verified is better than what was not. */
  predicate Beats(a: Grade, b: Grade) {
    match (a, b)
    case (Unverified, _) => false
    case (_, Unverified) => true
    case (Squitter(_, _, _), Squitter(_, _, _)) => BetterSquitter(a, b)
    case (AllCall(_, _, _), AllCall(_, _, _)) => BetterAllCall(a, b)
    case (Squitter(_, _, _), AllCall(_, _, _)) => SquitterWins(a, b)
    case (AllCall(_, _, _), Squitter(_, _, _)) => !SquitterWins(b, a)
  }

  /** Nothing beats the best, and it beats everything else. */
  lemma BestIsBest(g: Grade)
    ensures !Beats(g, BEST) && (g != BEST ==> Beats(BEST, g))
  {
  }

  // ---- The ranks say the same ---------------------------------------------------------------------

  function SquitterRank(g: Grade): Rank
    requires g.Squitter?
  {
    if g.transponder then Df17Rank(g.known, g.errors) else Df18Rank(g.known, g.errors)
  }

  function AllCallRank(g: Grade): Rank
    requires g.AllCall?
  {
    Df11Rank(g.known, g.errors, if g.acquisition then 0 else 1)
  }

  lemma SquittersInOrder(a: Grade, b: Grade)
    requires a.Squitter? && b.Squitter? && SquitterRank(a).Acceptable() && SquitterRank(b).Acceptable()
    ensures SquitterRank(a).Ord() > SquitterRank(b).Ord() <==> BetterSquitter(a, b)
  {
  }

  lemma AllCallsInOrder(a: Grade, b: Grade)
    requires a.AllCall? && b.AllCall? && AllCallRank(a).Acceptable() && AllCallRank(b).Acceptable()
    ensures AllCallRank(a).Ord() > AllCallRank(b).Ord() <==> BetterAllCall(a, b)
  {
  }

  lemma KindsInOrder(a: Grade, b: Grade)
    requires a.Squitter? && b.AllCall? && SquitterRank(a).Acceptable() && AllCallRank(b).Acceptable()
    ensures SquitterRank(a).Ord() != AllCallRank(b).Ord()
    ensures SquitterRank(a).Ord() > AllCallRank(b).Ord() <==> SquitterWins(a, b)
    ensures SquitterRank(a).Ord() > UNRELIABLE_KNOWN.Ord() && AllCallRank(b).Ord() > UNRELIABLE_KNOWN.Ord()
  {
  }

  lemma VerifiedAboveUnverified(a: Grade)
    ensures a.Squitter? && SquitterRank(a).Acceptable() ==> SquitterRank(a).Ord() > UNRELIABLE_KNOWN.Ord()
    ensures a.AllCall? && AllCallRank(a).Acceptable() ==> AllCallRank(a).Ord() > UNRELIABLE_KNOWN.Ord()
  {
  }

  /** The rank of an acceptable message is that of its grade. */
  lemma ScoreIsGrade(cfg: Config, v: View, msg: seq<bv8>)
    requires cfg.Valid() && |msg| == LONG_MSG_BYTES && Score(cfg, v, msg).Acceptable()
    ensures var g, r := GradeOf(cfg, v, msg), Score(cfg, v, msg);
      match g
      case Squitter(_, _, _) => r == SquitterRank(g)
      case AllCall(_, _, _) => r == AllCallRank(g)
      case Unverified => r == UNRELIABLE_KNOWN
  {
    hide Parity, Df, AllZeros, Announced, Icao, NonTransponder, Iid, Corrected;
    CorrectedIsSound(cfg, msg);
  }

  /** Of two acceptable messages the one with the higher score is the better one. */
  lemma ScoresOrderGrades(cfg: Config, v: View, a: seq<bv8>, b: seq<bv8>)
    requires cfg.Valid() && |a| == |b| == LONG_MSG_BYTES
    requires Score(cfg, v, a).Acceptable() && Score(cfg, v, b).Acceptable()
    ensures Score(cfg, v, a).Ord() > Score(cfg, v, b).Ord() <==> Beats(GradeOf(cfg, v, a), GradeOf(cfg, v, b))
  {
    hide Score, GradeOf, BetterSquitter, BetterAllCall, SquitterWins, SquitterRank, AllCallRank, Rank.Ord;
    ScoreIsGrade(cfg, v, a);
    ScoreIsGrade(cfg, v, b);
    var g, h := GradeOf(cfg, v, a), GradeOf(cfg, v, b);
    VerifiedAboveUnverified(g);
    VerifiedAboveUnverified(h);
    match (g, h)
    case (Squitter(_, _, _), Squitter(_, _, _)) => SquittersInOrder(g, h);
    case (AllCall(_, _, _), AllCall(_, _, _)) => AllCallsInOrder(g, h);
    case (Squitter(_, _, _), AllCall(_, _, _)) => KindsInOrder(g, h);
    case (AllCall(_, _, _), Squitter(_, _, _)) => KindsInOrder(h, g);
    case _ =>
  }

  /** A candidate of the best grade is accepted. */
  lemma BestIsAccepted(cfg: Config, v: View, msg: seq<bv8>)
    requires cfg.Valid() && |msg| == LONG_MSG_BYTES && GradeOf(cfg, v, msg) == BEST
    ensures Score(cfg, v, msg).Acceptable()
  {
    hide Parity, Df, AllZeros, Announced, Icao, NonTransponder, Iid, Corrected;
    CorrectedIsSound(cfg, msg);
    NotAllZeros(cfg, msg);
  }
}
