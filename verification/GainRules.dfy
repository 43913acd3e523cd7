/** What moves the gain (adaptive.c), block by block and over runs of blocks. */
module GainRules {
  import opened GainControl

  // ---- Who decides ----------------------------------------------------------------------------------

  /** Burst control is enabled and its delay after the last change is over. */
  predicate BurstDecides(c: Config, s: State) {
    c.burst && s.burstTimer <= 1
  }

  /** Range control is enabled and its delay after the last change is over. */
  predicate RangeDecides(c: Config, s: State) {
    c.range && s.rangeTimer <= 1
  }

  /** Few loud messages were decoded, and not too many were lost. */
  predicate Quiet(m: Measurement) {
    m.quiet && !m.loud
  }

  /** With this block, the run of loud blocks is long enough to lower the gain. */
  predicate LoudEnough(c: Config, s: State, m: Measurement) {
    (if m.loud then s.loudBlocks + 1 else 0) >= c.loudRunlength
  }

  /** With this block, the run of quiet blocks is long enough to raise the gain. */
  predicate QuietEnough(c: Config, s: State, m: Measurement) {
    (if Quiet(m) then s.quietBlocks + 1 else 0) >= c.quietRunlength
  }

  predicate BurstLowers(c: Config, s: State, m: Measurement) {
    BurstDecides(c, s) && LoudEnough(c, s, m)
  }

  /** Burst control raises the gain up to the limit that range control has found. */
  predicate BurstRaises(c: Config, s: State, m: Measurement) {
    BurstDecides(c, s) && !LoudEnough(c, s, m) && QuietEnough(c, s, m) && s.gain < s.limit
  }

  /** Burst control does not want the gain to rise. */
  predicate Inhibited(c: Config, s: State, m: Measurement) {
    BurstDecides(c, s) && (LoudEnough(c, s, m) || !QuietEnough(c, s, m))
  }

  /** The range fell so far that less gain will help. */
  predicate FallsInIdle(c: Config, s: State, m: Measurement) {
    m.fell && s.gain > c.min
  }

  /** An idle range control looks for more gain. */
  predicate RescansInIdle(c: Config, s: State, m: Measurement) {
    !FallsInIdle(c, s, m) && s.rescanTimer <= 1 && !Inhibited(c, s, m) && m.acceptable && s.gain < c.max
  }

  predicate RangeLowers(c: Config, s: State, m: Measurement) {
    RangeDecides(c, s) &&
    match s.scan
    case Up => !m.acceptable
    case Down => !m.acceptable && s.gain > c.min
    case Idle => FallsInIdle(c, s, m)
  }

  predicate RangeRaises(c: Config, s: State, m: Measurement) {
    RangeDecides(c, s) && m.acceptable && s.gain < c.max &&
    match s.scan
    case Up => true
    case Down => false
    case Idle => RescansInIdle(c, s, m)
  }

  // ---- One block ------------------------------------------------------------------------------------

  /** The votes of burst control. */
  lemma BurstVotes(c: Config, s: State, m: Measurement)
    ensures var (b, v) := BurstVote(c, Ticked(s), m);
      && (v.down <==> BurstLowers(c, s, m)) && (v.notUp <==> Inhibited(c, s, m)) && (v.up <==> BurstRaises(c, s, m))
      && b.gain == s.gain && b.limit == s.limit
      && b.rangeTimer == Pred(s.rangeTimer) && b.burstTimer == Pred(s.burstTimer)
      && b.scan == (if BurstLowers(c, s, m) && s.scan == Down then Idle else s.scan)
      && b.rescanTimer == (if BurstLowers(c, s, m) && s.scan == Down then 0 else Pred(s.rescanTimer))
      && b.loudBlocks == (if !BurstDecides(c, s) then s.loudBlocks else if m.loud then s.loudBlocks + 1 else 0)
      && b.quietBlocks == (if !BurstDecides(c, s) then s.quietBlocks else if Quiet(m) then s.quietBlocks + 1 else 0)
  {
  }

  /** The votes of both. */
  lemma BothVotes(c: Config, s: State, m: Measurement)
    requires ValidConfig(c) && Inv(c, s)
    ensures var (b, v) := BurstVote(c, Ticked(s), m);
      var (r, w) := RangeVote(c, b, v, m);
      && (w.down || BurstLowers(c, s, m) <==> BurstLowers(c, s, m) || RangeLowers(c, s, m))
      && (!w.down ==> (w.notUp <==> Inhibited(c, s, m)))
      && (!w.down && !w.notUp ==> (w.up <==> BurstRaises(c, s, m) || RangeRaises(c, s, m)))
      && (BurstLowers(c, s, m) ==> w.down)
      && r.gain == s.gain && r.burstTimer == b.burstTimer
      && r.loudBlocks == b.loudBlocks && r.quietBlocks == b.quietBlocks
  {
    BurstVotes(c, s, m);
    hide BurstVote, LoudEnough, QuietEnough;
  }

  /** The gain after a block: lowered if either control wants that, raised if either wants it and burst
      control does not object. */
  lemma GainExactly(c: Config, s: State, m: Measurement)
    requires ValidConfig(c) && Inv(c, s)
    ensures Next(c, s, m).gain ==
      if BurstLowers(c, s, m) || RangeLowers(c, s, m) then if s.gain > c.min then s.gain - 1 else c.min
      else if (BurstRaises(c, s, m) || RangeRaises(c, s, m)) && !Inhibited(c, s, m) then s.gain + 1
      else s.gain
  {
    BothVotes(c, s, m);
    RaisesWithinLimits(c, s, m);
    hide BurstVote, RangeVote, BurstLowers, RangeLowers, BurstRaises, RangeRaises, Inhibited;
  }

  lemma RaisesWithinLimits(c: Config, s: State, m: Measurement)
    requires Inv(c, s)
    ensures BurstRaises(c, s, m) || RangeRaises(c, s, m) ==> s.gain < c.max
  {
  }

  /** Too many loud undecoded messages never raise the gain. */
  lemma LoudNeverRaises(c: Config, s: State, m: Measurement)
    requires ValidConfig(c) && Inv(c, s) && BurstDecides(c, s) && m.loud && c.quietRunlength > 0
    ensures Next(c, s, m).gain <= s.gain
  {
    GainExactly(c, s, m);
    hide Next;
  }

  /** What becomes of the runs of blocks. */
  lemma RunsExactly(c: Config, s: State, m: Measurement)
    requires ValidConfig(c) && Inv(c, s)
    ensures var t := Next(c, s, m);
      if t.gain != s.gain then t.loudBlocks == 0 && t.quietBlocks == 0 && t.burstTimer == c.burstDelay
      else
        && t.burstTimer == Pred(s.burstTimer)
        && t.loudBlocks == (if !BurstDecides(c, s) then s.loudBlocks else if m.loud then s.loudBlocks + 1 else 0)
        && t.quietBlocks == (if !BurstDecides(c, s) then s.quietBlocks else if Quiet(m) then s.quietBlocks + 1 else 0)
  {
    BurstVotes(c, s, m);
    BothVotes(c, s, m);
    hide BurstVote, RangeVote, BurstLowers, RangeLowers, BurstRaises, RangeRaises, Inhibited, Quiet;
  }

  // ---- Scans ----------------------------------------------------------------------------------------

  /** From idle, a downward scan starts exactly when the range has fallen, and an upward one exactly
      when the range is acceptable, the time to rescan has come and burst control does not object. */
  lemma IdleScan(c: Config, s: State, m: Measurement)
    requires ValidConfig(c) && Inv(c, s) && s.scan == Idle
    ensures var t := Next(c, s, m);
      && (t.scan == Down <==> RangeDecides(c, s) && FallsInIdle(c, s, m))
      && (t.scan == Up <==> RangeDecides(c, s) && RescansInIdle(c, s, m))
  {
    BurstVotes(c, s, m);
    hide BurstVote, LoudEnough, QuietEnough;
  }

  /** An upward scan turns around as soon as the range is not acceptable, and ends at the greatest gain. */
  lemma UpScan(c: Config, s: State, m: Measurement)
    requires ValidConfig(c) && Inv(c, s) && s.scan == Up
    ensures var t := Next(c, s, m);
      && (t.scan == Down <==> RangeDecides(c, s) && !m.acceptable)
      && (t.scan == Idle <==> RangeDecides(c, s) && m.acceptable && s.gain == c.max)
      && (t.scan == Idle ==> t.rescanTimer == c.rescanDelay)
  {
    BurstVotes(c, s, m);
    hide BurstVote, LoudEnough, QuietEnough;
  }

  /** A downward scan ends as soon as the range is acceptable or at the least gain. Burst control stops
      it, and it starts again at once only if the range has fallen. */
  lemma DownScan(c: Config, s: State, m: Measurement)
    requires ValidConfig(c) && Inv(c, s) && s.scan == Down
    ensures var t := Next(c, s, m);
      && t.scan != Up
      && (!BurstLowers(c, s, m) ==>
            && (t.scan == Idle <==> RangeDecides(c, s) && (m.acceptable || s.gain == c.min))
            && (t.scan == Idle ==> t.rescanTimer == c.rescanDelay))
      && (BurstLowers(c, s, m) ==> (t.scan == Down <==> RangeDecides(c, s) && FallsInIdle(c, s, m)))
  {
    BurstVotes(c, s, m);
    hide BurstVote, LoudEnough, QuietEnough;
  }

  /** The limit: raised to a gain that is acceptable, lowered below one that is not. A range that fell
      is not acceptable. */
  lemma LimitExactly(c: Config, s: State, m: Measurement)
    requires ValidConfig(c) && Inv(c, s) && (m.fell ==> !m.acceptable)
    ensures Next(c, s, m).limit ==
      if !RangeDecides(c, s) then s.limit
      else if m.acceptable then if s.gain > s.limit then s.gain else s.limit
      else if s.scan == Idle || (s.scan == Down && BurstLowers(c, s, m)) then
        if FallsInIdle(c, s, m) && s.limit >= s.gain then s.gain - 1 else s.limit
      else if s.limit >= s.gain then s.gain - 1 else s.limit
  {
    BurstVotes(c, s, m);
    hide BurstVote, LoudEnough, QuietEnough;
  }

  // ---- Runs of blocks -------------------------------------------------------------------------------

  /** Block j counted for burst control and did not change the gain. */
  predicate Counts(c: Config, s: State, ms: seq<Measurement>, j: nat)
    requires j < |ms|
  {
    BurstDecides(c, After(c, s, ms[..j])) && !ChangesAt(c, s, ms, j)
  }

  /** The last i of the first k blocks were loud and counted. */
  predicate LoudRun(c: Config, s: State, ms: seq<Measurement>, k: nat, i: nat)
    requires i <= k <= |ms|
  {
    forall j :: k - i <= j < k ==> Counts(c, s, ms, j) && ms[j].loud
  }

  predicate QuietRun(c: Config, s: State, ms: seq<Measurement>, k: nat, i: nat)
    requires i <= k <= |ms|
  {
    forall j :: k - i <= j < k ==> Counts(c, s, ms, j) && Quiet(ms[j])
  }

  /** A run is longer by a block if that counted and was loud. */
  lemma OneLonger(c: Config, s: State, ms: seq<Measurement>, k: nat, i: nat)
    requires 0 < i <= k <= |ms|
    ensures LoudRun(c, s, ms, k, i) <==>
      Counts(c, s, ms, k - 1) && ms[k - 1].loud && LoudRun(c, s, ms, k - 1, i - 1)
    ensures QuietRun(c, s, ms, k, i) <==>
      Counts(c, s, ms, k - 1) && Quiet(ms[k - 1]) && QuietRun(c, s, ms, k - 1, i - 1)
  {
    hide Counts, Quiet;
  }

  /** The state before block k. */
  function Before(c: Config, gain: int, ms: seq<Measurement>, k: nat): State
    requires ValidConfig(c) && k <= |ms|
  {
    After(c, Initial(c, gain), ms[..k])
  }

  lemma BeforeNext(c: Config, gain: int, ms: seq<Measurement>, k: nat)
    requires ValidConfig(c) && k < |ms|
    ensures Before(c, gain, ms, k + 1) == Next(c, Before(c, gain, ms, k), ms[k])
    ensures Inv(c, Before(c, gain, ms, k))
    ensures Counts(c, Initial(c, gain), ms, k) <==>
      BurstDecides(c, Before(c, gain, ms, k)) && Before(c, gain, ms, k + 1).gain == Before(c, gain, ms, k).gain
  {
    hide Next, Inv;
    RunKeepsInv(c, gain, ms[..k]);
    assert ms[..k + 1][..k] == ms[..k];
  }

  /** In every run the two counters are the lengths of the runs of loud and of quiet blocks since the
      last change. */
  lemma {:induction false} CountersAreRuns(c: Config, gain: int, ms: seq<Measurement>, k: nat)
    requires ValidConfig(c) && k <= |ms|
    ensures var s0, s := Initial(c, gain), Before(c, gain, ms, k);
      && s.loudBlocks <= k && s.quietBlocks <= k
      && (s.burstTimer > 0 || !c.burst ==> s.loudBlocks == s.quietBlocks == 0)
      && (forall i :: 0 <= i <= k ==> (LoudRun(c, s0, ms, k, i) <==> i <= s.loudBlocks))
      && (forall i :: 0 <= i <= k ==> (QuietRun(c, s0, ms, k, i) <==> i <= s.quietBlocks))
    decreases k
  {
    hide Next, Inv, Quiet, Counts, After;
    var s0, s := Initial(c, gain), Before(c, gain, ms, k);
    if k == 0 {
      assert ms[..0] == [];
      NothingYet(c, s0);
    } else {
      hide LoudRun, QuietRun, Initial, Before, BurstDecides;
      CountersAreRuns(c, gain, ms, k - 1);
      BeforeNext(c, gain, ms, k - 1);
      RunsExactly(c, Before(c, gain, ms, k - 1), ms[k - 1]);
      CountersStep(c, Before(c, gain, ms, k - 1), ms[k - 1]);
      NoRunYet(c, s0, ms, k);
      forall i | 0 < i <= k
        ensures LoudRun(c, s0, ms, k, i) <==> i <= s.loudBlocks
        ensures QuietRun(c, s0, ms, k, i) <==> i <= s.quietBlocks
      {
        OneLonger(c, s0, ms, k, i);
      }
    }
  }

  lemma NothingYet(c: Config, s: State)
    ensures After(c, s, []) == s
  {
  }

  lemma NoRunYet(c: Config, s: State, ms: seq<Measurement>, k: nat)
    requires k <= |ms|
    ensures LoudRun(c, s, ms, k, 0) && QuietRun(c, s, ms, k, 0)
  {
  }

  /** Blocks that do not count find and leave the counters at 0. */
  lemma CountersStep(c: Config, s: State, m: Measurement)
    requires ValidConfig(c) && Inv(c, s)
    requires s.burstTimer > 0 || !c.burst ==> s.loudBlocks == s.quietBlocks == 0
    ensures var t := Next(c, s, m);
      && (t.burstTimer > 0 || !c.burst ==> t.loudBlocks == t.quietBlocks == 0)
      && (!BurstDecides(c, s) ==> t.loudBlocks == t.quietBlocks == 0)
  {
    RunsExactly(c, s, m);
    hide Next;
  }

  /** A block that ends a run of loudRunlength loud ones lowers the gain by a step, unless it is the
      least already. */
  lemma LoudBlocksLower(c: Config, gain: int, ms: seq<Measurement>, k: nat)
    requires ValidConfig(c) && k < |ms| && 0 < c.loudRunlength <= k + 1
    requires BurstDecides(c, Before(c, gain, ms, k)) && ms[k].loud
    requires LoudRun(c, Initial(c, gain), ms, k, c.loudRunlength - 1)
    ensures var g := Before(c, gain, ms, k).gain;
      Before(c, gain, ms, k + 1).gain == if g > c.min then g - 1 else c.min
  {
    hide Next, Inv, LoudRun, QuietRun, Initial, Before;
    CountersAreRuns(c, gain, ms, k);
    BeforeNext(c, gain, ms, k);
    GainExactly(c, Before(c, gain, ms, k), ms[k]);
  }

  /** While burst control decides, nothing raises the gain but a block that ends a run of
      quietRunlength quiet ones. */
  lemma RaisedOnlyAfterQuietBlocks(c: Config, gain: int, ms: seq<Measurement>, k: nat)
    requires ValidConfig(c) && k < |ms| && c.quietRunlength > 0
    requires BurstDecides(c, Before(c, gain, ms, k))
    requires Before(c, gain, ms, k + 1).gain > Before(c, gain, ms, k).gain
    ensures Quiet(ms[k]) && c.quietRunlength <= k + 1
    ensures QuietRun(c, Initial(c, gain), ms, k, c.quietRunlength - 1)
  {
    hide Next, LoudRun, QuietRun, Initial, Before;
    CountersAreRuns(c, gain, ms, k);
    BeforeNext(c, gain, ms, k);
    GainExactly(c, Before(c, gain, ms, k), ms[k]);
  }

  /** Such a block does raise it, below the limit and unless range control lowers it. */
  lemma QuietBlocksRaise(c: Config, gain: int, ms: seq<Measurement>, k: nat)
    requires ValidConfig(c) && k < |ms| && c.loudRunlength > 0 && 0 < c.quietRunlength <= k + 1
    requires var s := Before(c, gain, ms, k);
      BurstDecides(c, s) && Quiet(ms[k]) && s.gain < s.limit && !RangeLowers(c, s, ms[k])
    requires QuietRun(c, Initial(c, gain), ms, k, c.quietRunlength - 1)
    ensures Before(c, gain, ms, k + 1).gain == Before(c, gain, ms, k).gain + 1
  {
    hide Next, Inv, LoudRun, QuietRun, Initial, Before, RangeLowers, RangeRaises;
    CountersAreRuns(c, gain, ms, k);
    BeforeNext(c, gain, ms, k);
    GainExactly(c, Before(c, gain, ms, k), ms[k]);
  }

  /** Control starts at the allowed gain nearest to that of the SDR, as its limit, with an upward scan
      once the delays are over. */
  lemma StartsNearest(c: Config, gain: int, x: int)
    requires ValidConfig(c) && c.min <= x <= c.max
    ensures var s := Initial(c, gain);
      && c.min <= s.gain == s.limit <= c.max && s.scan == Up
      && (if s.gain >= gain then s.gain - gain else gain - s.gain) <= (if x >= gain then x - gain else gain - x)
      && s.burstTimer == c.burstDelay && s.rangeTimer == c.rangeDelay
  {
  }
}
