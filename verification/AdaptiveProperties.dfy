/** The duty cycle, the windows of a subblock, and the burst counts of a whole run. */
module AdaptiveProperties {
  import opened BurstWindows
  import opened AdaptiveStream

  // ---- Duty cycle ---------------------------------------------------------------------------

  /** How many of the complete subblocks in xs, from a subblock boundary on, are active. */
  function ActiveSubblocks(c: Config, s: State, xs: seq<Input>): nat
    requires ValidConfig(c) && Shape(s)
    decreases |xs|
  {
    var n := SamplesPerSubblock(c);
    if |xs| < n then 0
    else (if s.active then 1 else 0) + ActiveSubblocks(c, Run(c, s, xs[..n]), xs[n..])
  }

  predicate AtBoundary(c: Config, s: State) {
    s.samplesRemaining == SamplesPerSubblock(c) && s.dutyCounter < SUBBLOCKS_PER_BLOCK
  }

  /** The current subblock is active as the counter says. The state after adaptive_init is an
      exception: its first subblock is skipped although the counter is below n. */
  predicate Consistent(c: Config, s: State) {
    s.active <==> s.dutyCounter < c.n
  }

  /** The counter before it was advanced for the current subblock. */
  function Previous(c: Config, s: State): int {
    s.dutyCounter - c.n + if s.active then SUBBLOCKS_PER_BLOCK else 0
  }

  lemma MeasuredKeeps(c: Config, s: State, xs: seq<Input>)
    requires ValidConfig(c) && Shape(s)
    ensures var m := Measured(c, s, xs);
      m == s.(burst := m.burst, loudDecoded := m.loudDecoded, radix := m.radix, radixCounter := m.radixCounter)
  {
  }

  lemma NextDuty(c: Config, s: State)
    requires ValidConfig(c) && Shape(s) && s.dutyCounter < SUBBLOCKS_PER_BLOCK
    ensures var r := EndOfSubblock(c, s);
      AtBoundary(c, r) && Previous(c, r) == s.dutyCounter && Consistent(c, r)
  {
  }

  lemma SubblockDuty(c: Config, s: State, xs: seq<Input>)
    requires ValidConfig(c) && Shape(s) && AtBoundary(c, s) && |xs| == SamplesPerSubblock(c)
    ensures var r := Run(c, s, xs);
      AtBoundary(c, r) && Previous(c, r) == s.dutyCounter && Consistent(c, r)
  {
    hide Measured, Run, EndOfSubblock;
    RunSubblock(c, s, xs);
    MeasuredKeeps(c, s, xs);
    NextDuty(c, Measured(c, s, xs).(samplesRemaining := 1));
  }

  lemma {:induction false} ActiveBalance(c: Config, s: State, xs: seq<Input>, k: nat)
    requires ValidConfig(c) && Shape(s) && AtBoundary(c, s) && |xs| == k * SamplesPerSubblock(c)
    ensures var r := Run(c, s, xs);
      && AtBoundary(c, r) && (k > 0 ==> Consistent(c, r))
      && SUBBLOCKS_PER_BLOCK * ActiveSubblocks(c, s, xs) == Previous(c, s) + k * c.n - Previous(c, r)
    decreases k
  {
    hide Step, Consistent, AtBoundary;
    if k > 0 {
      var n := SamplesPerSubblock(c);
      OneOf(k, n);
      var first, rest := xs[..n], xs[n..];
      SubblockDuty(c, s, first);
      ActiveBalance(c, Run(c, s, first), rest, k - 1);
      RunAppend(c, s, first, rest);
      assert xs == first + rest;
      OneOf(k, c.n);
      if k == 1 {
        assert rest == [];
      }
    }
  }

  lemma OneOf(k: nat, n: nat)
    requires k > 0
    ensures k * n == n + (k - 1) * n && (k - 1) * n >= 0
  {
  }

  /** Any 20 consecutive subblocks contain exactly n active ones, except that the 20 subblocks
      from initialization on contain one less. */
  lemma DutyCycle(c: Config, s: State, xs: seq<Input>)
    requires ValidConfig(c) && Aligned(c, s) && AtBoundary(c, s)
    requires |xs| == SUBBLOCKS_PER_BLOCK * SamplesPerSubblock(c)
    ensures Consistent(c, s) ==> ActiveSubblocks(c, s, xs) == c.n
    ensures !s.active && s.dutyCounter < c.n ==> ActiveSubblocks(c, s, xs) == c.n - 1
  {
    hide Run, ActiveSubblocks;
    ActiveBalance(c, s, xs, SUBBLOCKS_PER_BLOCK);
  }

  lemma StepConsistent(c: Config, s: State, i: Input)
    requires ValidConfig(c) && Aligned(c, s)
    ensures s.samplesRemaining == 1 || Consistent(c, s) ==> Consistent(c, Step(c, s, i))
    ensures s.samplesRemaining > 1 ==> Step(c, s, i).samplesRemaining == s.samplesRemaining - 1
  {
    hide Measured, EndOfSubblock;
    MeasuredOne(c, s, i);
    if s.samplesRemaining == 1 {
      NextDuty(c, Measured(c, s, [i]));
    }
  }

  /** After the first subblock the exception is over for good. */
  lemma {:induction false} ConsistentFromSecondSubblock(c: Config, xs: seq<Input>)
    requires ValidConfig(c)
    ensures Aligned(c, Run(c, Initial(c), xs))
    ensures |xs| >= SamplesPerSubblock(c) ==> Consistent(c, Run(c, Initial(c), xs))
    ensures |xs| < SamplesPerSubblock(c) ==> Run(c, Initial(c), xs).samplesRemaining == SamplesPerSubblock(c) - |xs|
    decreases |xs|
  {
    hide Step, Aligned, Consistent;
    InitialAligned(c);
    RunAligned(c, Initial(c), xs);
    if xs != [] {
      ConsistentFromSecondSubblock(c, xs[..|xs| - 1]);
      StepConsistent(c, Run(c, Initial(c), xs[..|xs| - 1]), xs[|xs| - 1]);
    }
  }

  /** Before its first sample the control is in the exceptional state. */
  lemma FirstBlockIsShort(c: Config, xs: seq<Input>)
    requires ValidConfig(c) && |xs| == SUBBLOCKS_PER_BLOCK * SamplesPerSubblock(c)
    ensures ActiveSubblocks(c, Initial(c), xs) == c.n - 1
  {
    hide ActiveSubblocks;
    InitialAligned(c);
    DutyCycle(c, Initial(c), xs);
  }

  // ---- Windows ------------------------------------------------------------------------------

  /** An active subblock is cut into exactly 1250 windows, and a skipped subblock after it ends
      any run of loud windows. */
  lemma SubblockWindows(c: Config, s: State, xs: seq<Input>)
    requires ValidConfig(c) && Aligned(c, s) && AtBoundary(c, s) && s.active && c.burst && |xs| == SamplesPerSubblock(c)
    ensures |WindowsOf(Louds(xs), c.window)| == WINDOWS_PER_SUBBLOCK
    ensures var r := Run(c, s, xs);
      r.burst.windows == s.burst.windows + WindowsOf(Louds(xs), c.window) + (if r.active then [] else [false])
  {
    hide Run, Fold, WindowsOf, Tally, HeardCount, MarkCount;
    RunSubblock(c, s, xs);
    BoundaryIsAligned(c, s);
    FoldWindows(s.burst, Louds(xs), c.window, WINDOWS_PER_SUBBLOCK);
  }

  // ---- Bursts -------------------------------------------------------------------------------

  /** The bursts counted in the blocks that have ended. */
  function Reported(reports: seq<Report>): nat {
    if reports == [] then 0 else Reported(reports[..|reports| - 1]) + reports[|reports| - 1].undecoded
  }

  ghost predicate Counted(s: State) {
    Counts(s.burst, Reported(s.reports))
  }

  lemma ReportedAppend(reports: seq<Report>, r: Report)
    ensures Reported(reports + [r]) == Reported(reports) + r.undecoded
  {
    assert (reports + [r])[..|reports|] == reports;
  }

  lemma EndOfBlockCounts(c: Config, s: State)
    requires Shape(s) && c.burst && Counted(s)
    ensures Counted(EndOfBlock(c, s))
  {
    hide Bursts, Tail, Reported;
    ReportedAppend(s.reports, Report(s.burst.undecoded, s.loudDecoded, s.radix, s.radixCounter));
  }

  lemma NextSubblockCounts(c: Config, s: State)
    requires ValidConfig(c) && Shape(s) && Counted(s)
    ensures Counted(NextSubblock(c, s))
  {
    hide Counts, EndOfWindow, Reported;
    EndOfWindowCounts(s.burst, 0, c.window, Reported(s.reports));
  }

  lemma EndOfSubblockCounts(c: Config, s: State)
    requires ValidConfig(c) && Shape(s) && c.burst && Counted(s)
    ensures Counted(EndOfSubblock(c, s))
  {
    hide Counts, NextSubblock, EndOfBlock, Reported;
    NextSubblockCounts(c, s);
    var t := NextSubblock(c, s);
    if t.subblocksRemaining == 1 {
      EndOfBlockCounts(c, t);
    }
  }

  lemma StepCounts(c: Config, s: State, i: Input)
    requires ValidConfig(c) && Shape(s) && c.burst && Counted(s)
    ensures Counted(Step(c, s, i))
  {
    hide Measured, EndOfSubblock, Counts, Feed;
    MeasuredOne(c, s, i);
    if s.active {
      FeedCounts(s.burst, IsLoud(i), c.window, Reported(s.reports));
    }
    if s.samplesRemaining == 1 {
      EndOfSubblockCounts(c, Measured(c, s, [i]));
    }
  }

  /** Over every run, the bursts reported so far and those counted in the current block are
      together the maximal runs of 2 to 5 loud windows that have ended. */
  lemma {:induction false} RunCounts(c: Config, s: State, xs: seq<Input>)
    requires ValidConfig(c) && Shape(s) && c.burst && Counted(s)
    ensures Counted(Run(c, s, xs))
    decreases |xs|
  {
    hide Step, Counted;
    if xs != [] {
      RunCounts(c, s, xs[..|xs| - 1]);
      StepCounts(c, Run(c, s, xs[..|xs| - 1]), xs[|xs| - 1]);
    }
  }

  lemma InitialCounted(c: Config)
    ensures Counted(Initial(c))
  {
  }

  /** So the count is right from initialization on. */
  lemma RunCountsFromInitial(c: Config, xs: seq<Input>)
    requires ValidConfig(c) && c.burst
    ensures var r := Run(c, Initial(c), xs);
      Reported(r.reports) + r.burst.undecoded == Bursts(r.burst.windows, |r.burst.windows|)
  {
    hide Run;
    InitialCounted(c);
    RunCounts(c, Initial(c), xs);
  }
}
