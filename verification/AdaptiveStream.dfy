/** What the adaptive gain control (adaptive.c) measures on a stream of samples, one sample at a
    time: blocks of subblocks of windows, and a duty cycle that decides which subblocks count. */
module AdaptiveStream {
  import opened BurstWindows
  import opened Division

  const SUBBLOCKS_PER_BLOCK: nat := 20
  const WINDOWS_PER_SUBBLOCK: nat := 1250

  /** Duty cycle n / 20, samples per window, and which controls are enabled. */
  datatype Config = Config(n: nat, window: nat, burst: bool, range: bool)

  predicate ValidConfig(c: Config) {
    1 <= c.n <= SUBBLOCKS_PER_BLOCK && c.window > 0
  }

  function SamplesPerSubblock(c: Config): nat {
    c.window * WINDOWS_PER_SUBBLOCK
  }

  /** A sample outside decoded messages, or one of a decoded message; marked if it counts a loud
      message. */
  datatype Input = Heard(x: Sample) | Skipped(mark: bool)

  function IsLoud(i: Input): bool {
    i.Heard? && Loud(i.x)
  }

  function Louds(xs: seq<Input>): (r: seq<bool>)
    ensures |r| == |xs|
  {
    seq(|xs|, k requires 0 <= k < |xs| => IsLoud(xs[k]))
  }

  /** What the end of a block hands to the control update. */
  datatype Report = Report(undecoded: nat, decoded: nat, radix: seq<nat>, radixCounter: nat)

  datatype State = State(
    burst: Burst,
    loudDecoded: nat,
    radix: seq<nat>,
    radixCounter: nat,
    samplesRemaining: nat,
    dutyCounter: nat,
    active: bool,
    subblocksRemaining: nat,
    reports: seq<Report>)

  /** Empty buckets, one for every magnitude. */
  function NoSamples(): (r: seq<nat>)
    ensures |r| == 65536
  {
    seq(65536, _ => 0)
  }

  /** adaptive_init */
  function Initial(c: Config): State {
    State(Burst(c.window, 0, 0, 0, []), 0, NoSamples(), 0, SamplesPerSubblock(c), 0, false, SUBBLOCKS_PER_BLOCK, [])
  }

  /** Counting one magnitude. */
  function Tally(radix: seq<nat>, xs: seq<Input>): (r: seq<nat>)
    requires |radix| == 65536
    ensures |r| == 65536
  {
    if xs == [] then radix
    else
      var before := Tally(radix, xs[..|xs| - 1]);
      var i := xs[|xs| - 1];
      if i.Heard? then before[i.x := before[i.x] + 1] else before
  }

  function HeardCount(xs: seq<Input>): nat {
    if xs == [] then 0 else HeardCount(xs[..|xs| - 1]) + if xs[|xs| - 1].Heard? then 1 else 0
  }

  /** How many loud decoded messages are counted. */
  function MarkCount(xs: seq<Input>): nat {
    if xs == [] then 0
    else MarkCount(xs[..|xs| - 1]) + if xs[|xs| - 1].Skipped? && xs[|xs| - 1].mark then 1 else 0
  }

  predicate Shape(s: State) {
    |s.radix| == 65536 && s.burst.remaining > 0 && s.samplesRemaining > 0 && s.subblocksRemaining > 0
  }

  /** The measurements on samples of the current subblock. */
  function Measured(c: Config, s: State, xs: seq<Input>): (r: State)
    requires ValidConfig(c) && Shape(s)
    ensures Shape(r)
  {
    if !s.active then s
    else s.(burst := if c.burst then Fold(s.burst, Louds(xs), c.window) else s.burst,
            loudDecoded := s.loudDecoded + MarkCount(xs),
            radix := if c.range then Tally(s.radix, xs) else s.radix,
            radixCounter := if c.range then s.radixCounter + HeardCount(xs) else s.radixCounter)
  }

  function EndOfBlock(c: Config, s: State): (r: State)
    requires Shape(s)
    ensures Shape(r)
  {
    s.(subblocksRemaining := SUBBLOCKS_PER_BLOCK,
       reports := s.reports + [Report(s.burst.undecoded, s.loudDecoded, s.radix, s.radixCounter)],
       radix := if c.range then NoSamples() else s.radix,
       radixCounter := if c.range then 0 else s.radixCounter,
       burst := if c.burst then s.burst.(undecoded := 0) else s.burst,
       loudDecoded := if c.burst then 0 else s.loudDecoded)
  }

  function NextSubblock(c: Config, s: State): (r: State)
    requires ValidConfig(c) && Shape(s)
    ensures Shape(r)
  {
    var counter := s.dutyCounter + c.n;
    var t := s.(samplesRemaining := SamplesPerSubblock(c));
    if counter >= SUBBLOCKS_PER_BLOCK then t.(dutyCounter := counter - SUBBLOCKS_PER_BLOCK, active := true)
    else t.(dutyCounter := counter, active := false, burst := EndOfWindow(s.burst, 0, c.window))
  }

  function EndOfSubblock(c: Config, s: State): (r: State)
    requires ValidConfig(c) && Shape(s)
    ensures Shape(r)
  {
    var t := NextSubblock(c, s);
    if t.subblocksRemaining == 1 then EndOfBlock(c, t)
    else t.(subblocksRemaining := t.subblocksRemaining - 1)
  }

  function Step(c: Config, s: State, i: Input): (r: State)
    requires ValidConfig(c) && Shape(s)
    ensures Shape(r)
  {
    var m := Measured(c, s, [i]);
    if s.samplesRemaining > 1 then m.(samplesRemaining := s.samplesRemaining - 1) else EndOfSubblock(c, m)
  }

  function Run(c: Config, s: State, xs: seq<Input>): (r: State)
    requires ValidConfig(c) && Shape(s)
    ensures Shape(r)
  {
    if xs == [] then s else Step(c, Run(c, s, xs[..|xs| - 1]), xs[|xs| - 1])
  }

  /** Feeding a stream in pieces is feeding it at once. */
  lemma {:induction false} RunAppend(c: Config, s: State, x: seq<Input>, y: seq<Input>)
    requires ValidConfig(c) && Shape(s)
    ensures Run(c, s, x + y) == Run(c, Run(c, s, x), y)
    decreases |y|
  {
    hide Step;
    if y == [] {
      assert x + y == x;
    } else {
      assert (x + y)[..|x + y| - 1] == x + y[..|y| - 1];
      RunAppend(c, s, x, y[..|y| - 1]);
    }
  }

  // ---- Within a subblock --------------------------------------------------------------------

  lemma {:induction false} TallyAppend(radix: seq<nat>, x: seq<Input>, y: seq<Input>)
    requires |radix| == 65536
    ensures Tally(radix, x + y) == Tally(Tally(radix, x), y)
    ensures HeardCount(x + y) == HeardCount(x) + HeardCount(y)
    ensures MarkCount(x + y) == MarkCount(x) + MarkCount(y)
    decreases |y|
  {
    if y == [] {
      assert x + y == x;
    } else {
      assert (x + y)[..|x + y| - 1] == x + y[..|y| - 1];
      TallyAppend(radix, x, y[..|y| - 1]);
    }
  }

  lemma LoudsAppend(x: seq<Input>, y: seq<Input>)
    ensures Louds(x + y) == Louds(x) + Louds(y)
  {
  }

  lemma MeasuredAppend(c: Config, s: State, x: seq<Input>, y: seq<Input>)
    requires ValidConfig(c) && Shape(s)
    ensures Measured(c, s, x + y) == Measured(c, Measured(c, s, x), y)
  {
    hide Fold, Tally, HeardCount, MarkCount, Louds;
    TallyAppend(s.radix, x, y);
    LoudsAppend(x, y);
    FoldAppend(s.burst, Louds(x), Louds(y), c.window);
  }

  lemma MeasuredNothing(c: Config, s: State)
    requires ValidConfig(c) && Shape(s)
    ensures Measured(c, s, []) == s
  {
  }

  /** The subblock bookkeeping does not matter for the measurements. */
  lemma MeasuredFrame(c: Config, s: State, xs: seq<Input>, n: nat)
    requires ValidConfig(c) && Shape(s) && n > 0
    ensures Measured(c, s.(samplesRemaining := n), xs) == Measured(c, s, xs).(samplesRemaining := n)
  {
  }

  /** Samples that do not complete the subblock. */
  lemma {:induction false} RunPartial(c: Config, s: State, xs: seq<Input>)
    requires ValidConfig(c) && Shape(s) && |xs| < s.samplesRemaining
    ensures Run(c, s, xs) == Measured(c, s, xs).(samplesRemaining := s.samplesRemaining - |xs|)
    decreases |xs|
  {
    hide Measured, EndOfSubblock;
    if xs == [] {
      MeasuredNothing(c, s);
    } else {
      var init, last := xs[..|xs| - 1], xs[|xs| - 1];
      RunPartial(c, s, init);
      assert xs == init + [last];
      MeasuredAppend(c, s, init, [last]);
      MeasuredFrame(c, Measured(c, s, init), [last], s.samplesRemaining - |init|);
    }
  }

  /** Samples that exactly complete the subblock. */
  lemma RunSubblock(c: Config, s: State, xs: seq<Input>)
    requires ValidConfig(c) && Shape(s) && |xs| == s.samplesRemaining
    ensures Run(c, s, xs) == EndOfSubblock(c, Measured(c, s, xs).(samplesRemaining := 1))
  {
    hide Measured, EndOfSubblock;
    var init, last := xs[..|xs| - 1], xs[|xs| - 1];
    RunPartial(c, s, init);
    assert xs == init + [last];
    MeasuredAppend(c, s, init, [last]);
    MeasuredFrame(c, Measured(c, s, init), [last], 1);
  }

  lemma EndOfSubblockFrame(c: Config, s: State, n: nat)
    requires ValidConfig(c) && Shape(s) && n > 0
    ensures EndOfSubblock(c, s.(samplesRemaining := n)) == EndOfSubblock(c, s)
  {
  }

  // ---- Alignment ----------------------------------------------------------------------------

  /** How many samples the current window still needs when r samples of its subblock are left. */
  function WindowRemaining(r: nat, window: nat): (n: nat)
    requires r > 0 && window > 0
    ensures 1 <= n <= window
  {
    (r - 1) % window + 1
  }

  /** Windows tile the active subblocks; between them no window is open. */
  predicate Aligned(c: Config, s: State)
    requires ValidConfig(c)
  {
    && Shape(s) && s.samplesRemaining <= SamplesPerSubblock(c) && s.subblocksRemaining <= SUBBLOCKS_PER_BLOCK
    && s.dutyCounter < SUBBLOCKS_PER_BLOCK
    && (if c.burst && s.active then s.burst.remaining == WindowRemaining(s.samplesRemaining, c.window)
        else s.burst.remaining == c.window)
    && (s.burst.remaining == c.window ==> s.burst.counter == 0)
  }

  lemma OneSampleLess(r: nat, window: nat)
    requires r > 1 && window > 0
    ensures WindowRemaining(r - 1, window)
         == if WindowRemaining(r, window) > 1 then WindowRemaining(r, window) - 1 else window
  {
    var q, m := (r - 1) / window, (r - 1) % window;
    assert r - 1 == window * q + m;
    if m > 0 {
      RemainderIs(r - 2, window, q, m - 1);
    } else {
      assert window * (q - 1) == window * q - window;
      RemainderIs(r - 2, window, q - 1, window - 1);
    }
  }

  lemma LastOfSubblock(window: nat)
    requires window > 0
    ensures WindowRemaining(1, window) == 1
    ensures WindowRemaining(window * WINDOWS_PER_SUBBLOCK, window) == window
  {
    assert window * WINDOWS_PER_SUBBLOCK - 1 == window * 1249 + (window - 1);
    RemainderIs(window * WINDOWS_PER_SUBBLOCK - 1, window, 1249, window - 1);
  }

  lemma MeasuredOne(c: Config, s: State, i: Input)
    requires ValidConfig(c) && Shape(s)
    ensures var m := Measured(c, s, [i]);
      && m == s.(burst := m.burst, loudDecoded := m.loudDecoded, radix := m.radix, radixCounter := m.radixCounter)
      && m.burst == if s.active && c.burst then Feed(s.burst, IsLoud(i), c.window) else s.burst
  {
    hide Feed;
    var louds := Louds([i]);
    assert louds == [IsLoud(i)];
    assert louds[..0] == [] && Fold(s.burst, [], c.window) == s.burst;
  }

  lemma EndOfSubblockAligned(c: Config, s: State)
    requires ValidConfig(c) && Shape(s)
    requires s.subblocksRemaining <= SUBBLOCKS_PER_BLOCK && s.dutyCounter < SUBBLOCKS_PER_BLOCK
    requires s.burst.remaining == c.window && s.burst.counter == 0
    ensures Aligned(c, EndOfSubblock(c, s))
  {
    LastOfSubblock(c.window);
  }

  /** Every subblock boundary is a window boundary. */
  lemma BoundaryIsAligned(c: Config, s: State)
    requires ValidConfig(c) && Aligned(c, s) && s.samplesRemaining == SamplesPerSubblock(c)
    ensures s.burst.remaining == c.window && s.burst.counter == 0
  {
    LastOfSubblock(c.window);
  }

  lemma StepAligned(c: Config, s: State, i: Input)
    requires ValidConfig(c) && Aligned(c, s)
    ensures Aligned(c, Step(c, s, i))
  {
    hide Measured, EndOfSubblock, WindowRemaining;
    MeasuredOne(c, s, i);
    LastOfSubblock(c.window);
    if s.samplesRemaining > 1 {
      OneSampleLess(s.samplesRemaining, c.window);
    } else {
      EndOfSubblockAligned(c, Measured(c, s, [i]));
    }
  }

  lemma {:induction false} RunAligned(c: Config, s: State, xs: seq<Input>)
    requires ValidConfig(c) && Aligned(c, s)
    ensures Aligned(c, Run(c, s, xs))
  {
    hide Aligned, Step;
    assert Shape(s) by { AlignedShape(c, s); }
    if xs != [] {
      RunAligned(c, s, xs[..|xs| - 1]);
      AlignedShape(c, Run(c, s, xs[..|xs| - 1]));
      StepAligned(c, Run(c, s, xs[..|xs| - 1]), xs[|xs| - 1]);
    }
  }

  lemma AlignedShape(c: Config, s: State)
    requires ValidConfig(c) && Aligned(c, s)
    ensures Shape(s)
  {
  }

  lemma InitialAligned(c: Config)
    requires ValidConfig(c)
    ensures Aligned(c, Initial(c))
  {
  }
}
