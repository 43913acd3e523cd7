/** Conservation in the range and decode counts of the adaptive gain control: every sample and every loud
    message of the active subblocks is counted in exactly one report. */
module AdaptiveTallies {
  import opened BurstWindows
  import opened AdaptiveStream

  /** How often the multiset of inputs has one. */
  function Occurrences(xs: seq<Input>, i: Input): nat {
    multiset(xs)[i]
  }

  lemma OneMore(xs: seq<Input>, i: Input)
    requires xs != []
    ensures Occurrences(xs, i) == Occurrences(xs[..|xs| - 1], i) + if xs[|xs| - 1] == i then 1 else 0
  {
    assert xs == xs[..|xs| - 1] + [xs[|xs| - 1]];
  }

  /** A bucket grows by the number of samples of its magnitude. */
  lemma {:induction false} TallyIsOccurrences(radix: seq<nat>, xs: seq<Input>, x: Sample)
    requires |radix| == 65536
    ensures Tally(radix, xs)[x] == radix[x] + Occurrences(xs, Heard(x))
    decreases |xs|
  {
    hide Occurrences;
    if xs != [] {
      OneMore(xs, Heard(x));
      TallyIsOccurrences(radix, xs[..|xs| - 1], x);
    } else {
      assert Occurrences(xs, Heard(x)) == 0 by { NoOccurrences(Heard(x)); }
    }
  }

  lemma NoOccurrences(i: Input)
    ensures Occurrences([], i) == 0
  {
  }

  lemma {:induction false} MarksAreOccurrences(xs: seq<Input>)
    ensures MarkCount(xs) == Occurrences(xs, Skipped(true))
    decreases |xs|
  {
    hide Occurrences;
    if xs != [] {
      OneMore(xs, Skipped(true));
      MarksAreOccurrences(xs[..|xs| - 1]);
    } else {
      NoOccurrences(Skipped(true));
    }
  }

  /** All samples that are not of decoded messages. */
  lemma {:induction false} HeardIsTheRest(xs: seq<Input>)
    ensures HeardCount(xs) == |xs| - Occurrences(xs, Skipped(true)) - Occurrences(xs, Skipped(false))
    decreases |xs|
  {
    hide Occurrences;
    if xs != [] {
      OneMore(xs, Skipped(true));
      OneMore(xs, Skipped(false));
      HeardIsTheRest(xs[..|xs| - 1]);
    } else {
      NoOccurrences(Skipped(true));
      NoOccurrences(Skipped(false));
    }
  }

  // ---- Over a run -----------------------------------------------------------------------------------

  /** The inputs that fall into active subblocks. */
  function Active(c: Config, s: State, xs: seq<Input>): seq<Input>
    requires ValidConfig(c) && Shape(s)
  {
    if xs == [] then []
    else Active(c, s, xs[..|xs| - 1]) + if Run(c, s, xs[..|xs| - 1]).active then [xs[|xs| - 1]] else []
  }

  predicate Tallied(reports: seq<Report>) {
    forall k :: 0 <= k < |reports| ==> |reports[k].radix| == 65536
  }

  /** What all reports say about a magnitude. */
  function ReportedSamples(reports: seq<Report>, x: Sample): nat
    requires Tallied(reports)
  {
    if reports == [] then 0
    else ReportedSamples(reports[..|reports| - 1], x) + reports[|reports| - 1].radix[x]
  }

  function ReportedLoud(reports: seq<Report>): nat {
    if reports == [] then 0 else ReportedLoud(reports[..|reports| - 1]) + reports[|reports| - 1].decoded
  }

  lemma MeasuredTallies(c: Config, s: State, i: Input, x: Sample)
    requires ValidConfig(c) && Shape(s)
    ensures var m := Measured(c, s, [i]);
      && m.reports == s.reports && m.active == s.active
      && (c.range ==> m.radix[x] == s.radix[x] + if s.active && i == Heard(x) then 1 else 0)
      && m.loudDecoded == s.loudDecoded + if s.active && i == Skipped(true) then 1 else 0
  {
    hide Fold, Louds, Tally, MarkCount, HeardCount;
    TallyIsOccurrences(s.radix, [i], x);
    MarksAreOccurrences([i]);
  }

  lemma OneReport(reports: seq<Report>, r: Report, x: Sample)
    requires Tallied(reports) && |r.radix| == 65536
    ensures Tallied(reports + [r])
    ensures ReportedSamples(reports + [r], x) == ReportedSamples(reports, x) + r.radix[x]
    ensures ReportedLoud(reports + [r]) == ReportedLoud(reports) + r.decoded
  {
    assert (reports + [r])[..|reports|] == reports;
  }

  /** The end of a subblock moves counts into a report, at most. */
  lemma EndMovesTallies(c: Config, s: State, x: Sample)
    requires ValidConfig(c) && Shape(s) && Tallied(s.reports)
    ensures var t := EndOfSubblock(c, s);
      && Tallied(t.reports)
      && (c.range ==> ReportedSamples(t.reports, x) + t.radix[x] == ReportedSamples(s.reports, x) + s.radix[x])
      && (c.burst ==> ReportedLoud(t.reports) + t.loudDecoded == ReportedLoud(s.reports) + s.loudDecoded)
  {
    hide EndOfWindow, ReportedSamples, ReportedLoud, Tallied;
    var t := NextSubblock(c, s);
    OneReport(s.reports, Report(t.burst.undecoded, t.loudDecoded, t.radix, t.radixCounter), x);
  }

  lemma StepTallies(c: Config, s: State, i: Input, x: Sample)
    requires ValidConfig(c) && Shape(s) && Tallied(s.reports)
    ensures var t := Step(c, s, i);
      && Tallied(t.reports)
      && (c.range ==>
            ReportedSamples(t.reports, x) + t.radix[x] ==
            ReportedSamples(s.reports, x) + s.radix[x] + if s.active && i == Heard(x) then 1 else 0)
      && (c.burst ==>
            ReportedLoud(t.reports) + t.loudDecoded ==
            ReportedLoud(s.reports) + s.loudDecoded + if s.active && i == Skipped(true) then 1 else 0)
  {
    hide Measured, EndOfSubblock, ReportedSamples, ReportedLoud, Tallied;
    MeasuredTallies(c, s, i, x);
    EndMovesTallies(c, Measured(c, s, [i]), x);
  }

  /** From initialization on, the samples of a magnitude in active subblocks are those in the reports and
      the current bucket, and so are the loud messages that were decoded. */
  lemma {:induction false} NothingIsLost(c: Config, xs: seq<Input>, x: Sample)
    requires ValidConfig(c)
    ensures var r, a := Run(c, Initial(c), xs), Active(c, Initial(c), xs);
      && Tallied(r.reports)
      && (c.range ==> ReportedSamples(r.reports, x) + r.radix[x] == Occurrences(a, Heard(x)))
      && (c.burst ==> ReportedLoud(r.reports) + r.loudDecoded == Occurrences(a, Skipped(true)))
    decreases |xs|
  {
    hide Step, Occurrences;
    if xs != [] {
      hide ReportedSamples, ReportedLoud, Tallied;
      var s, i, before := Run(c, Initial(c), xs[..|xs| - 1]), xs[|xs| - 1], Active(c, Initial(c), xs[..|xs| - 1]);
      NothingIsLost(c, xs[..|xs| - 1], x);
      StepTallies(c, s, i, x);
      if s.active {
        assert (before + [i])[..|before|] == before;
        OneMore(before + [i], Heard(x));
        OneMore(before + [i], Skipped(true));
      } else {
        assert before + [] == before;
      }
    } else {
      NoOccurrences(Heard(x));
      NoOccurrences(Skipped(true));
    }
  }
}
