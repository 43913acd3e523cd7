/** The sample-driven part of the adaptive gain control (adaptive.c), which works on whole windows
    and subblocks at a time. */
module AdaptiveSampler {
  import opened BurstWindows
  import opened AdaptiveStream

  function Heards(buf: seq<Sample>): (r: seq<Input>)
    ensures |r| == |buf|
  {
    seq(|buf|, k requires 0 <= k < |buf| => Heard(buf[k]))
  }

  function Skips(n: nat): (r: seq<Input>)
    ensures |r| == n
  {
    seq(n, _ => Skipped(false))
  }

  /** A run of samples of one subblock, or the part of a decoded message that lies in one subblock,
      where a loud message is counted. */
  function Piece(buf: seq<Sample>, decoded: bool, loud: bool): (r: seq<Input>)
    ensures |r| == |buf|
  {
    if !decoded then Heards(buf) else if |buf| == 0 then [] else [Skipped(loud)] + Skips(|buf| - 1)
  }

  /** A buffer, cut at the ends of subblocks, when `remaining` samples of the current one are left. */
  function Inputs(c: Config, remaining: nat, buf: seq<Sample>, decoded: bool, loud: bool): (r: seq<Input>)
    requires ValidConfig(c) && remaining > 0
    ensures |r| == |buf|
    decreases |buf|
  {
    if |buf| <= remaining then Piece(buf, decoded, loud)
    else Piece(buf[..remaining], decoded, loud) + Inputs(c, SamplesPerSubblock(c), buf[remaining..], decoded, loud)
  }

  /** Undecoded samples are the same stream however they are cut. */
  lemma {:induction false} UndecodedInputs(c: Config, remaining: nat, buf: seq<Sample>, loud: bool)
    requires ValidConfig(c) && remaining > 0
    ensures Inputs(c, remaining, buf, false, loud) == Heards(buf)
    decreases |buf|
  {
    if |buf| > remaining {
      UndecodedInputs(c, SamplesPerSubblock(c), buf[remaining..], loud);
      assert Heards(buf[..remaining]) + Heards(buf[remaining..]) == Heards(buf);
    }
  }

  lemma FirstPiece(c: Config, remaining: nat, buf: seq<Sample>, decoded: bool, loud: bool)
    requires ValidConfig(c) && 0 < remaining <= |buf|
    ensures Inputs(c, remaining, buf, decoded, loud)
         == Piece(buf[..remaining], decoded, loud) + Inputs(c, SamplesPerSubblock(c), buf[remaining..], decoded, loud)
  {
    if |buf| == remaining {
      assert buf[..remaining] == buf && buf[remaining..] == [];
      assert Piece([], decoded, loud) == [];
    }
  }

  /** A loud message counts once in every piece, and its samples are quiet. */
  lemma PieceOfMessage(buf: seq<Sample>, loud: bool)
    requires buf != []
    ensures MarkCount(Piece(buf, true, loud)) == if loud then 1 else 0
    ensures Louds(Piece(buf, true, loud)) == Louds(Skips(|buf|)) && HeardCount(Piece(buf, true, loud)) == 0
    ensures forall radix: seq<nat> :: |radix| == 65536 ==> Tally(radix, Piece(buf, true, loud)) == radix
  {
    var first, rest := [Skipped(loud)], Skips(|buf| - 1);
    NothingMarked(|buf| - 1);
    assert first[..0] == [];
    forall radix: seq<nat> | |radix| == 65536 ensures Tally(radix, first + rest) == radix
      ensures HeardCount(first + rest) == 0 && MarkCount(first + rest) == MarkCount(first)
    {
      TallyAppend(radix, first, rest);
      NothingHeard(radix, |buf| - 1);
    }
    NothingHeard(NoSamples(), |buf| - 1);
    TallyAppend(NoSamples(), first, rest);
  }

  lemma {:induction false} NothingMarked(n: nat)
    ensures MarkCount(Skips(n)) == 0
  {
    if n > 0 {
      assert Skips(n)[..n - 1] == Skips(n - 1);
      NothingMarked(n - 1);
    }
  }

  lemma {:induction false} HeardsUnmarked(buf: seq<Sample>)
    ensures MarkCount(Heards(buf)) == 0
    decreases |buf|
  {
    if buf != [] {
      assert Heards(buf)[..|buf| - 1] == Heards(buf[..|buf| - 1]);
      HeardsUnmarked(buf[..|buf| - 1]);
    }
  }

  lemma LoudCountNext(louds: seq<bool>, i: nat)
    requires i < |louds|
    ensures LoudCount(louds[..i + 1]) == LoudCount(louds[..i]) + if louds[i] then 1 else 0
  {
    assert louds[..i + 1][..i] == louds[..i];
  }

  lemma {:induction false} QuietCount(n: nat)
    ensures LoudCount(Louds(Skips(n))) == 0
  {
    if n > 0 {
      var l := Louds(Skips(n));
      assert l[..n - 1] == Louds(Skips(n - 1));
      QuietCount(n - 1);
    }
  }

  lemma FoldNext(b: Burst, louds: seq<bool>, i: nat, j: nat, size: nat)
    requires b.remaining > 0 && size > 0 && i <= j <= |louds|
    ensures Fold(b, louds[..j], size) == Fold(Fold(b, louds[..i], size), louds[i..j], size)
  {
    assert louds[..j] == louds[..i] + louds[i..j];
    FoldAppend(b, louds[..i], louds[i..j], size);
  }

  /** adaptive_burst_count_samples */
  method CountSamples(buf: seq<Sample>) returns (counter: nat)
    ensures counter == LoudCount(Louds(Heards(buf)))
  {
    hide LoudCount;
    ghost var louds := Louds(Heards(buf));
    counter := 0;
    assert LoudCount(louds[..0]) == 0 by { NoCount(); }
    for i := 0 to |buf|
      invariant counter == LoudCount(louds[..i])
    {
      LoudCountNext(louds, i);
      if buf[i] >= LOUD {
        counter := counter + 1;
      }
    }
    assert louds[..|buf|] == louds;
  }

  lemma NoCount()
    ensures LoudCount([]) == 0
  {
  }

  class Sampler {
    const c: Config
    var windowRemaining: nat
    var windowCounter: nat
    var runlength: nat
    var undecoded: nat
    ghost var windows: seq<bool>
    var loudDecoded: nat
    const radix: array<nat>
    var radixCounter: nat
    var samplesRemaining: nat
    var dutyCounter: nat
    var active: bool
    var subblocksRemaining: nat
    /** What the ends of blocks handed to the control update. */
    var reports: seq<Report>

    ghost function BurstView(): Burst
      reads `windowRemaining, `windowCounter, `runlength, `undecoded, `windows
    {
      Burst(windowRemaining, windowCounter, runlength, undecoded, windows)
    }

    ghost function View(): State
      reads this, radix
    {
      State(BurstView(), loudDecoded, radix[..], radixCounter,
        samplesRemaining, dutyCounter, active, subblocksRemaining, reports)
    }

    ghost predicate Valid()
      reads this, radix
    {
      ValidConfig(c) && radix.Length == 65536 && Shape(View())
    }

    /** adaptive_init */
    constructor (c: Config)
      requires ValidConfig(c)
      ensures Valid() && this.c == c && View() == Initial(c)
    {
      this.c := c;
      windowRemaining, windowCounter, runlength, undecoded, windows := c.window, 0, 0, 0, [];
      radix := new nat[65536](_ => 0);
      loudDecoded, radixCounter, samplesRemaining := 0, 0, c.window * WINDOWS_PER_SUBBLOCK;
      dutyCounter, active, subblocksRemaining, reports := 0, false, SUBBLOCKS_PER_BLOCK, [];
      new;
      assert radix[..] == NoSamples();
    }

    /** adaptive_burst_end_of_window */
    method BurstEndOfWindow(counter: nat)
      requires ValidConfig(c)
      modifies `runlength, `undecoded, `windows
      ensures BurstView() == EndOfWindow(old(BurstView()), counter, c.window)
    {
      if counter > c.window / 4 {
        runlength := runlength + 1;
        windows := windows + [true];
      } else {
        if runlength >= 2 && runlength <= 5 {
          undecoded := undecoded + 1;
        }
        runlength := 0;
        windows := windows + [false];
      }
    }

    /** adaptive_burst_skip: ignoring samples is hearing quiet ones. */
    method BurstSkip(len: nat)
      requires Valid()
      modifies `windowRemaining, `windowCounter, `runlength, `undecoded, `windows
      ensures BurstView() == if c.burst then Fold(old(BurstView()), Louds(Skips(len)), c.window) else old(BurstView())
    {
      hide Fold, LoudCount, Louds, Skips, EndOfWindow;
      if !c.burst {
        return;
      }
      ghost var quiet := Louds(Skips(len));
      ghost var b := BurstView();
      if len < windowRemaining {
        QuietCount(len);
        FoldPartial(b, quiet, c.window);
        windowRemaining := windowRemaining - len;
        return;
      }
      FirstWindow(b, quiet, c.window);
      QuietSlice(len, 0, windowRemaining);
      BurstEndOfWindow(windowCounter);
      var left := len - windowRemaining;
      var n := left / c.window;
      var samples := n * c.window;
      ghost var pos := windowRemaining;
      for i := 0 to n
        invariant pos == b.remaining + i * c.window <= len
        invariant unchanged(`windowRemaining) && unchanged(`windowCounter)
        invariant Progress(b, quiet, pos, BurstView(), c.window)
      {
        WindowFits(i, n, left, c.window);
        NextWindow(b, quiet, pos, BurstView(), c.window);
        QuietSlice(len, pos, pos + c.window);
        BurstEndOfWindow(0);
        pos := pos + c.window;
      }
      WindowsFit(n, left, c.window);
      left := left - samples;
      FinalPart(b, quiet, pos, BurstView(), c.window);
      QuietSlice(len, pos, len);
      windowCounter := 0;
      windowRemaining := c.window - left;
    }

    /** adaptive_burst_update */
    method BurstUpdate(buf: seq<Sample>)
      requires Valid()
      modifies `windowRemaining, `windowCounter, `runlength, `undecoded, `windows
      ensures BurstView() == if c.burst then Fold(old(BurstView()), Louds(Heards(buf)), c.window) else old(BurstView())
    {
      hide Fold, LoudCount, Louds, Heards, EndOfWindow;
      if !c.burst {
        return;
      }
      ghost var louds := Louds(Heards(buf));
      ghost var b := BurstView();
      if |buf| < windowRemaining {
        FoldPartial(b, louds, c.window);
        var more := CountSamples(buf);
        windowCounter := windowCounter + more;
        windowRemaining := windowRemaining - |buf|;
        return;
      }
      FirstWindow(b, louds, c.window);
      HeardSlice(buf, 0, windowRemaining);
      var first := CountSamples(buf[..windowRemaining]);
      BurstEndOfWindow(windowCounter + first);
      var left := |buf| - windowRemaining;
      var n := left / c.window;
      ghost var pos := windowRemaining;
      BurstScanWindows(buf, windowRemaining, n, b);
      WindowsFit(n, left, c.window);
      var start := windowRemaining + n * c.window;
      FinalPart(b, louds, start, BurstView(), c.window);
      HeardSlice(buf, start, |buf|);
      windowCounter := CountSamples(buf[start..]);
      windowRemaining := c.window - (|buf| - start);
    }

    /** adaptive_burst_scan_windows */
    method BurstScanWindows(buf: seq<Sample>, start: nat, n: nat, ghost b: Burst)
      requires ValidConfig(c) && b.remaining > 0 && start <= |buf| && n == (|buf| - start) / c.window
      requires Progress(b, Louds(Heards(buf)), start, BurstView(), c.window)
      modifies `runlength, `undecoded, `windows
      ensures start + n * c.window <= |buf|
      ensures Progress(b, Louds(Heards(buf)), start + n * c.window, BurstView(), c.window)
    {
      hide Fold, LoudCount, Louds, Heards, EndOfWindow;
      ghost var louds := Louds(Heards(buf));
      var pos := start;
      for i := 0 to n
        invariant pos == start + i * c.window <= |buf|
        invariant Progress(b, louds, pos, BurstView(), c.window)
      {
        WindowFits(i, n, |buf| - start, c.window);
        NextWindow(b, louds, pos, BurstView(), c.window);
        HeardSlice(buf, pos, pos + c.window);
        var counter := CountSamples(buf[pos..pos + c.window]);
        BurstEndOfWindow(counter);
        pos := pos + c.window;
      }
    }

    /** adaptive_range_update */
    method RangeUpdate(buf: seq<Sample>)
      requires Valid()
      modifies `radixCounter, radix
      ensures radix[..] == if c.range then Tally(old(radix[..]), Heards(buf)) else old(radix[..])
      ensures radixCounter == old(radixCounter) + if c.range then |buf| else 0
    {
      if !c.range {
        return;
      }
      radixCounter := radixCounter + |buf|;
      ghost var before, xs := radix[..], Heards(buf);
      for i := 0 to |buf|
        invariant radix[..] == Tally(before, xs[..i]) && radixCounter == old(radixCounter) + |buf|
      {
        assert xs[..i + 1][..i] == xs[..i];
        radix[buf[i]] := radix[buf[i]] + 1;
      }
      assert xs[..|buf|] == xs;
    }

    /** adaptive_update_subblock. `loud` says whether the decoded message reaches the threshold. */
    method UpdateSubblock(buf: seq<Sample>, decoded: bool, loud: bool)
      requires Valid() && active && buf != []
      modifies `windowRemaining, `windowCounter, `runlength, `undecoded, `windows, `loudDecoded, `radixCounter, radix
      ensures Valid() && View() == Measured(c, old(View()), Piece(buf, decoded, loud))
    {
      hide Fold, Tally, Louds, HeardCount, MarkCount;
      if decoded {
        PieceOfMessage(buf, loud);
        if loud {
          loudDecoded := loudDecoded + 1;
        }
        BurstSkip(|buf|);
      } else {
        EverythingHeard(buf);
        HeardsUnmarked(buf);
        BurstUpdate(buf);
        RangeUpdate(buf);
      }
    }

    /** adaptive_end_of_block, up to the control update, which gets the report. */
    method EndBlock()
      requires Valid()
      modifies this, radix
      ensures Valid() && View() == EndOfBlock(c, old(View()).(subblocksRemaining := 1))
    {
      reports := reports + [Report(undecoded, loudDecoded, radix[..], radixCounter)];
      if c.range {
        forall i | 0 <= i < 65536 {
          radix[i] := 0;
        }
        assert radix[..] == NoSamples();
        radixCounter := 0;
      }
      if c.burst {
        undecoded := 0;
        loudDecoded := 0;
      }
      subblocksRemaining := SUBBLOCKS_PER_BLOCK;
    }

    /** The end of the loop body of adaptive_update. */
    method EndSubblock()
      requires Valid()
      modifies this, radix
      ensures Valid() && View() == EndOfSubblock(c, old(View())) && samplesRemaining == SamplesPerSubblock(c)
    {
      hide EndOfWindow;
      samplesRemaining := c.window * WINDOWS_PER_SUBBLOCK;
      dutyCounter := dutyCounter + c.n;
      if dutyCounter >= SUBBLOCKS_PER_BLOCK {
        dutyCounter := dutyCounter - SUBBLOCKS_PER_BLOCK;
        active := true;
      } else {
        active := false;
        // EndOfWindow with count 0: the window log gets a quiet entry
        BurstEndOfWindow(0);
      }
      subblocksRemaining := subblocksRemaining - 1;
      if subblocksRemaining == 0 {
        LastSubblock();
      }
    }

    method LastSubblock()
      requires ValidConfig(c) && radix.Length == 65536 && subblocksRemaining == 0
      requires windowRemaining > 0 && samplesRemaining > 0
      modifies this, radix
      ensures Valid() && View() == EndOfBlock(c, old(View()).(subblocksRemaining := 1))
    {
      hide EndOfBlock;
      subblocksRemaining := SUBBLOCKS_PER_BLOCK;
      EndBlock();
    }

    /** adaptive_update: the state and the reports are those of the stream, for undecoded samples
        however it is cut into buffers. */
    method Update(buf: seq<Sample>, decoded: bool, loud: bool)
      requires Valid()
      modifies this, radix
      ensures Valid()
      ensures c.burst || c.range ==>
        View() == Run(c, old(View()), Inputs(c, old(samplesRemaining), buf, decoded, loud))
      ensures (c.burst || c.range) && !decoded ==> View() == Run(c, old(View()), Heards(buf))
      ensures !c.burst && !c.range ==> View() == old(View())
    {
      hide Run, Measured, EndOfSubblock, Inputs, Piece;
      if !c.burst && !c.range {
        return;
      }
      ghost var all, s := Inputs(c, samplesRemaining, buf, decoded, loud), View();
      if !decoded {
        UndecodedInputs(c, samplesRemaining, buf, loud);
      }
      var pos := 0;
      ghost var fed: seq<Input> := [];
      RunNothing(c, s);
      assert buf[0..] == buf;
      while |buf| - pos >= samplesRemaining
        invariant Valid() && pos <= |buf| && View() == Run(c, s, fed)
        invariant fed + Inputs(c, samplesRemaining, buf[pos..], decoded, loud) == all
        decreases |buf| - pos
      {
        ghost var now, rest := View(), buf[pos..];
        var next := pos + samplesRemaining;
        ghost var piece := Piece(buf[pos..next], decoded, loud);
        FirstPiece(c, samplesRemaining, rest, decoded, loud);
        assert rest[..samplesRemaining] == buf[pos..next] && rest[samplesRemaining..] == buf[next..];
        RunAppend(c, s, fed, piece);
        RunSubblock(c, now, piece);
        if active {
          UpdateSubblock(buf[pos..next], decoded, loud);
        }
        NotMeasured(c, now, piece);
        EndOfSubblockFrame(c, View(), 1);
        EndSubblock();
        assert fed + (piece + Inputs(c, samplesRemaining, buf[next..], decoded, loud))
            == (fed + piece) + Inputs(c, samplesRemaining, buf[next..], decoded, loud);
        fed := fed + piece;
        pos := next;
      }
      LastPiece(c, samplesRemaining, buf[pos..], decoded, loud);
      ghost var piece := Piece(buf[pos..], decoded, loud);
      RunAppend(c, s, fed, piece);
      RunPartial(c, View(), piece);
      if pos < |buf| {
        NotMeasured(c, View(), piece);
        if active {
          UpdateSubblock(buf[pos..], decoded, loud);
        }
        samplesRemaining := samplesRemaining - (|buf| - pos);
      } else {
        assert piece == [];
        MeasuredNothing(c, View());
      }
    }
  }

  lemma LastPiece(c: Config, remaining: nat, buf: seq<Sample>, decoded: bool, loud: bool)
    requires ValidConfig(c) && |buf| < remaining
    ensures Inputs(c, remaining, buf, decoded, loud) == Piece(buf, decoded, loud)
  {
  }

  lemma RunNothing(c: Config, s: State)
    requires ValidConfig(c) && Shape(s)
    ensures Run(c, s, []) == s
  {
  }

  lemma NotMeasured(c: Config, s: State, xs: seq<Input>)
    requires ValidConfig(c) && Shape(s)
    ensures !s.active ==> Measured(c, s, xs) == s
  {
  }

  lemma {:induction false} NothingHeard(radix: seq<nat>, n: nat)
    requires |radix| == 65536
    ensures Tally(radix, Skips(n)) == radix && HeardCount(Skips(n)) == 0
  {
    if n > 0 {
      assert Skips(n)[..n - 1] == Skips(n - 1);
      NothingHeard(radix, n - 1);
    }
  }

  lemma {:induction false} EverythingHeard(buf: seq<Sample>)
    ensures HeardCount(Heards(buf)) == |buf|
    decreases |buf|
  {
    if buf != [] {
      assert Heards(buf)[..|buf| - 1] == Heards(buf[..|buf| - 1]);
      EverythingHeard(buf[..|buf| - 1]);
    }
  }

  /** Whole windows have been dispatched up to position pos. */
  ghost predicate Progress(b: Burst, louds: seq<bool>, pos: nat, now: Burst, size: nat)
    requires b.remaining > 0 && size > 0
  {
    pos <= |louds| && Fold(b, louds[..pos], size) == now.(remaining := size, counter := 0)
  }

  lemma FirstWindow(b: Burst, louds: seq<bool>, size: nat)
    requires 0 < b.remaining <= |louds| && size > 0
    ensures Progress(b, louds, b.remaining, EndOfWindow(b, b.counter + LoudCount(louds[..b.remaining]), size), size)
    ensures louds[..b.remaining] == louds[0..b.remaining]
  {
    hide Fold;
    FoldWindow(b, louds[..b.remaining], size);
  }

  lemma NextWindow(b: Burst, louds: seq<bool>, pos: nat, now: Burst, size: nat)
    requires b.remaining > 0 && size > 0 && pos + size <= |louds| && Progress(b, louds, pos, now, size)
    ensures Progress(b, louds, pos + size, EndOfWindow(now, LoudCount(louds[pos..pos + size]), size), size)
  {
    hide Fold;
    FoldNext(b, louds, pos, pos + size, size);
    FoldWindow(now.(remaining := size, counter := 0), louds[pos..pos + size], size);
  }

  lemma FinalPart(b: Burst, louds: seq<bool>, pos: nat, now: Burst, size: nat)
    requires b.remaining > 0 && size > 0 && |louds| - pos < size && Progress(b, louds, pos, now, size)
    ensures Fold(b, louds, size) == now.(remaining := size - (|louds| - pos), counter := LoudCount(louds[pos..|louds|]))
  {
    hide Fold;
    FoldNext(b, louds, pos, |louds|, size);
    FoldPartial(now.(remaining := size, counter := 0), louds[pos..|louds|], size);
    assert louds[..|louds|] == louds;
  }

  lemma WindowFits(i: nat, n: nat, left: nat, size: nat)
    requires size > 0 && i < n == left / size
    ensures i * size + size == (i + 1) * size <= left
  {
    WindowsFit(n, left, size);
    Monotone(i + 1, n, size);
  }

  lemma Monotone(a: nat, b: nat, size: nat)
    requires a <= b
    ensures a * size <= b * size
  {
    assert (b - a) * size >= 0;
  }

  lemma WindowsFit(n: nat, left: nat, size: nat)
    requires size > 0 && n == left / size
    ensures n * size <= left < n * size + size
  {
    assert left == size * n + left % size;
  }

  lemma QuietSlice(n: nat, i: nat, j: nat)
    requires i <= j <= n
    ensures LoudCount(Louds(Skips(n))[i..j]) == 0
  {
    assert Louds(Skips(n))[i..j] == Louds(Skips(j - i));
    QuietCount(j - i);
  }

  lemma HeardSlice(buf: seq<Sample>, i: nat, j: nat)
    requires i <= j <= |buf|
    ensures Louds(Heards(buf))[i..j] == Louds(Heards(buf[i..j]))
    ensures buf[0..j] == buf[..j] && buf[i..|buf|] == buf[i..]
  {
  }
}
