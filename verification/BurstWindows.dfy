/** Burst measurement of the adaptive gain control (adaptive.c): windows of samples, runs of loud
    windows, and the bursts counted from them. */
module BurstWindows {
  /** A sample magnitude. */
  type Sample = x: int | 0 <= x < 65536

  const LOUD: int := 46395  // -3dBFS

  function Loud(x: Sample): bool {
    x >= LOUD
  }

  /** How many of the samples are loud. */
  function LoudCount(louds: seq<bool>): (n: nat)
    ensures n <= |louds|
  {
    if louds == [] then 0
    else LoudCount(louds[..|louds| - 1]) + if louds[|louds| - 1] then 1 else 0
  }

  /** The state of the measurement. `windows` lists, for every window that has ended, whether it
      was loud; it includes the quiet windows that are faked to end a run. */
  datatype Burst = Burst(remaining: nat, counter: nat, runlength: nat, undecoded: nat, windows: seq<bool>)

  predicate IsLoudWindow(counter: nat, size: nat) {
    counter > size / 4
  }

  /** A window is loud exactly if more than a quarter of its samples are. */
  lemma QuarterExactly(counter: nat, size: nat)
    ensures IsLoudWindow(counter, size) <==> 4 * counter > size
  {
  }

  function Squared(x: nat): nat {
    x * x
  }

  /** x^20 */
  function Twentieth(x: nat): nat {
    Squared(Squared(Squared(Squared(x)))) * Squared(Squared(x))
  }

  lemma ProductGrows(a: nat, b: nat, a': nat, b': nat)
    requires a <= a' && b <= b'
    ensures a * b <= a' * b'
  {
    assert a * b <= a' * b;
    assert a' * b <= a' * b';
  }

  lemma TwentiethGrows(x: nat, y: nat)
    requires x <= y
    ensures Twentieth(x) <= Twentieth(y)
  {
    ProductGrows(x, x, y, y);
    ProductGrows(Squared(x), Squared(x), Squared(y), Squared(y));
    var s, t := Squared(Squared(x)), Squared(Squared(y));
    ProductGrows(s, s, t, t);
    ProductGrows(Squared(s), Squared(s), Squared(t), Squared(t));
    ProductGrows(Squared(Squared(s)), s, Squared(Squared(t)), t);
  }

  lemma ThresholdPowers()
    ensures 1000 * Twentieth(46395) <= Twentieth(65535) < 1000 * Twentieth(46396)
  {
  }

  /** A sample is loud exactly if it reaches -3 dB of full scale, whose twentieth power is a thousandth
      of that of full scale, rounded down to a whole number. */
  lemma LoudExactly(x: Sample)
    ensures Loud(x) <==> 1000 * Twentieth(x + 1) > Twentieth(65535)
  {
    hide Twentieth;
    ThresholdPowers();
    if Loud(x) {
      TwentiethGrows(46396, x + 1);
    } else {
      TwentiethGrows(x + 1, 46395);
    }
  }

  /** adaptive_burst_end_of_window */
  function EndOfWindow(b: Burst, counter: nat, size: nat): Burst {
    if IsLoudWindow(counter, size) then b.(runlength := b.runlength + 1, windows := b.windows + [true])
    else b.(runlength := 0,
            undecoded := b.undecoded + (if 2 <= b.runlength <= 5 then 1 else 0),
            windows := b.windows + [false])
  }

  /** One sample. */
  function Feed(b: Burst, loud: bool, size: nat): Burst
    requires b.remaining > 0
  {
    var counter := b.counter + if loud then 1 else 0;
    if b.remaining > 1 then b.(remaining := b.remaining - 1, counter := counter)
    else EndOfWindow(b, counter, size).(remaining := size, counter := 0)
  }

  /** Any number of samples. */
  function Fold(b: Burst, louds: seq<bool>, size: nat): (r: Burst)
    requires b.remaining > 0 && size > 0
    ensures r.remaining > 0
  {
    if louds == [] then b else Feed(Fold(b, louds[..|louds| - 1], size), louds[|louds| - 1], size)
  }

  lemma {:induction false} FoldAppend(b: Burst, x: seq<bool>, y: seq<bool>, size: nat)
    requires b.remaining > 0 && size > 0
    ensures Fold(b, x + y, size) == Fold(Fold(b, x, size), y, size)
    decreases |y|
  {
    if y == [] {
      assert x + y == x;
    } else {
      assert (x + y)[..|x + y| - 1] == x + y[..|y| - 1];
      FoldAppend(b, x, y[..|y| - 1], size);
    }
  }

  /** Samples that do not fill the current window. */
  lemma {:induction false} FoldPartial(b: Burst, louds: seq<bool>, size: nat)
    requires |louds| < b.remaining && size > 0
    ensures Fold(b, louds, size) == b.(remaining := b.remaining - |louds|, counter := b.counter + LoudCount(louds))
  {
    if louds != [] {
      FoldPartial(b, louds[..|louds| - 1], size);
    }
  }

  /** Samples that exactly fill the current window. */
  lemma FoldWindow(b: Burst, louds: seq<bool>, size: nat)
    requires |louds| == b.remaining > 0 && size > 0
    ensures Fold(b, louds, size) == EndOfWindow(b, b.counter + LoudCount(louds), size).(remaining := size, counter := 0)
  {
    FoldPartial(b, louds[..|louds| - 1], size);
  }

  /** Whole windows: each is loud exactly if more than a quarter of its samples are. */
  function WindowsOf(louds: seq<bool>, size: nat): seq<bool>
    requires size > 0
    decreases |louds|
  {
    if |louds| < size then []
    else [IsLoudWindow(LoudCount(louds[..size]), size)] + WindowsOf(louds[size..], size)
  }

  lemma {:induction false} FoldWindows(b: Burst, louds: seq<bool>, size: nat, n: nat)
    requires size > 0 && b.remaining == size && b.counter == 0 && |louds| == n * size
    ensures var r := Fold(b, louds, size);
      r.remaining == size && r.counter == 0 && r.windows == b.windows + WindowsOf(louds, size)
    ensures |WindowsOf(louds, size)| == n
    decreases n
  {
    if n == 0 {
    } else {
      assert n * size == size + (n - 1) * size;
      assert (n - 1) * size >= 0;
      assert louds == louds[..size] + louds[size..];
      FoldAppend(b, louds[..size], louds[size..], size);
      FoldWindow(b, louds[..size], size);
      FoldWindows(Fold(b, louds[..size], size), louds[size..], size, n - 1);
    }
  }

  // ---- Runs of loud windows -----------------------------------------------------------------

  /** Windows i, .., j - 1 are a maximal run of loud windows that window j ends. */
  predicate IsLoudRun(w: seq<bool>, i: nat, j: nat) {
    && i < j < |w| && !w[j] && (forall k :: i <= k < j ==> w[k])
    && (i > 0 ==> !w[i - 1])
  }

  /** Window j ends a run of 2 to 5 loud windows. */
  predicate EndsBurst(w: seq<bool>, j: nat) {
    exists i :: 0 <= i < j && IsLoudRun(w, i, j) && 2 <= j - i <= 5
  }

  /** How many of the first n windows end such a run. */
  function Bursts(w: seq<bool>, n: nat): nat
    requires n <= |w|
  {
    if n == 0 then 0 else Bursts(w, n - 1) + if EndsBurst(w, n - 1) then 1 else 0
  }

  /** The length of the run of loud windows at the end. */
  function Tail(w: seq<bool>): (n: nat)
    ensures n <= |w|
  {
    if w == [] || !w[|w| - 1] then 0 else Tail(w[..|w| - 1]) + 1
  }

  lemma {:induction false} TailIsMaximal(w: seq<bool>)
    ensures forall k :: |w| - Tail(w) <= k < |w| ==> w[k]
    ensures |w| > Tail(w) ==> !w[|w| - Tail(w) - 1]
  {
    if w != [] && w[|w| - 1] {
      TailIsMaximal(w[..|w| - 1]);
    }
  }

  lemma EndsBurstStays(w: seq<bool>, v: seq<bool>, j: nat)
    requires j < |w|
    ensures EndsBurst(w + v, j) <==> EndsBurst(w, j)
  {
    assert forall k :: 0 <= k < |w| ==> (w + v)[k] == w[k];
    if EndsBurst(w + v, j) {
      var i :| 0 <= i < j && IsLoudRun(w + v, i, j) && 2 <= j - i <= 5;
      assert IsLoudRun(w, i, j);
    }
    if EndsBurst(w, j) {
      var i :| 0 <= i < j && IsLoudRun(w, i, j) && 2 <= j - i <= 5;
      assert IsLoudRun(w + v, i, j);
    }
  }

  lemma {:induction false} BurstsStay(w: seq<bool>, v: seq<bool>, n: nat)
    requires n <= |w|
    ensures Bursts(w + v, n) == Bursts(w, n)
  {
    if n > 0 {
      BurstsStay(w, v, n - 1);
      EndsBurstStays(w, v, n - 1);
    }
  }

  /** A window ends a burst exactly if it is quiet and the run before it has the right length. */
  lemma EndsBurstAfterTail(w: seq<bool>, loud: bool)
    ensures EndsBurst(w + [loud], |w|) <==> !loud && 2 <= Tail(w) <= 5
  {
    var v, n := w + [loud], |w|;
    TailIsMaximal(w);
    var t := Tail(w);
    if !loud && t > 0 {
      assert IsLoudRun(v, n - t, n);
    }
    if EndsBurst(v, n) {
      var i :| 0 <= i < n && IsLoudRun(v, i, n) && 2 <= n - i <= 5;
      assert forall k :: 0 <= k < n ==> v[k] == w[k];
      assert n - i == t;
    }
  }

  /** What the counters mean. `reported` were counted in blocks that have ended. */
  ghost predicate Counts(b: Burst, reported: nat) {
    b.runlength == Tail(b.windows) && reported + b.undecoded == Bursts(b.windows, |b.windows|)
  }

  lemma EndOfWindowCounts(b: Burst, counter: nat, size: nat, reported: nat)
    requires Counts(b, reported)
    ensures Counts(EndOfWindow(b, counter, size), reported)
  {
    hide EndsBurst;
    var loud := IsLoudWindow(counter, size);
    var w := b.windows + [loud];
    assert w[..|w| - 1] == b.windows;
    BurstsStay(b.windows, [loud], |b.windows|);
    EndsBurstAfterTail(b.windows, loud);
  }

  /** The number of bursts is the number of maximal runs of 2 to 5 loud windows that ended. */
  lemma {:induction false} FoldCounts(b: Burst, louds: seq<bool>, size: nat, reported: nat)
    requires b.remaining > 0 && size > 0 && Counts(b, reported)
    ensures Counts(Fold(b, louds, size), reported)
  {
    hide Counts;
    if louds != [] {
      var before := Fold(b, louds[..|louds| - 1], size);
      FoldCounts(b, louds[..|louds| - 1], size, reported);
      FeedCounts(before, louds[|louds| - 1], size, reported);
    }
  }

  lemma FeedCounts(b: Burst, loud: bool, size: nat, reported: nat)
    requires b.remaining > 0 && Counts(b, reported)
    ensures Counts(Feed(b, loud, size), reported)
  {
    EndOfWindowCounts(b, b.counter + if loud then 1 else 0, size, reported);
  }
}
