/** The sample stream that passes through the FIFO (fifo.c), without buffers: every block of new
    samples is delivered together with the samples before it. */
module FifoStream {
  type Sample = bv16

  /** What one fifo_enqueue adds. A discontinuous block does not continue the one before it. */
  datatype Block = Block(discontinuous: bool, samples: seq<Sample>)

  function Zeros(n: nat): seq<Sample> {
    seq(n, _ => 0)
  }

  /** The samples since the last discontinuity, after `overlap` zeros. */
  function History(log: seq<Block>, overlap: nat): (h: seq<Sample>)
    ensures |h| >= overlap
    decreases |log|, 0
  {
    if log == [] then Zeros(overlap)
    else
      var last := log[|log| - 1];
      Before(log, |log| - 1, overlap) + last.samples
  }

  /** The history that block k continues. */
  function Before(log: seq<Block>, k: nat, overlap: nat): (h: seq<Sample>)
    requires k < |log|
    ensures |h| >= overlap
    decreases k, 1
  {
    if log[k].discontinuous then Zeros(overlap) else History(log[..k], overlap)
  }

  function Last(s: seq<Sample>, n: nat): (r: seq<Sample>)
    requires n <= |s|
    ensures |r| == n
  {
    s[|s| - n..]
  }

  /** What the consumer must find in the k-th buffer: the block and the overlap before it. */
  function Expected(log: seq<Block>, k: nat, overlap: nat): seq<Sample>
    requires k < |log|
  {
    HistoryGrows(log, k, overlap);
    Last(History(log[..k + 1], overlap), overlap + |log[k].samples|)
  }

  lemma HistoryGrows(log: seq<Block>, k: nat, overlap: nat)
    requires k < |log|
    ensures History(log[..k + 1], overlap) == Before(log, k, overlap) + log[k].samples
  {
    var prefix := log[..k + 1];
    assert prefix[..k] == log[..k] && prefix[k] == log[k];
  }

  /** A buffer is filled in two parts: the overlap is copied in, the new samples are there. */
  lemma ExpectedSplits(log: seq<Block>, k: nat, overlap: nat)
    requires k < |log|
    ensures Expected(log, k, overlap) == Last(Before(log, k, overlap), overlap) + log[k].samples
  {
    hide History, Before;
    HistoryGrows(log, k, overlap);
  }

  lemma BeforeLast(log: seq<Block>, b: Block, overlap: nat)
    ensures Before(log + [b], |log|, overlap) == if b.discontinuous then Zeros(overlap) else History(log, overlap)
  {
    assert (log + [b])[..|log|] == log;
  }

  /** A buffer that held d holds what is expected once the overlap is copied in. */
  lemma FilledAsExpected(log: seq<Block>, b: Block, overlap: nat, saved: seq<Sample>,
                         d: seq<Sample>, filled: seq<Sample>, n: nat)
    requires overlap <= n <= |d| && b.samples == d[overlap..n]
    requires saved == Last(History(log, overlap), overlap)
    requires filled == (if b.discontinuous then Zeros(overlap) else saved) + d[overlap..]
    ensures filled[..n] == Expected(log + [b], |log|, overlap)
  {
    hide History, Before;
    BeforeLast(log, b, overlap);
    ExpectedSplits(log + [b], |log|, overlap);
  }

  /** The end of a buffer is the overlap for the next one, even if the buffer has fewer new
      samples than the overlap is long. */
  lemma TailCarriesOver(log: seq<Block>, overlap: nat)
    requires log != []
    ensures |Expected(log, |log| - 1, overlap)| >= overlap
    ensures Last(History(log, overlap), overlap) == Last(Expected(log, |log| - 1, overlap), overlap)
  {
    hide History, Before;
    HistoryGrows(log, |log| - 1, overlap);
    assert log[..|log|] == log;
  }

  /** Later blocks do not change what an earlier buffer must hold. */
  lemma ExpectedStays(log: seq<Block>, b: Block, k: nat, overlap: nat)
    requires k < |log|
    ensures Expected(log + [b], k, overlap) == Expected(log, k, overlap)
  {
    hide History;
    assert (log + [b])[..k + 1] == log[..k + 1];
  }

  /** All samples of a run of blocks. */
  function Samples(log: seq<Block>): seq<Sample> {
    if log == [] then [] else Samples(log[..|log| - 1]) + log[|log| - 1].samples
  }

  lemma LastBlock(log: seq<Block>, overlap: nat)
    requires log != []
    ensures var init, last := log[..|log| - 1], log[|log| - 1];
      && Samples(log) == Samples(init) + last.samples
      && History(log, overlap) == (if last.discontinuous then Zeros(overlap) else History(init, overlap)) + last.samples
  {
  }

  /** Without a discontinuity the history is the overlap zeros followed by every sample that
      was ever enqueued. */
  lemma {:induction false} ContinuousHistory(log: seq<Block>, overlap: nat)
    requires forall b :: b in log ==> !b.discontinuous
    ensures History(log, overlap) == Zeros(overlap) + Samples(log)
    decreases |log|
  {
    if log != [] {
      hide History, Samples;
      var init, last := log[..|log| - 1], log[|log| - 1];
      ContinuousHistory(init, overlap);
      LastBlock(log, overlap);
      assert (Zeros(overlap) + Samples(init)) + last.samples == Zeros(overlap) + (Samples(init) + last.samples);
    } else {
      assert Zeros(overlap) + [] == Zeros(overlap);
    }
  }

  /** A discontinuity at block j restarts it with zeros. */
  lemma {:induction false} RestartedHistory(log: seq<Block>, j: nat, overlap: nat)
    requires j < |log| && log[j].discontinuous
    requires forall k :: j < k < |log| ==> !log[k].discontinuous
    ensures History(log, overlap) == Zeros(overlap) + Samples(log[j..])
    decreases |log|
  {
    var init := log[..|log| - 1];
    assert log[j..][..|log| - 1 - j] == init[j..];
    if j < |log| - 1 {
      RestartedHistory(init, j, overlap);
    } else {
      assert Samples(init[j..]) == [];
    }
  }

  /** The consumer's view of a run without discontinuities: buffer k holds the last
      overlap + |block k| samples of the zeros and everything enqueued up to it. */
  lemma ContinuousBuffer(log: seq<Block>, k: nat, overlap: nat)
    requires k < |log| && forall b :: b in log[..k + 1] ==> !b.discontinuous
    ensures overlap + |log[k].samples| <= overlap + |Samples(log[..k + 1])|
    ensures Expected(log, k, overlap) == Last(Zeros(overlap) + Samples(log[..k + 1]), overlap + |log[k].samples|)
  {
    hide History;
    ContinuousHistory(log[..k + 1], overlap);
    assert log[..k + 1][k] == log[k];
  }
}
