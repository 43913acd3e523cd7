/** What the correlation functions of the slicer are for: a clean signal is read as the message that
    was sent. Time is measured in fifths of a sample. */
module CleanSignal {
  import opened Bits
  import opened Slicer

  /** 1 in the first symbol of a bit that starts at `phase`, -1 in the second, 0 outside the bit. */
  function Symbol(phase: nat, x: nat): int {
    if phase <= x < phase + 6 then 1 else if phase + 6 <= x < phase + 12 then -1 else 0
  }

  /** How many fifths of sample i lie in the first symbol, minus how many lie in the second. */
  function Weight(phase: nat, i: nat): int {
    var x := 5 * i;
    Symbol(phase, x) + Symbol(phase, x + 1) + Symbol(phase, x + 2) + Symbol(phase, x + 3) + Symbol(phase, x + 4)
  }

  lemma Weights0()
    ensures Weight(0, 0) == 5 && Weight(0, 1) == -3 && Weight(0, 2) == -2 && Weight(0, 3) == 0
  {
  }

  lemma Weights1()
    ensures Weight(1, 0) == 4 && Weight(1, 1) == -1 && Weight(1, 2) == -3 && Weight(1, 3) == 0
  {
  }

  lemma Weights2()
    ensures Weight(2, 0) == 3 && Weight(2, 1) == 1 && Weight(2, 2) == -4 && Weight(2, 3) == 0
  {
  }

  lemma Weights3()
    ensures Weight(3, 0) == 2 && Weight(3, 1) == 3 && Weight(3, 2) == -5 && Weight(3, 3) == 0
  {
  }

  lemma Weights4()
    ensures Weight(4, 0) == 1 && Weight(4, 1) == 5 && Weight(4, 2) == -5 && Weight(4, 3) == -1
  {
  }

  lemma NoFurtherWeight(phase: nat, i: nat)
    requires phase < 5 && i >= 3 && (i == 3 ==> phase < 4)
    ensures Weight(phase, i) == 0
  {
  }

  /** The weighted sum of the samples from p on. */
  function Matched(phase: nat, m: seq<int>, p: nat): int
    requires phase < 5 && p + 3 <= |m| && (phase == 4 ==> p + 4 <= |m|)
  {
    Weight(phase, 0) * m[p] + Weight(phase, 1) * m[p + 1] + Weight(phase, 2) * m[p + 2]
    + if phase == 4 then Weight(phase, 3) * m[p + 3] else 0
  }

  /** Each correlation function weights the samples with their shares of the two symbols, and no
      other sample has a share in them. */
  lemma CorrelationIsMatched(phase: nat, m: seq<int>, p: nat)
    requires phase < 5 && p + 3 <= |m| && (phase == 4 ==> p + 4 <= |m|)
    ensures Correlation(phase, m, p) == Matched(phase, m, p)
    ensures forall i: nat :: i >= 3 && Weight(phase, i) != 0 ==> i == 3 && phase == 4
  {
    hide Weight;
    forall i: nat | i >= 3 && Weight(phase, i) != 0 ensures i == 3 && phase == 4 {
      if i > 3 || phase < 4 {
        NoFurtherWeight(phase, i);
      }
    }
    Weights0();
    Weights1();
    Weights2();
    Weights3();
    Weights4();
    if phase == 0 {
    } else if phase == 1 {
    } else if phase == 2 {
    } else if phase == 3 {
    } else {
      assert phase == 4;
    }
  }

  // ---- Pulses -----------------------------------------------------------------------------------------

  /** The transmitter is on or off in every fifth of a sample. */
  type Pulses = seq<bool>

  function On(pulses: Pulses, x: nat): int
    requires x < |pulses|
  {
    if pulses[x] then 1 else 0
  }

  /** How long the transmitter is on during sample k. */
  function OnTime(pulses: Pulses, k: nat): int
    requires 5 * k + 5 <= |pulses|
  {
    var x := 5 * k;
    On(pulses, x) + On(pulses, x + 1) + On(pulses, x + 2) + On(pulses, x + 3) + On(pulses, x + 4)
  }

  /** The samples are what a receiver without noise makes of the pulses. */
  predicate Sampled(m: seq<int>, pulses: Pulses, amplitude: int, offset: int) {
    && |pulses| == 5 * |m| && amplitude > 0
    && forall k :: 0 <= k < |m| ==> m[k] == offset + amplitude * OnTime(pulses, k)
  }

  /** A bit is sent at time x: on in its first half for a one, in its second half for a zero. */
  predicate BitSent(pulses: Pulses, x: nat, bit: bool)
    requires x + 12 <= |pulses|
  {
    && (forall i :: x <= i < x + 6 ==> pulses[i] == bit)
    && (forall i :: x + 6 <= i < x + 12 ==> pulses[i] == !bit)
  }

  lemma Scaled(phase: nat, m: seq<int>, on: seq<int>, p: nat, amplitude: int, offset: int)
    requires phase < 5 && p + 3 <= |m| == |on| && (phase == 4 ==> p + 4 <= |m|)
    requires forall k :: 0 <= k < |m| ==> m[k] == offset + amplitude * on[k]
    ensures Correlation(phase, m, p) == amplitude * Correlation(phase, on, p)
  {
  }

  /** Whatever is sent before and after it, a bit is correlated as what it is. */
  lemma CleanBit(pulses: Pulses, on: seq<int>, p: nat, phase: nat, bit: bool)
    requires phase < 5 && p + 3 <= |on| && (phase == 4 ==> p + 4 <= |on|) && |pulses| == 5 * |on|
    requires forall k :: 0 <= k < |on| ==> on[k] == OnTime(pulses, k)
    requires BitSent(pulses, 5 * p + phase, bit)
    ensures if bit then Correlation(phase, on, p) > 0 else Correlation(phase, on, p) < 0
  {
  }

  /** Bit b of a message that starts at phase t is read as it was sent. */
  lemma CleanBitIsRead(m: seq<int>, pulses: Pulses, amplitude: int, offset: int, start: nat, t: nat, b: nat, bit: bool)
    requires Sampled(m, pulses, amplitude, offset) && start + LastRead(t, b) < |m|
    requires BitSent(pulses, 5 * start + t + 12 * b, bit)
    ensures BitAt(m, start, t, b) == bit
  {
    hide Correlation, OnTime, BitSent;
    var on := seq(|m|, k requires 0 <= k < |m| && 5 * k + 5 <= |pulses| => OnTime(pulses, k));
    var p, phase := start + SampleOf(t, b), PhaseOf(t, b);
    assert 5 * start + t + 12 * b == 5 * p + phase;
    CleanBit(pulses, on, p, phase, bit);
    Scaled(phase, m, on, p, amplitude, offset);
    SignOfProduct(amplitude, Correlation(phase, on, p));
  }

  lemma SignOfProduct(a: int, c: int)
    requires a > 0
    ensures a * c > 0 <==> c > 0
  {
  }

  /** A message whose preamble starts at sample j is sent t fifths of a sample later than at once. */
  ghost predicate MessageSent(pulses: Pulses, j: nat, t: nat, msg: seq<bv8>) {
    && |msg| == LONG_BYTES && 5 * (j + 19) + t + 12 * 112 <= |pulses|
    && forall b :: 0 <= b < 112 ==> BitSent(pulses, 5 * (j + 19) + t + 12 * b, Bit(msg, b))
  }

  /** A clean long message is sliced into exactly its bytes at the phase at which it was sent,
      whatever precedes and follows it. */
  lemma CleanMessageIsRead(m: seq<int>, pulses: Pulses, amplitude: int, offset: int, j: nat, t: nat, msg: seq<bv8>)
    requires Enough(m, j) && 4 <= t <= 8
    requires Sampled(m, pulses, amplitude, offset) && MessageSent(pulses, j, t, msg)
    ensures Message(m, j, t) == msg
  {
    hide Message, Bit, BitSent, BitAt, LastRead, Sampled;
    forall b | 0 <= b < 8 * |msg| ensures Bit(Message(m, j, t), b) == Bit(msg, b) {
      MessageBits(m, j, t, b);
      CleanBitIsRead(m, pulses, amplitude, offset, j + 19, t, b, Bit(msg, b));
    }
    MessageExtensionality(Message(m, j, t), msg);
  }
}
