/** The bit slicer for 2.4 MHz samples (demod_2400.c): 6 samples per 5 symbols. */
module Slicer {
  import opened Bits
  import opened Bytes

  const LONG_BYTES: nat := 14

  // ---- One formula --------------------------------------------------------------------------

  /** The correlation functions slice_phase0 .. slice_phase4, at sample p. */
  function Correlation(phase: nat, m: seq<int>, p: nat): int
    requires phase < 5 && p + 3 <= |m| && (phase == 4 ==> p + 4 <= |m|)
  {
    match phase
    case 0 => 5 * m[p] - 3 * m[p + 1] - 2 * m[p + 2]
    case 1 => 4 * m[p] - m[p + 1] - 3 * m[p + 2]
    case 2 => 3 * m[p] + m[p + 1] - 4 * m[p + 2]
    case 3 => 2 * m[p] + 3 * m[p + 1] - 5 * m[p + 2]
    case 4 => m[p] + 5 * m[p + 1] - 5 * m[p + 2] - m[p + 3]
  }

  /** A constant offset of the samples does not matter. */
  lemma OffsetIsIgnored(phase: nat, m: seq<int>, m': seq<int>, p: nat, offset: int)
    requires phase < 5 && p + 4 <= |m| == |m'|
    requires forall k :: 0 <= k < |m| ==> m'[k] == m[k] + offset
    ensures Correlation(phase, m', p) == Correlation(phase, m, p)
  {
  }

  /** Bit b of a message that starts at phase t (in fifths of a sample): every bit is two symbols
      of 6 fifths each. */
  function SampleOf(t: nat, b: nat): nat {
    (t + 12 * b) / 5
  }

  function PhaseOf(t: nat, b: nat): nat {
    (t + 12 * b) % 5
  }

  /** The last sample the slicer reads for bit b. */
  function LastRead(t: nat, b: nat): nat {
    SampleOf(t, b) + if PhaseOf(t, b) == 4 then 3 else 2
  }

  /** Bit b of the message whose data starts at sample `start`, by the formula. */
  predicate BitAt(m: seq<int>, start: nat, t: nat, b: nat)
    requires start + LastRead(t, b) < |m|
  {
    Correlation(PhaseOf(t, b), m, start + SampleOf(t, b)) > 0
  }

  /** The farthest read is 270 samples after the start of the data. */
  lemma ReadsStayClose(t: nat, b: nat)
    requires 4 <= t <= 8 && b < 112
    ensures LastRead(t, b) <= 270
  {
  }

  /** The slicer reads valid samples for bit b at phase t of a message whose preamble starts at
      sample j. */
  predicate ReadFits(j: nat, t: nat, b: nat, validLength: nat) {
    j + 19 + LastRead(t, b) < validLength
  }

  /** All reads stay within the valid samples, for every start before the overlap, exactly if the
      overlap is what demodulate2400 asserts. */
  lemma OverlapSuffices(validLength: nat, overlap: nat)
    requires overlap < validLength
    ensures overlap >= 19 + 1 + 269 <==>
      forall j: nat, t: nat, b: nat ::
        j < validLength - overlap && 4 <= t <= 8 && b < 112 ==> ReadFits(j, t, b, validLength)
  {
    hide LastRead;
    if overlap >= 19 + 1 + 269 {
      forall j: nat, t: nat, b: nat | j < validLength - overlap && 4 <= t <= 8 && b < 112
        ensures ReadFits(j, t, b, validLength)
      {
        ReadsStayClose(t, b);
      }
    } else {
      FarthestRead();
      assert !ReadFits(validLength - overlap - 1, 7, 111, validLength);
    }
  }

  lemma FarthestRead()
    ensures LastRead(7, 111) == 270
  {
  }

  // ---- The unrolled code ----------------------------------------------------------------------

  /** One round of the switch: the byte at pPtr. */
  function SlicedByte(phase: nat, m: seq<int>, p: nat): bv8
    requires phase < 5 && p + 20 <= |m|
  {
    match phase
    case 0 =>
      Assemble(Correlation(0, m, p) > 0, Correlation(2, m, p + 2) > 0, Correlation(4, m, p + 4) > 0,
               Correlation(1, m, p + 7) > 0, Correlation(3, m, p + 9) > 0, Correlation(0, m, p + 12) > 0,
               Correlation(2, m, p + 14) > 0, Correlation(4, m, p + 16) > 0)
    case 1 =>
      Assemble(Correlation(1, m, p) > 0, Correlation(3, m, p + 2) > 0, Correlation(0, m, p + 5) > 0,
               Correlation(2, m, p + 7) > 0, Correlation(4, m, p + 9) > 0, Correlation(1, m, p + 12) > 0,
               Correlation(3, m, p + 14) > 0, Correlation(0, m, p + 17) > 0)
    case 2 =>
      Assemble(Correlation(2, m, p) > 0, Correlation(4, m, p + 2) > 0, Correlation(1, m, p + 5) > 0,
               Correlation(3, m, p + 7) > 0, Correlation(0, m, p + 10) > 0, Correlation(2, m, p + 12) > 0,
               Correlation(4, m, p + 14) > 0, Correlation(1, m, p + 17) > 0)
    case 3 =>
      Assemble(Correlation(3, m, p) > 0, Correlation(0, m, p + 3) > 0, Correlation(2, m, p + 5) > 0,
               Correlation(4, m, p + 7) > 0, Correlation(1, m, p + 10) > 0, Correlation(3, m, p + 12) > 0,
               Correlation(0, m, p + 15) > 0, Correlation(2, m, p + 17) > 0)
    case 4 =>
      Assemble(Correlation(4, m, p) > 0, Correlation(1, m, p + 3) > 0, Correlation(3, m, p + 5) > 0,
               Correlation(0, m, p + 8) > 0, Correlation(2, m, p + 10) > 0, Correlation(4, m, p + 12) > 0,
               Correlation(1, m, p + 15) > 0, Correlation(3, m, p + 17) > 0)
  }

  lemma NextSample(t: nat, b: nat, k: nat)
    ensures SampleOf(t, b + k) == SampleOf(t, b) + SampleOf(PhaseOf(t, b), k)
    ensures PhaseOf(t, b + k) == PhaseOf(PhaseOf(t, b), k)
  {
    var x := t + 12 * b;
    assert x == 5 * (x / 5) + x % 5;
  }

  lemma BitAtIs(m: seq<int>, p: nat, phase: nat, k: nat, offset: nat, c: nat)
    requires phase < 5 && k < 8 && phase + 12 * k == 5 * offset + c && c < 5
    requires p + 20 <= |m|
    ensures p + LastRead(phase, k) < |m| && p + offset + (if c == 4 then 4 else 3) <= |m|
    ensures BitAt(m, p, phase, k) == (Correlation(c, m, p + offset) > 0)
  {
    hide Correlation;
  }

  lemma Unrolled0(m: seq<int>, p: nat, k: nat)
    requires p + 20 <= |m| && k < 8
    ensures p + LastRead(0, k) < |m|
    ensures BitOfByte(SlicedByte(0, m, p), k) == BitAt(m, p, 0, k)
  {
    hide Correlation, Assemble, BitOfByte, BitAt, LastRead;
    AssembledBits(Correlation(0, m, p) > 0, Correlation(2, m, p + 2) > 0, Correlation(4, m, p + 4) > 0,
                  Correlation(1, m, p + 7) > 0, Correlation(3, m, p + 9) > 0, Correlation(0, m, p + 12) > 0,
                  Correlation(2, m, p + 14) > 0, Correlation(4, m, p + 16) > 0);
    var offset, c := (0 + 12 * k) / 5, (0 + 12 * k) % 5;
    BitAtIs(m, p, 0, k, offset, c);
    if k < 4 {
      assert k == 0 || k == 1 || k == 2 || k == 3;
    } else {
      assert k == 4 || k == 5 || k == 6 || k == 7;
    }
  }

  lemma Unrolled1(m: seq<int>, p: nat, k: nat)
    requires p + 20 <= |m| && k < 8
    ensures p + LastRead(1, k) < |m|
    ensures BitOfByte(SlicedByte(1, m, p), k) == BitAt(m, p, 1, k)
  {
    hide Correlation, Assemble, BitOfByte, BitAt, LastRead;
    AssembledBits(Correlation(1, m, p) > 0, Correlation(3, m, p + 2) > 0, Correlation(0, m, p + 5) > 0,
                  Correlation(2, m, p + 7) > 0, Correlation(4, m, p + 9) > 0, Correlation(1, m, p + 12) > 0,
                  Correlation(3, m, p + 14) > 0, Correlation(0, m, p + 17) > 0);
    var offset, c := (1 + 12 * k) / 5, (1 + 12 * k) % 5;
    BitAtIs(m, p, 1, k, offset, c);
    if k < 4 {
      assert k == 0 || k == 1 || k == 2 || k == 3;
    } else {
      assert k == 4 || k == 5 || k == 6 || k == 7;
    }
  }

  lemma Unrolled2(m: seq<int>, p: nat, k: nat)
    requires p + 20 <= |m| && k < 8
    ensures p + LastRead(2, k) < |m|
    ensures BitOfByte(SlicedByte(2, m, p), k) == BitAt(m, p, 2, k)
  {
    hide Correlation, Assemble, BitOfByte, BitAt, LastRead;
    AssembledBits(Correlation(2, m, p) > 0, Correlation(4, m, p + 2) > 0, Correlation(1, m, p + 5) > 0,
                  Correlation(3, m, p + 7) > 0, Correlation(0, m, p + 10) > 0, Correlation(2, m, p + 12) > 0,
                  Correlation(4, m, p + 14) > 0, Correlation(1, m, p + 17) > 0);
    var offset, c := (2 + 12 * k) / 5, (2 + 12 * k) % 5;
    BitAtIs(m, p, 2, k, offset, c);
    if k < 4 {
      assert k == 0 || k == 1 || k == 2 || k == 3;
    } else {
      assert k == 4 || k == 5 || k == 6 || k == 7;
    }
  }

  lemma Unrolled3(m: seq<int>, p: nat, k: nat)
    requires p + 20 <= |m| && k < 8
    ensures p + LastRead(3, k) < |m|
    ensures BitOfByte(SlicedByte(3, m, p), k) == BitAt(m, p, 3, k)
  {
    hide Correlation, Assemble, BitOfByte, BitAt, LastRead;
    AssembledBits(Correlation(3, m, p) > 0, Correlation(0, m, p + 3) > 0, Correlation(2, m, p + 5) > 0,
                  Correlation(4, m, p + 7) > 0, Correlation(1, m, p + 10) > 0, Correlation(3, m, p + 12) > 0,
                  Correlation(0, m, p + 15) > 0, Correlation(2, m, p + 17) > 0);
    var offset, c := (3 + 12 * k) / 5, (3 + 12 * k) % 5;
    BitAtIs(m, p, 3, k, offset, c);
    if k < 4 {
      assert k == 0 || k == 1 || k == 2 || k == 3;
    } else {
      assert k == 4 || k == 5 || k == 6 || k == 7;
    }
  }

  lemma Unrolled4(m: seq<int>, p: nat, k: nat)
    requires p + 20 <= |m| && k < 8
    ensures p + LastRead(4, k) < |m|
    ensures BitOfByte(SlicedByte(4, m, p), k) == BitAt(m, p, 4, k)
  {
    hide Correlation, Assemble, BitOfByte, BitAt, LastRead;
    AssembledBits(Correlation(4, m, p) > 0, Correlation(1, m, p + 3) > 0, Correlation(3, m, p + 5) > 0,
                  Correlation(0, m, p + 8) > 0, Correlation(2, m, p + 10) > 0, Correlation(4, m, p + 12) > 0,
                  Correlation(1, m, p + 15) > 0, Correlation(3, m, p + 17) > 0);
    var offset, c := (4 + 12 * k) / 5, (4 + 12 * k) % 5;
    BitAtIs(m, p, 4, k, offset, c);
    if k < 4 {
      assert k == 0 || k == 1 || k == 2 || k == 3;
    } else {
      assert k == 4 || k == 5 || k == 6 || k == 7;
    }
  }

  /** Each of the 40 unrolled correlations is the one the formula asks for. */
  lemma UnrolledIsFormula(phase: nat, m: seq<int>, p: nat, k: nat)
    requires phase < 5 && p + 20 <= |m| && k < 8
    ensures p + LastRead(phase, k) < |m|
    ensures BitOfByte(SlicedByte(phase, m, p), k) == BitAt(m, p, phase, k)
  {
    hide SlicedByte, BitAt, BitOfByte;
    if phase == 0 {
      Unrolled0(m, p, k);
    } else if phase == 1 {
      Unrolled1(m, p, k);
    } else if phase == 2 {
      Unrolled2(m, p, k);
    } else if phase == 3 {
      Unrolled3(m, p, k);
    } else {
      Unrolled4(m, p, k);
    }
  }

  /** The bits of a later byte, seen from its first sample. */
  lemma BitAtShift(m: seq<int>, start: nat, t: nat, b: nat, k: nat)
    requires start + LastRead(t, b + k) < |m|
    ensures start + SampleOf(t, b) + LastRead(PhaseOf(t, b), k) < |m|
    ensures BitAt(m, start, t, b + k) == BitAt(m, start + SampleOf(t, b), PhaseOf(t, b), k)
  {
    hide Correlation, SampleOf, PhaseOf;
    NextSample(t, b, k);
  }

  // ---- A message ------------------------------------------------------------------------------

  /** There are enough samples for a long message whose preamble starts at sample j. */
  predicate Enough(m: seq<int>, j: nat) {
    j + 290 <= |m|
  }

  lemma ByteFits(t: nat, i: nat)
    requires 4 <= t <= 8 && i < LONG_BYTES
    ensures SampleOf(t, 8 * i) + 20 <= 271
  {
  }

  /** The i-th byte by the formula: its bits are those of BitAt. */
  function ByteAt(m: seq<int>, j: nat, t: nat, i: nat): bv8
    requires Enough(m, j) && 4 <= t <= 8 && i < LONG_BYTES
  {
    ByteFits(t, i);
    SlicedByte(PhaseOf(t, 8 * i), m, j + 19 + SampleOf(t, 8 * i))
  }

  /** All 14 bytes at phase t. */
  function Message(m: seq<int>, j: nat, t: nat): (r: seq<bv8>)
    requires Enough(m, j) && 4 <= t <= 8
    ensures |r| == LONG_BYTES
  {
    seq(LONG_BYTES, i requires 0 <= i < LONG_BYTES => ByteAt(m, j, t, i))
  }

  /** Bit b of the message comes from sample 19 + floor((t + 12b) / 5) after the start of the
      preamble, with correlation function (t + 12b) mod 5. */
  lemma MessageBits(m: seq<int>, j: nat, t: nat, b: nat)
    requires Enough(m, j) && 4 <= t <= 8 && b < 8 * LONG_BYTES
    ensures LastRead(t, b) <= 270
    ensures Bit(Message(m, j, t), b) == BitAt(m, j + 19, t, b)
  {
    hide BitOfByte, SlicedByte, BitAt, SampleOf, LastRead;
    ReadsStayClose(t, b);
    var i, k := b / 8, b % 8;
    ByteFits(t, i);
    BitAtShift(m, j + 19, t, 8 * i, k);
    UnrolledIsFormula(PhaseOf(t, 8 * i), m, j + 19 + SampleOf(t, 8 * i), k);
  }

  lemma MessageAt(m: seq<int>, j: nat, t: nat, i: nat)
    requires Enough(m, j) && 4 <= t <= 8 && i < LONG_BYTES
    ensures Message(m, j, t)[i] == ByteAt(m, j, t, i)
  {
    hide ByteAt;
  }

  lemma NextByte(t: nat, i: nat)
    ensures PhaseOf(t, 8 * i) < 5
    ensures SampleOf(t, 8 * (i + 1)) == SampleOf(t, 8 * i) + if PhaseOf(t, 8 * i) == 4 then 20 else 19
    ensures PhaseOf(t, 8 * (i + 1)) == if PhaseOf(t, 8 * i) == 4 then 0 else PhaseOf(t, 8 * i) + 1
  {
    NextSample(t, 8 * i, 8);
  }

  /** The slicing loop as far as n bytes: pPtr and phase advance by one byte at a time. */
  method SliceBytes(m: seq<int>, j: nat, t: nat, msg: array<bv8>, from: nat, n: nat, p: nat, ph: nat)
    returns (p': nat, ph': nat)
    requires Enough(m, j) && 4 <= t <= 8 && msg.Length == LONG_BYTES && from <= n <= LONG_BYTES
    requires p == j + 19 + SampleOf(t, 8 * from) && ph == PhaseOf(t, 8 * from)
    modifies msg
    ensures forall k :: from <= k < n ==> msg[k] == Message(m, j, t)[k]
    ensures forall k :: 0 <= k < from || n <= k < LONG_BYTES ==> msg[k] == old(msg[k])
    ensures p' == j + 19 + SampleOf(t, 8 * n) && ph' == PhaseOf(t, 8 * n)
  {
    hide SlicedByte, Message, SampleOf, PhaseOf;
    p', ph' := p, ph;
    for i := from to n
      invariant p' == j + 19 + SampleOf(t, 8 * i) && ph' == PhaseOf(t, 8 * i)
      invariant forall k :: from <= k < i ==> msg[k] == Message(m, j, t)[k]
      invariant forall k :: 0 <= k < from || i <= k < LONG_BYTES ==> msg[k] == old(msg[k])
    {
      ByteFits(t, i);
      NextByte(t, i);
      assert Message(m, j, t)[i] == ByteAt(m, j, t, i) by { MessageAt(m, j, t, i); }
      msg[i] := SlicedByte(ph', m, p');
      if ph' == 4 {
        ph', p' := 0, p' + 20;
      } else {
        ph', p' := ph' + 1, p' + 19;
      }
    }
  }
}
