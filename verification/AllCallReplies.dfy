/** DF11 messages carry an interrogator identifier in the low 7 bits of their parity field, which
    correctMessage (mode_s.c) does not know when it looks for errors. */
module AllCallReplies {
  import opened Acceptance
  import opened Bits
  import opened Checksum
  import opened CodeDistance
  import opened DfBitsets
  import opened ErrorCorrection
  import opened ErrorPatterns
  import opened Fields
  import opened Lookup
  import opened MessageCorrection
  import opened Options
  import opened Polynomial
  import opened PowerTable
  import opened PowerTops

  /** The bits before the identifier: format, capability, address and the top of the parity field. */
  const PLAIN_BITS: nat := 49

  // ---- Syndromes whose low 7 bits are unknown -------------------------------------------------------

  lemma LowPowersAre()
    ensures Shift(1, 0) == 0x01 && Shift(1, 1) == 0x02 && Shift(1, 2) == 0x04 && Shift(1, 3) == 0x08
    ensures Shift(1, 4) == 0x10 && Shift(1, 5) == 0x20 && Shift(1, 6) == 0x40
  {
  }

  lemma LowPower(r: bv24)
    requires IsPower(r) && Top17(r) == 0
    ensures r == 0x01 || r == 0x02 || r == 0x04 || r == 0x08 || r == 0x10 || r == 0x20 || r == 0x40
  {
    hide IsPower;
    NoTop(r);
  }

  lemma LowConstants()
    ensures Top17(0x01) == Top17(0x02) == Top17(0x04) == Top17(0x08) == Top17(0x10) == Top17(0x20) == Top17(0x40) == 0
  {
  }

  /** Exactly the errors in the identifier do not show in the top 17 bits. */
  lemma TopOfPower(k: nat)
    requires k < POWERS
    ensures IsPower(Shift(1, k)) && (Top17(Shift(1, k)) == 0 <==> k < 7)
  {
    hide IsPower, Shift, Top17;
    PowerInTable(k);
    LowPowersAre();
    LowConstants();
    if k >= 7 && Top17(Shift(1, k)) == 0 {
      LowPower(Shift(1, k));
      forall j: nat | j < 7 ensures Shift(1, j) != Shift(1, k) {
        PowersDiffer(j, k);
      }
    }
  }

  lemma TwoPowersShow(u: bv24, v: bv24)
    requires IsPower(u) && IsPower(v) && Top17(u) != 0 && u != v
    ensures Top17(Add(u, v)) != 0
  {
    hide IsPower;
    TwoTops(u, v);
  }

  lemma ThreePowersShow(u: bv24, v: bv24, w: bv24)
    requires IsPower(u) && IsPower(v) && IsPower(w)
    requires Top17(u) != 0 && Top17(v) != 0 && Top17(w) != 0
    ensures Top17(Add(Add(u, v), w)) != 0
  {
    hide IsPower, Add, Top17;
    Top17Is(u);
    Top17Is(v);
    Top17Is(w);
    ThreeTops(u, v, w);
    SumIs(u, v, w);
    Top17Is(u ^ v ^ w);
  }

  lemma Top17Is(r: bv24)
    ensures Top17(r) == r & 0xffff80
  {
  }

  lemma SumIs(u: bv24, v: bv24, w: bv24)
    ensures Add(Add(u, v), w) == u ^ v ^ w
  {
  }

  lemma TopOfSum(a: bv24, b: bv24)
    requires Top17(b) == 0
    ensures Top17(Add(a, b)) == Top17(a)
  {
  }

  lemma ThreeErrors(p: seq<nat>, bits: nat)
    requires |p| == 3
    ensures Syndrome(p, bits) == Add(Add(BitSyndrome(p[0], bits), BitSyndrome(p[1], bits)), BitSyndrome(p[2], bits))
  {
    hide Add, BitSyndrome;
    TwoErrors(p[..2], bits);
  }

  lemma OneError(p: seq<nat>, bits: nat)
    requires |p| == 1
    ensures Syndrome(p, bits) == BitSyndrome(p[0], bits)
  {
    hide Add, BitSyndrome;
    assert p[..0] == [];
    AddIdentities(BitSyndrome(p[0], bits));
  }

  /** Up to 3 errors show in the top 17 bits of the checksum, unless all are in the identifier. */
  lemma {:induction false} PlainErrorsShow(p: seq<nat>)
    requires IsPattern(p, SHORT_MSG_BITS) && |p| <= 3
    requires Top17(Syndrome(p, SHORT_MSG_BITS)) == 0
    ensures forall i :: 0 <= i < |p| ==> p[i] >= PLAIN_BITS
    decreases |p|
  {
    hide Add, Syndrome, Shift, Top17, IsPower;
    forall i | 0 <= i < |p| ensures BitSyndrome(p[i], SHORT_MSG_BITS) == Shift(1, 55 - p[i]) {
    }
    if p != [] {
      var n := |p| - 1;
      TopOfPower(55 - p[n]);
      if p[n] >= PLAIN_BITS {
        LastError(p, SHORT_MSG_BITS);
        TopOfSum(Syndrome(p[..n], SHORT_MSG_BITS), BitSyndrome(p[n], SHORT_MSG_BITS));
        PlainErrorsShow(p[..n]);
      } else {
        TopOfPower(55 - p[0]);
        if n == 0 {
          OneError(p, SHORT_MSG_BITS);
        } else if n == 1 {
          TwoErrors(p, SHORT_MSG_BITS);
          PowersDiffer(55 - p[1], 55 - p[0]);
          TwoPowersShow(Shift(1, 55 - p[0]), Shift(1, 55 - p[1]));
        } else {
          ThreeErrors(p, SHORT_MSG_BITS);
          TopOfPower(55 - p[1]);
          ThreePowersShow(Shift(1, 55 - p[0]), Shift(1, 55 - p[1]), Shift(1, 55 - p[2]));
        }
      }
    }
  }

  lemma LastError(p: seq<nat>, bits: nat)
    requires p != []
    ensures Syndrome(p, bits) == Add(Syndrome(p[..|p| - 1], bits), BitSyndrome(p[|p| - 1], bits))
  {
  }

  // ---- What correction can do to an all-call reply ----------------------------------------------------

  lemma {:induction false} DifferenceMembers(p: seq<nat>, q: seq<nat>, bits: nat, j: nat)
    requires IsPattern(p, bits) && IsPattern(q, bits)
    ensures j in Difference(p, q) <==> (j in p) != (j in q)
    decreases |p| + |q|
  {
    if p != [] && q != [] {
      var p', a, q', b := p[..|p| - 1], p[|p| - 1], q[..|q| - 1], q[|q| - 1];
      LastIsGreatest(p, bits);
      LastIsGreatest(q, bits);
      NotInSmaller(p', a);
      NotInSmaller(q', b);
      hide IsPattern;
      if a == b {
        LowerPattern(p, q, bits);
        DifferenceMembers(p', q', bits, j);
      } else if a < b {
        LowerPattern(p, q, bits);
        NotInSmaller(p', b);
        DifferenceMembers(p, q', bits, j);
      } else {
        LowerPattern(p, q, bits);
        NotInSmaller(q', a);
        DifferenceMembers(p', q, bits, j);
      }
    }
  }

  lemma NotInSmaller(p: seq<nat>, a: nat)
    ensures IsPattern(p, a) ==> a !in p
  {
  }

  lemma LowerPattern(p: seq<nat>, q: seq<nat>, bits: nat)
    requires IsPattern(p, bits) && IsPattern(q, bits) && p != [] && q != []
    ensures IsPattern(p[..|p| - 1], bits) && IsPattern(q[..|q| - 1], bits)
    ensures IsPattern(p[..|p| - 1], q[|q| - 1]) || p[|p| - 1] > q[|q| - 1]
    ensures IsPattern(q[..|q| - 1], p[|p| - 1]) || q[|q| - 1] > p[|p| - 1]
  {
  }

  /** Two messages agree before the identifier. */
  predicate SamePlain(a: seq<bv8>, b: seq<bv8>)
    requires |a| == |b| == SHORT_MSG_BYTES
  {
    forall j: nat :: j < PLAIN_BITS ==> Bit(a, j) == Bit(b, j)
  }

  /** What correctMessage turns into a DF11 message has the format, the capability and the address of
      the reply that was sent, whatever its identifier, if at most 2 of its bits were received
      wrong. A single error before a non-zero identifier is not repaired at all. */
  lemma ReplyKeepsItsAddress(cfg: Config, sent: seq<bv8>, p: seq<nat>, msg: seq<bv8>)
    requires cfg.Valid() && |sent| == SHORT_MSG_BYTES && |msg| == LONG_MSG_BYTES
    requires Top17(Parity(sent)) == 0 && IsPattern(p, SHORT_MSG_BITS) && |p| <= 2
    requires msg[..SHORT_MSG_BYTES] == Flips(sent, p)
    ensures Corrected(cfg, msg).Short? ==> (
      var m := Corrected(cfg, msg).message;
      && |m| == SHORT_MSG_BYTES && SamePlain(m, sent) && Announced(m) == Announced(sent)
      && (|p| == 1 && p[0] < PLAIN_BITS ==> Parity(sent) == 0 && m == sent))
  {
    hide Parity, Top17, Corrected, Announced, SamePlain, IsPattern;
    CorrectedIsSound(cfg, msg);
    if Corrected(cfg, msg).Short? {
      var n, m := Corrected(cfg, msg).corrections, Corrected(cfg, msg).message;
      assert |m| == SHORT_MSG_BYTES && Top17(Parity(m)) == 0 && n <= 1 && (n == 1 ==> Parity(m) == 0);
      var q := Inverted(msg[..SHORT_MSG_BYTES], m, n);
      RepairedReply(sent, p, q);
    }
  }

  lemma Inverted(a: seq<bv8>, b: seq<bv8>, n: nat) returns (q: seq<nat>)
    requires DiffersInBits(a, b, n)
    ensures IsPattern(q, 8 * |a|) && |q| == n && b == Flips(a, q)
  {
    q :| IsPattern(q, 8 * |a|) && |q| == n && b == Flips(a, q);
  }

  /** Errors and repair leave a checksum that is 0 but for an identifier only if they cancel before
      the identifier. */
  lemma RepairCancels(sent: seq<bv8>, p: seq<nat>, q: seq<nat>)
    requires |sent| == SHORT_MSG_BYTES && Top17(Parity(sent)) == 0
    requires IsPattern(p, SHORT_MSG_BITS) && IsPattern(q, SHORT_MSG_BITS) && |p| <= 2 && |q| <= 1
    requires Top17(Parity(Flips(Flips(sent, p), q))) == 0
    ensures forall j: nat :: j < PLAIN_BITS ==> (j in p <==> j in q)
  {
    hide Parity, Top17, Add, Syndrome, Difference;
    var d := Difference(p, q);
    DifferenceIsPattern(p, q, SHORT_MSG_BITS);
    SyndromeOfDifference(p, q, SHORT_MSG_BITS);
    ParityOfFlips(sent, p);
    ParityOfFlips(Flips(sent, p), q);
    TopOfErrors(Parity(sent), Syndrome(p, SHORT_MSG_BITS), Syndrome(q, SHORT_MSG_BITS));
    PlainErrorsShow(d);
    forall j: nat | j < PLAIN_BITS ensures j in p <==> j in q {
      DifferenceMembers(p, q, SHORT_MSG_BITS, j);
    }
  }

  lemma SamePlainBits(sent: seq<bv8>, p: seq<nat>, q: seq<nat>)
    requires |sent| == SHORT_MSG_BYTES && IsPattern(p, SHORT_MSG_BITS) && IsPattern(q, SHORT_MSG_BITS)
    requires forall j: nat :: j < PLAIN_BITS ==> (j in p <==> j in q)
    ensures SamePlain(Flips(Flips(sent, p), q), sent)
  {
    hide Flips, Bit;
    var received := Flips(sent, p);
    forall j: nat | j < PLAIN_BITS ensures Bit(Flips(received, q), j) == Bit(sent, j) {
      BitOfFlips(sent, p, j);
      BitOfFlips(received, q, j);
    }
  }

  lemma SingleRepair(p: seq<nat>, q: seq<nat>)
    requires |p| == 1 && |q| <= 1 && p[0] < PLAIN_BITS
    requires forall j: nat :: j < PLAIN_BITS ==> (j in p <==> j in q)
    ensures q == p
  {
    assert p[0] in q;
  }

  lemma RepairedReply(sent: seq<bv8>, p: seq<nat>, q: seq<nat>)
    requires |sent| == SHORT_MSG_BYTES && Top17(Parity(sent)) == 0
    requires IsPattern(p, SHORT_MSG_BITS) && IsPattern(q, SHORT_MSG_BITS) && |p| <= 2 && |q| <= 1
    requires Top17(Parity(Flips(Flips(sent, p), q))) == 0
    ensures var m := Flips(Flips(sent, p), q);
      && SamePlain(m, sent) && Announced(m) == Announced(sent)
      && (|p| == 1 && p[0] < PLAIN_BITS ==> q == p && m == sent)
  {
    hide Parity, Top17, Announced, Flips, SamePlain, Increasing;
    RepairCancels(sent, p, q);
    var m := Flips(Flips(sent, p), q);
    SamePlainBits(sent, p, q);
    SameAddress(m, sent);
    if |p| == 1 && p[0] < PLAIN_BITS {
      SingleRepair(p, q);
      FlipsTwice(sent, p);
    }
  }

  lemma TopOfErrors(a: bv24, b: bv24, c: bv24)
    requires Top17(a) == 0 && Top17(Add(Add(a, b), c)) == 0
    ensures Top17(Add(b, c)) == 0
  {
  }

  lemma SameAddress(a: seq<bv8>, b: seq<bv8>)
    requires |a| == |b| == SHORT_MSG_BYTES && SamePlain(a, b)
    ensures Announced(a) == Announced(b)
  {
    hide BitOfByte;
    forall i: nat | i < 4 ensures a[i] == b[i] {
      forall k: nat | k < 8 ensures BitOfByte(a[i], k) == BitOfByte(b[i], k) {
        assert Bit(a, 8 * i + k) == Bit(b, 8 * i + k);
      }
      ByteExtensionality(a[i], b[i]);
    }
  }

  /** The checksum of an undamaged reply is its identifier. */
  lemma ChecksumIsIdentifier(s: bv24)
    requires Top17(s) == 0
    ensures Iid(s) == s
  {
  }

  // ---- Three errors -----------------------------------------------------------------------------------

  lemma FourPowersAre()
    ensures Shift(1, 10) == 0x000400 && Shift(1, 11) == 0x000800 && Shift(1, 12) == 0x001000
    ensures Shift(1, 25) == 0x001c1b
  {
    StartIs(1);
    StartIs(3);
    ShiftAdd(1, 7, 3);
    ShiftAdd(1, 7, 4);
    ShiftAdd(1, 7, 5);
    ShiftAdd(1, 21, 4);
  }

  /** With identifier 27 three errors in the parity field look like one in the address. */
  lemma ThreeLookLikeOne()
    ensures Add(0x1b, Syndrome([43, 44, 45], SHORT_MSG_BITS)) == Syndrome([30], SHORT_MSG_BITS) != 0
  {
    hide Shift;
    FourPowersAre();
    ThreeErrors([43, 44, 45], SHORT_MSG_BITS);
    OneError([30], SHORT_MSG_BITS);
  }

  lemma LowByteRaw(x: bv24, y: bv24, z: bv24, x': bv24, y': bv24, z': bv24)
    requires z & 0xff == z && z' & 0xff == z'
    ensures (x << 16) | (y << 8) | z == (x' << 16) | (y' << 8) | z' ==> z == z'
  {
  }

  lemma OtherAddress(a: seq<bv8>, b: seq<bv8>)
    requires |a| == |b| == SHORT_MSG_BYTES && Bit(a, 30) != Bit(b, 30)
    ensures Announced(a) != Announced(b)
  {
    hide BitOfByte;
    LowByteRaw(a[1] as bv24, a[2] as bv24, a[3] as bv24, b[1] as bv24, b[2] as bv24, b[3] as bv24);
  }

  lemma SingleIsDiagnosed(k: nat, fixBits: int)
    requires k < SHORT_MSG_BITS && fixBits != 0
    ensures Syndrome([k], SHORT_MSG_BITS) != 0
    ensures Applicable(ErrorTable.Entry([k], SHORT_MSG_BITS), SHORT_MSG_BITS)
      && PatternOf(ErrorTable.Entry([k], SHORT_MSG_BITS)) == [k]
    ensures Diagnosis(Syndrome([k], SHORT_MSG_BITS), SHORT_MSG_BITS, MaxCorrect(fixBits), MaxDetect(fixBits))
         == Some(ErrorTable.Entry([k], SHORT_MSG_BITS))
  {
    hide Syndrome, Diagnosis;
    MinimumDistance([k], SHORT_MSG_BITS);
    forall q | IsPattern(q, SHORT_MSG_BITS) && |q| <= 4 && q != [k]
      ensures Syndrome(q, SHORT_MSG_BITS) != Syndrome([k], SHORT_MSG_BITS)
    {
      SyndromesDiffer(q, [k], SHORT_MSG_BITS);
    }
    DiagnosisOf([k], SHORT_MSG_BITS, MaxCorrect(fixBits), MaxDetect(fixBits));
    PatternOfEntry([k], SHORT_MSG_BITS);
  }

  /** A damaged DF11 message that is diagnosed with one error is repaired if it stays a DF11 message. */
  lemma ReplyIsRepaired(cfg: Config, msg: seq<bv8>, k: nat)
    requires cfg.Valid() && cfg.fixBits != 0 && |msg| == LONG_MSG_BYTES && 5 <= k < SHORT_MSG_BITS
    requires Df(msg) == 11 && Top17(Parity(msg[..SHORT_MSG_BYTES])) != 0
    requires Parity(msg[..SHORT_MSG_BYTES]) == Syndrome([k], SHORT_MSG_BITS)
    ensures Corrected(cfg, msg) == Short(1, Flips(msg[..SHORT_MSG_BYTES], [k]))
  {
    hide Parity, Top17, Syndrome, Df, Diagnosis, Flips, InBitset;
    var short := msg[..SHORT_MSG_BYTES];
    SingleIsDiagnosed(k, cfg.fixBits);
    FarAndNear(cfg);
    BitsetsAreBalls(cfg.FixDfBits(), 11);
    FarFromLong(cfg.fixBits, msg, 2);
    SameDf(msg, short);
    DfOfReply(short, [k]);
    assert ShortDiagnosis(cfg.fixBits, msg) == Some(ErrorTable.Entry([k], SHORT_MSG_BITS));
    assert Fixed(short, Some(ErrorTable.Entry([k], SHORT_MSG_BITS))) == Flips(short, [k]);
    assert ShortRepair(short, ShortDiagnosis(cfg.fixBits, msg)) == Some(Flips(short, [k]));
  }

  lemma FarAndNear(cfg: Config)
    requires cfg.Valid()
    ensures !NearLong(11, 2) && NearShort(11, cfg.FixDfBits())
  {
  }

  lemma ReplyHead(msg: seq<bv8>)
    requires |msg| > 0 && msg[0] == 0x58
    ensures Df(msg) == 11
  {
    DfDigits(msg);
    assert !Bit(msg, 0) && Bit(msg, 1) && !Bit(msg, 2) && Bit(msg, 3) && Bit(msg, 4);
  }

  lemma Identifier27(x: bv24)
    requires Add(0x1b, x) == Syndrome([30], SHORT_MSG_BITS) == 0x001c1b
    ensures Top17(0x1b) == 0 && Top17(Add(0x1b, x)) != 0
  {
    hide Syndrome;
  }

  /** Two errors are the limit: with three, all in the parity field of a reply with identifier 27,
      correction finds a reply of another address. */
  lemma ThreeErrorsChangeTheAddress(cfg: Config) returns (sent: seq<bv8>, msg: seq<bv8>)
    requires cfg.Valid() && cfg.fixBits != 0
    ensures |sent| == SHORT_MSG_BYTES && |msg| == LONG_MSG_BYTES
    ensures Df(sent) == 11 && Parity(sent) == 27 && msg[..SHORT_MSG_BYTES] == Flips(sent, [43, 44, 45])
    ensures var o := Corrected(cfg, msg);
      o.Short? && o.corrections == 1 && |o.message| == SHORT_MSG_BYTES && Announced(o.message) != Announced(sent)
  {
    hide Parity, Top17, Syndrome, Df, Corrected, Flips, Bit, Announced, Add;
    var head: seq<bv8> := [0x58, 0x12, 0x34, 0x56];
    sent := Completed(head, 0x1b);
    assert sent[0] == head[0];
    ReplyHead(sent);
    var p := [43, 44, 45];
    var received := Flips(sent, p);
    msg := received + seq(LONG_MSG_BYTES - SHORT_MSG_BYTES, _ => 0);
    assert msg[..SHORT_MSG_BYTES] == received;
    DfOfReply(sent, p);
    SameDf(msg, received);
    ParityOfFlips(sent, p);
    ThreeLookLikeOne();
    OneIs();
    Identifier27(Syndrome(p, SHORT_MSG_BITS));
    ReplyIsRepaired(cfg, msg, 30);
    BitOfFlips(sent, p, 30);
    BitOfFlips(received, [30], 30);
    OtherAddress(Flips(received, [30]), sent);
  }

  lemma OneIs()
    ensures Syndrome([30], SHORT_MSG_BITS) == 0x001c1b
  {
    hide Shift;
    FourPowersAre();
    OneError([30], SHORT_MSG_BITS);
  }

  lemma DfOfReply(short: seq<bv8>, p: seq<nat>)
    requires |short| == SHORT_MSG_BYTES && IsPattern(p, SHORT_MSG_BITS) && forall i :: 0 <= i < |p| ==> p[i] >= 5
    ensures Df(Flips(short, p)) == Df(short)
  {
    hide Flips, Bit;
    forall j: nat | j < 5 ensures Bit(Flips(short, p), j) == Bit(short, j) {
      BitOfFlips(short, p, j);
    }
    DfDigits(short);
    DfDigits(Flips(short, p));
  }
}
