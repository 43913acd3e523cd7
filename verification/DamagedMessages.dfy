/** What correctMessage (mode_s.c) is for: damaged DF17, DF18 and DF11 messages are repaired. */
module DamagedMessages {
  import opened Acceptance
  import opened AllCallReplies
  import opened Bits
  import opened Checksum
  import opened CorrectionStrength
  import opened DfBitsets
  import opened ErrorCorrection
  import opened ErrorPatterns
  import opened Fields
  import opened IcaoFilter
  import opened Lookup
  import opened MessageCorrection
  import opened Options
  import opened Polynomial

  /** The errors in the downlink format. */
  function DfErrors(p: seq<nat>): (n: nat)
    ensures n <= |p|
  {
    if p == [] then 0 else DfErrors(p[..|p| - 1]) + if p[|p| - 1] < 5 then 1 else 0
  }

  /** Only errors in the format move it. */
  lemma {:induction false} DfAfterErrors(msg: seq<bv8>, p: seq<nat>, df: nat)
    requires |msg| > 0 && Within(p, 0, 8 * |msg|)
    ensures Distance(Df(Flips(msg, p)), df) <= Distance(Df(msg), df) + DfErrors(p)
    ensures Distance(Df(msg), df) <= Distance(Df(Flips(msg, p)), df) + DfErrors(p)
  {
    hide Distance, Df, FlipBit;
    if p != [] {
      var q, k := p[..|p| - 1], p[|p| - 1];
      DfAfterErrors(msg, q, df);
      if k < 5 {
        DfAfterFlip(Flips(msg, q), k, df);
      } else {
        DfStays(Flips(msg, q), k);
      }
    }
  }

  lemma DfStays(msg: seq<bv8>, k: nat)
    requires |msg| > 0 && 5 <= k < 8 * |msg|
    ensures Df(FlipBit(msg, k)) == Df(msg)
  {
    hide Bit, FlipBit;
    forall j: nat | j < 5 ensures Bit(FlipBit(msg, k), j) == Bit(msg, j) {
      FlipBitAt(msg, k, j);
    }
    DfDigits(msg);
    DfDigits(FlipBit(msg, k));
  }

  lemma Distances()
    ensures Distance(17, 17) == 0 && Distance(18, 18) == 0 && Distance(11, 11) == 0
    ensures Distance(17, 11) == 3 && Distance(18, 11) == 3 && Distance(11, 17) == 3 && Distance(11, 18) == 3
  {
  }

  /** The long code corrects p: any single error, and two errors if two are corrected and no four
      imitate them. */
  ghost predicate Repairable(fixBits: int, p: seq<nat>) {
    && IsPattern(p, LONG_MSG_BITS) && 1 <= |p| <= MaxCorrect(fixBits)
    && (|p| == 2 ==> !Imitated(p, LONG_MSG_BITS))
  }

  lemma LongIsDiagnosed(fixBits: int, sent: seq<bv8>, p: seq<nat>)
    requires |sent| == LONG_MSG_BYTES && Parity(sent) == 0 && Repairable(fixBits, p)
    ensures var d := LongDiagnosis(fixBits, Flips(sent, p));
      d.Some? && Errors(d) == |p| && Applicable(d.value, LONG_MSG_BITS) && Fixed(Flips(sent, p), d) == sent
  {
    hide Parity, Imitated, Flips, Diagnosis;
    if fixBits == 1 {
      OneBitCorrection(sent, p);
    } else {
      TwoBitCorrection(sent, p);
    }
    PatternOfEntry(p, LONG_MSG_BITS);
    FlipsTwice(sent, p);
  }

  /** The repair of the first seven bytes into a DF11 message that competes. */
  ghost function Competitor(cfg: Config, msg: seq<bv8>): Option<seq<bv8>>
    requires cfg.Valid() && |msg| == LONG_MSG_BYTES
  {
    var d := ShortDiagnosis(cfg.fixBits, msg);
    if LooksShort(cfg, msg) && Errors(d) == 1 then ShortRepair(msg[..SHORT_MSG_BYTES], d) else None
  }

  /** A DF17 or DF18 message with errors the code corrects is repaired exactly if its format, as it
      was received, is one that is looked at. Two errors give way to a repair into a DF11 message
      that needs only one. */
  lemma DamagedLongIsRepaired(cfg: Config, sent: seq<bv8>, p: seq<nat>)
    requires cfg.Valid() && |sent| == LONG_MSG_BYTES && IsLongPI(sent) && Parity(sent) == 0
    requires Repairable(cfg.fixBits, p)
    ensures var received := Flips(sent, p);
      && (LooksLong(cfg, received) ==>
            Corrected(cfg, received) ==
              if |p| == 2 && Competitor(cfg, received).Some? then Short(1, Competitor(cfg, received).value)
              else Long(|p|, sent))
      && (!LooksLong(cfg, received) ==> !Corrected(cfg, received).Long?)
  {
    hide Parity, Imitated, Flips, Df, Distance, Diagnosis, ShortDiagnosis, LongDiagnosis, InBitset, Applicable;
    var received := Flips(sent, p);
    Distances();
    DfAfterErrors(sent, p, 11);
    DfDigits(received);
    LongIsDiagnosed(cfg.fixBits, sent, p);
    ErrorsAreNoticed(sent, p);
    ErrorsAreSmall(cfg.fixBits, received);
  }

  /** Damage to the format is looked for as far as the configuration says. */
  lemma DamagedFormatIsLookedAt(cfg: Config, sent: seq<bv8>, p: seq<nat>)
    requires cfg.Valid() && |sent| == LONG_MSG_BYTES && IsLongPI(sent)
    requires IsPattern(p, LONG_MSG_BITS) && DfErrors(p) <= cfg.FixDfBits()
    ensures LooksLong(cfg, Flips(sent, p))
  {
    hide Flips, Df, Distance, InBitset;
    var received := Flips(sent, p);
    Distances();
    DfAfterErrors(sent, p, Df(sent));
    DfDigits(received);
    BitsetsAreBalls(cfg.FixDfBits(), Df(received));
  }

  /** There is no competition unless both errors are in the format. */
  lemma NoCompetitor(cfg: Config, sent: seq<bv8>, p: seq<nat>)
    requires cfg.Valid() && |sent| == LONG_MSG_BYTES && IsLongPI(sent)
    requires IsPattern(p, LONG_MSG_BITS) && DfErrors(p) <= 1
    ensures Competitor(cfg, Flips(sent, p)) == None
  {
    hide Parity, Flips, Df, Distance, Diagnosis, ShortDiagnosis, InBitset;
    var received := Flips(sent, p);
    Distances();
    DfAfterErrors(sent, p, 11);
    FarFromShort(cfg.fixBits, received, 2);
  }

  /** So with correction on, every single error outside the format is repaired, and so are two if no
      four errors imitate them; inside the format if that is looked for. */
  lemma DamagedLongIsRestored(cfg: Config, sent: seq<bv8>, p: seq<nat>)
    requires cfg.Valid() && |sent| == LONG_MSG_BYTES && IsLongPI(sent) && Parity(sent) == 0
    requires Repairable(cfg.fixBits, p) && DfErrors(p) <= 1 && DfErrors(p) <= cfg.FixDfBits()
    ensures Corrected(cfg, Flips(sent, p)) == Long(|p|, sent)
  {
    hide Parity, Imitated, Flips, IsLongPI, Corrected, LooksLong, Competitor;
    DamagedFormatIsLookedAt(cfg, sent, p);
    NoCompetitor(cfg, sent, p);
    DamagedLongIsRepaired(cfg, sent, p);
  }

  lemma ZeroIsFar()
    ensures Distance(0, 17) == 2 && Distance(0, 18) == 2
  {
  }

  /** The message that was sent is what is decoded: after one error from anybody, after two from
      senders that are known. */
  lemma DamagedLongIsDecoded(cfg: Config, v: View, sent: seq<bv8>, p: seq<nat>)
    requires cfg.Valid() && |sent| == LONG_MSG_BYTES && IsLongPI(sent) && Parity(sent) == 0
    requires Repairable(cfg.fixBits, p) && DfErrors(p) <= 1 && DfErrors(p) <= cfg.FixDfBits()
    ensures var sender := if Df(sent) == 17 then Icao(Announced(sent)) else NonTransponder(Announced(sent));
      Decoded(cfg, v, Flips(sent, p)) ==
        if |p| == 1 || v.Knows(sender) then Some(Message(Df(sent), SquitterAddress(sent), |p|, 0)) else None
  {
    hide Parity, Imitated, Flips, Df, Distance, Corrected, Announced, Icao, NonTransponder,
      SquitterAddress, AllZeros, Score;
    var received := Flips(sent, p);
    DamagedLongIsRestored(cfg, sent, p);
    AcceptedExactly(cfg, v, received);
    if AllZeros(received) {
      ZerosHaveDf0(received);
      Distances();
      ZeroIsFar();
      DfAfterErrors(sent, p, Df(sent));
    }
  }

  // ---- DF11 -----------------------------------------------------------------------------------------

  lemma LongNeedsTwo(fixBits: int, msg: seq<bv8>)
    requires |msg| == LONG_MSG_BYTES && Distance(Df(msg), 17) >= 2 && Distance(Df(msg), 18) >= 2
    ensures !IsLongPI(msg)
    ensures LongRepair(msg, LongDiagnosis(fixBits, msg)).Some? ==> Errors(LongDiagnosis(fixBits, msg)) == 2
  {
    hide Parity, Df, Distance, Diagnosis;
    Distances();
    var d := LongDiagnosis(fixBits, msg);
    DiagnosisShape(Parity(msg), LONG_MSG_BITS, MaxCorrect(fixBits), MaxDetect(fixBits));
    if d.Some? {
      DfAfterFlips(msg, PatternOf(d.value), 17);
      DfAfterFlips(msg, PatternOf(d.value), 18);
    }
  }

  /** Repairs into a long and into a short message never tie: their formats are too far apart. */
  lemma NoTie(fixBits: int, msg: seq<bv8>)
    requires |msg| == LONG_MSG_BYTES
    requires LongRepair(msg, LongDiagnosis(fixBits, msg)).Some?
    requires Errors(ShortDiagnosis(fixBits, msg)) == 1
    requires ShortRepair(msg[..SHORT_MSG_BYTES], ShortDiagnosis(fixBits, msg)).Some?
    ensures Errors(LongDiagnosis(fixBits, msg)) == 2
  {
    hide Parity, Df, Distance, Diagnosis, ShortDiagnosis, LongDiagnosis;
    if Distance(Df(msg), 11) >= 2 {
      FarFromShort(fixBits, msg, 2);
    } else {
      FarFromBoth(msg);
      LongNeedsTwo(fixBits, msg);
    }
  }

  lemma FarFromBoth(msg: seq<bv8>)
    requires |msg| > 0 && Distance(Df(msg), 11) <= 1
    ensures Distance(Df(msg), 17) >= 2 && Distance(Df(msg), 18) >= 2
  {
    hide Bit;
    DfDigitsAre(msg);
  }

  /** A DF11 message without identifier and with a single error is repaired if its format is looked
      at, except that an error in the place of the identifier is taken for one. */
  lemma DamagedReplyIsRepaired(cfg: Config, sent: seq<bv8>, k: nat, msg: seq<bv8>)
    requires cfg.Valid() && cfg.fixBits != 0 && |sent| == SHORT_MSG_BYTES && Df(sent) == 11 && Parity(sent) == 0
    requires k < SHORT_MSG_BITS && |msg| == LONG_MSG_BYTES && msg[..SHORT_MSG_BYTES] == Flips(sent, [k])
    requires LooksShort(cfg, msg)
    ensures Corrected(cfg, msg) == if k < PLAIN_BITS then Short(1, sent) else Short(0, msg[..SHORT_MSG_BYTES])
  {
    hide Parity, Flips, Df, Distance, Diagnosis, InBitset, Top17, Syndrome;
    var received := msg[..SHORT_MSG_BYTES];
    Distances();
    SameDf(msg, received);
    DfAfterErrors(sent, [k], 11);
    FarFromBoth(msg);
    LongNeedsTwo(cfg.fixBits, msg);
    ErrorsAreSmall(cfg.fixBits, msg);
    ParityOfFlips(sent, [k]);
    AddIdentities(Syndrome([k], SHORT_MSG_BITS));
    SingleIsDiagnosed(k, cfg.fixBits);
    FlipsTwice(sent, [k]);
    TopOfSingle(k);
    if k >= PLAIN_BITS {
      DfStaysInMessage(sent, k);
    }
    assert Fixed(received, ShortDiagnosis(cfg.fixBits, msg)) == sent;
  }

  lemma DfStaysInMessage(sent: seq<bv8>, k: nat)
    requires |sent| == SHORT_MSG_BYTES && 5 <= k < SHORT_MSG_BITS
    ensures Df(Flips(sent, [k])) == Df(sent)
  {
    hide Df, FlipBit;
    assert [k][..0] == [];
    DfStays(sent, k);
  }

  lemma TopOfSingle(k: nat)
    requires k < SHORT_MSG_BITS
    ensures Top17(Syndrome([k], SHORT_MSG_BITS)) == 0 <==> k >= PLAIN_BITS
  {
    hide Top17, Shift;
    OneError([k], SHORT_MSG_BITS);
    TopOfPower(55 - k);
  }

  // ---- What is decoded --------------------------------------------------------------------------------

  /** An undamaged extended squitter is decoded, with its type and address. */
  lemma UndamagedLongIsDecoded(cfg: Config, v: View, msg: seq<bv8>)
    requires cfg.Valid() && |msg| == LONG_MSG_BYTES && IsLongPI(msg) && Parity(msg) == 0
    ensures Decoded(cfg, v, msg) == Some(Message(Df(msg), SquitterAddress(msg), 0, 0))
  {
    hide Parity, Df, Corrected, Announced, Icao, NonTransponder, SquitterAddress, AllZeros, Score;
    UndamagedIsUnchanged(cfg, msg);
    NotAllZeros(cfg, msg);
    AcceptedExactly(cfg, v, msg);
  }

  /** An undamaged DF11 message is decoded, with the address it announces and its identifier, if that is
      zero or the sender is known. */
  lemma ReplyIsDecoded(cfg: Config, v: View, msg: seq<bv8>)
    requires cfg.Valid() && |msg| == LONG_MSG_BYTES && Df(msg) == 11 && Top17(Parity(ShortPart(msg))) == 0
    ensures var addr, iid := Icao(Announced(msg)), Iid(Parity(ShortPart(msg)));
      Decoded(cfg, v, msg) == if iid == 0 || v.Knows(addr) then Some(Message(11, addr, 0, iid)) else None
  {
    hide Parity, Df, Corrected, Announced, Icao, NonTransponder, AllZeros, Score, Iid, Top17;
    UndamagedIsUnchanged(cfg, msg);
    NotAllZeros(cfg, msg);
    AcceptedExactly(cfg, v, msg);
    AnnouncedInPart(msg);
  }

  lemma AnnouncedInPart(msg: seq<bv8>)
    requires |msg| == LONG_MSG_BYTES
    ensures Announced(ShortPart(msg)) == Announced(msg)
  {
  }

  /** A DF11 message with a single error before the place of the identifier is decoded, with the address
      that was sent, exactly if its sender is known. */
  lemma DamagedReplyIsDecoded(cfg: Config, v: View, sent: seq<bv8>, k: nat, msg: seq<bv8>)
    requires cfg.Valid() && cfg.fixBits != 0 && |sent| == SHORT_MSG_BYTES && Df(sent) == 11 && Parity(sent) == 0
    requires k < PLAIN_BITS && |msg| == LONG_MSG_BYTES && msg[..SHORT_MSG_BYTES] == Flips(sent, [k])
    requires LooksShort(cfg, msg)
    ensures var addr, d := Icao(Announced(sent)), Decoded(cfg, v, msg);
      && (d.Some? <==> v.Knows(addr))
      && (d.Some? ==> d.value.msgtype == 11 && d.value.addr == addr && d.value.correctedbits == 1)
  {
    hide Parity, Df, Corrected, Announced, Icao, NonTransponder, AllZeros, Score, Iid, Top17, Flips, LooksShort,
      Distance;
    DamagedReplyIsRepaired(cfg, sent, k, msg);
    AcceptedExactly(cfg, v, msg);
    if AllZeros(msg) {
      ZerosHaveDf0(msg);
      SameDf(msg, msg[..SHORT_MSG_BYTES]);
      DfAfterErrors(sent, [k], 11);
      ElevenIsFar();
    }
  }

  lemma ElevenIsFar()
    ensures Distance(0, 11) == 3 && Distance(11, 11) == 0
  {
  }
}
