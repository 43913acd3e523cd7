/** correctMessage (mode_s.c): repair a received message into a DF11, DF17 or DF18 message,
    damage to the downlink format included. */
module MessageCorrection {
  import opened Bits
  import opened Checksum
  import opened DfBitsets
  import opened ErrorPatterns
  import opened ErrorTable
  import opened ErrorCorrection
  import opened Fields
  import opened Lookup
  import opened Options

  /** The settings correctMessage and scoreModesMessage look at. `fixBits` is the argument
      modesChecksumInit was called with. */
  datatype Config = Config(fixDf: bool, nfixCrc: nat, fixBits: int, enableDf24: bool) {
    predicate Valid() {
      nfixCrc <= MAX_BITERRORS
    }

    /** How many errors in the DF field are worth repairing. */
    function FixDfBits(): nat {
      if fixDf then nfixCrc else 0
    }
  }

  /** Inverting one bit moves the downlink format by at most one position. */
  lemma DfAfterFlip(msg: seq<bv8>, k: nat, df: nat)
    requires |msg| > 0 && k < 8 * |msg|
    ensures Distance(Df(FlipBit(msg, k)), df) <= Distance(Df(msg), df) + 1
    ensures Distance(Df(msg), df) <= Distance(Df(FlipBit(msg, k)), df) + 1
  {
    var r := FlipBit(msg, k);
    forall j: nat | j < 5 ensures Bit(r, j) == if j == k then !Bit(msg, j) else Bit(msg, j) {
      FlipBitAt(msg, k, j);
    }
    hide Bit, FlipBit;
    DfDigitsAre(msg);
    DfDigitsAre(r);
  }

  lemma DfDigitsAre(msg: seq<bv8>)
    requires |msg| > 0
    ensures var d := Df(msg);
      && (d % 2 == 1) == Bit(msg, 4) && (d / 2 % 2 == 1) == Bit(msg, 3) && (d / 4 % 2 == 1) == Bit(msg, 2)
      && (d / 8 % 2 == 1) == Bit(msg, 1) && (d / 16 % 2 == 1) == Bit(msg, 0)
  {
    hide Bit;
    DfDigits(msg);
  }

  lemma {:induction false} DfAfterFlips(msg: seq<bv8>, p: seq<nat>, df: nat)
    requires |msg| > 0 && Within(p, 0, 8 * |msg|)
    ensures Distance(Df(msg), df) <= Distance(Df(Flips(msg, p)), df) + |p|
  {
    hide Distance, Df, FlipBit;
    if p != [] {
      var q := p[..|p| - 1];
      DfAfterFlips(msg, q, df);
      DfAfterFlip(Flips(msg, q), p[|p| - 1], df);
    }
  }

  // ---- What correctMessage decides -------------------------------------------------------

  predicate IsLongPI(msg: seq<bv8>)
    requires |msg| > 0
  {
    Df(msg) == 17 || Df(msg) == 18
  }

  predicate IsShortPI(msg: seq<bv8>)
    requires |msg| > 0
  {
    Df(msg) == 11
  }

  /** The top 17 bits of a syndrome; the low 7 may hold an interrogator identifier. */
  function Top17(syndrome: bv24): bv24 {
    syndrome & 0xffff80
  }

  datatype Outcome =
    | Long(corrections: nat, message: seq<bv8>)    // a DF17 or DF18 message
    | Short(corrections: nat, message: seq<bv8>)   // a DF11 message, 7 bytes
    | Uncorrected

  function Errors(d: Option<ErrorInfo>): int {
    if d.Some? then d.value.errors else 999
  }

  ghost function LongDiagnosis(fixBits: int, msg: seq<bv8>): Option<ErrorInfo> {
    Diagnosis(Parity(msg), LONG_MSG_BITS, MaxCorrect(fixBits), MaxDetect(fixBits))
  }

  ghost function ShortDiagnosis(fixBits: int, msg: seq<bv8>): Option<ErrorInfo>
    requires |msg| >= SHORT_MSG_BYTES
  {
    Diagnosis(Parity(msg[..SHORT_MSG_BYTES]), SHORT_MSG_BITS, MaxCorrect(fixBits), MaxDetect(fixBits))
  }

  /** The long message repaired by d, if that makes it a DF17 or DF18 message. */
  ghost function LongRepair(msg: seq<bv8>, d: Option<ErrorInfo>): Option<seq<bv8>>
    requires |msg| == LONG_MSG_BYTES
  {
    if d.Some? && Applicable(d.value, LONG_MSG_BITS) && IsLongPI(Fixed(msg, d)) then Some(Fixed(msg, d)) else None
  }

  ghost function ShortRepair(msg: seq<bv8>, d: Option<ErrorInfo>): Option<seq<bv8>>
    requires |msg| == SHORT_MSG_BYTES
  {
    if d.Some? && Applicable(d.value, SHORT_MSG_BITS) && IsShortPI(Fixed(msg, d)) then Some(Fixed(msg, d)) else None
  }

  /** If both corrections are possible, the one with fewer errors is tried first; a tie goes
      to the long message. */
  ghost function Repaired(msg: seq<bv8>, ld: Option<ErrorInfo>, sd: Option<ErrorInfo>): Outcome
    requires |msg| == LONG_MSG_BYTES
  {
    var lr, sr := LongRepair(msg, ld), ShortRepair(msg[..SHORT_MSG_BYTES], sd);
    if lr.Some? && 0 <= Errors(ld) <= Errors(sd) then Long(Errors(ld), lr.value)
    else if sr.Some? && Errors(sd) == 1 then Short(1, sr.value)
    else if lr.Some? && 0 <= Errors(ld) then Long(Errors(ld), lr.value)
    else Uncorrected
  }

  /** The decision, given which of the two checksums are looked at at all. */
  ghost function Decide(fixBits: int, msg: seq<bv8>, lookLong: bool, lookShort: bool): (o: Outcome)
    requires |msg| == LONG_MSG_BYTES
  {
    var short := msg[..SHORT_MSG_BYTES];
    if lookLong && IsLongPI(msg) && Parity(msg) == 0 then Long(0, msg)
    else if lookShort && IsShortPI(msg) && Top17(Parity(short)) == 0 then Short(0, short)
    else Repaired(msg, if lookLong then LongDiagnosis(fixBits, msg) else None,
                       if lookShort then ShortDiagnosis(fixBits, msg) else None)
  }

  predicate LooksLong(cfg: Config, msg: seq<bv8>)
    requires cfg.Valid() && |msg| > 0
  {
    DfDigits(msg);
    InBitset(DF_CORRECTABLE_LONG[cfg.FixDfBits()], Df(msg))
  }

  predicate LooksShort(cfg: Config, msg: seq<bv8>)
    requires cfg.Valid() && |msg| > 0
  {
    DfDigits(msg);
    InBitset(DF_CORRECTABLE_SHORT[cfg.FixDfBits()], Df(msg))
  }

  /** What correctMessage returns: the bitsets decide which checksums are looked at. */
  ghost function Corrected(cfg: Config, msg: seq<bv8>): Outcome
    requires cfg.Valid() && |msg| == LONG_MSG_BYTES
  {
    Decide(cfg.fixBits, msg, LooksLong(cfg, msg), LooksShort(cfg, msg))
  }

  // ---- Soundness ---------------------------------------------------------------------------

  /** m2 differs from m1 in exactly n bits. */
  ghost predicate DiffersInBits(m1: seq<bv8>, m2: seq<bv8>, n: nat) {
    exists p: seq<nat> :: IsPattern(p, 8 * |m1|) && |p| == n && m2 == Flips(m1, p)
  }

  lemma FixDiffers(msg: seq<bv8>, d: Option<ErrorInfo>, maxCorrect: nat, maxDetect: nat)
    requires maxCorrect <= MAX_BITERRORS
    requires d == Diagnosis(Parity(msg), 8 * |msg|, maxCorrect, maxDetect) && d.Some?
    ensures Applicable(d.value, 8 * |msg|) && 0 <= d.value.errors <= maxCorrect
    ensures DiffersInBits(msg, Fixed(msg, d), d.value.errors)
    ensures Parity(Fixed(msg, d)) == 0
  {
    hide Parity;
    DiagnosisShape(Parity(msg), 8 * |msg|, maxCorrect, maxDetect);
    RepairIsValid(msg, maxCorrect, maxDetect);
    assert Fixed(msg, d) == Flips(msg, PatternOf(d.value));
  }

  ghost predicate Sound(fixBits: int, msg: seq<bv8>, o: Outcome)
    requires |msg| == LONG_MSG_BYTES
  {
    match o
    case Long(n, m) =>
      && |m| == LONG_MSG_BYTES && (Df(m) == 17 || Df(m) == 18) && Parity(m) == 0
      && n <= MaxCorrect(fixBits) && DiffersInBits(msg, m, n)
    case Short(n, m) =>
      && |m| == SHORT_MSG_BYTES && Df(m) == 11 && Top17(Parity(m)) == 0
      && n <= 1 && (n == 1 ==> Parity(m) == 0) && DiffersInBits(msg[..SHORT_MSG_BYTES], m, n)
    case Uncorrected => true
  }

  /** A repaired message is what it claims to be and differs from the input in exactly the
      reported number of bits. */
  lemma CorrectionIsSound(fixBits: int, msg: seq<bv8>, lookLong: bool, lookShort: bool)
    requires |msg| == LONG_MSG_BYTES
    ensures Sound(fixBits, msg, Decide(fixBits, msg, lookLong, lookShort))
  {
    hide Parity, Df, Diagnosis;
    var short := msg[..SHORT_MSG_BYTES];
    SameDf(msg, short);
    NoErrorsNoDifference(msg);
    NoErrorsNoDifference(short);
    assert Top17(0) == 0;
    if LongDiagnosis(fixBits, msg).Some? {
      FixDiffers(msg, LongDiagnosis(fixBits, msg), MaxCorrect(fixBits), MaxDetect(fixBits));
    }
    if ShortDiagnosis(fixBits, msg).Some? {
      FixDiffers(short, ShortDiagnosis(fixBits, msg), MaxCorrect(fixBits), MaxDetect(fixBits));
    }
  }

  /** The same for correctMessage as it is configured. */
  lemma CorrectedIsSound(cfg: Config, msg: seq<bv8>)
    requires cfg.Valid() && |msg| == LONG_MSG_BYTES
    ensures Sound(cfg.fixBits, msg, Corrected(cfg, msg))
  {
    hide Sound, Decide;
    CorrectionIsSound(cfg.fixBits, msg, LooksLong(cfg, msg), LooksShort(cfg, msg));
  }

  /** An undamaged DF17 or DF18 message, and an undamaged DF11 message, are left alone. */
  lemma UndamagedIsUnchanged(cfg: Config, msg: seq<bv8>)
    requires cfg.Valid() && |msg| == LONG_MSG_BYTES
    ensures IsLongPI(msg) && Parity(msg) == 0 ==> Corrected(cfg, msg) == Long(0, msg)
    ensures IsShortPI(msg) && Top17(Parity(msg[..SHORT_MSG_BYTES])) == 0
        ==> Corrected(cfg, msg) == Short(0, msg[..SHORT_MSG_BYTES])
  {
    hide Parity, Df;
    SelfDistance();
    DfDigits(msg);
    BitsetsAreBalls(cfg.FixDfBits(), Df(msg));
  }

  lemma NoErrorsNoDifference(msg: seq<bv8>)
    ensures DiffersInBits(msg, msg, 0)
  {
    assert Flips(msg, []) == msg;
  }

  // ---- Transparency of the bitsets ---------------------------------------------------------

  lemma FarFromLong(fixBits: int, msg: seq<bv8>, k: nat)
    requires |msg| == LONG_MSG_BYTES && MaxCorrect(fixBits) <= k && !NearLong(Df(msg), k)
    ensures !IsLongPI(msg) && LongRepair(msg, LongDiagnosis(fixBits, msg)) == None
  {
    hide Parity, Df, Distance;
    SelfDistance();
    var d := LongDiagnosis(fixBits, msg);
    DiagnosisShape(Parity(msg), LONG_MSG_BITS, MaxCorrect(fixBits), MaxDetect(fixBits));
    if d.Some? {
      DfAfterFlips(msg, PatternOf(d.value), 17);
      DfAfterFlips(msg, PatternOf(d.value), 18);
    }
  }

  lemma FarFromShort(fixBits: int, msg: seq<bv8>, k: nat)
    requires |msg| == LONG_MSG_BYTES && MaxCorrect(fixBits) <= k && !NearShort(Df(msg), k)
    ensures !IsShortPI(msg)
    ensures var d := ShortDiagnosis(fixBits, msg);
      Errors(d) == 1 ==> ShortRepair(msg[..SHORT_MSG_BYTES], d) == None
  {
    var short := msg[..SHORT_MSG_BYTES];
    SameDf(msg, short);
    hide Parity, Df, Distance;
    SelfDistance();
    var d := ShortDiagnosis(fixBits, msg);
    DiagnosisShape(Parity(short), SHORT_MSG_BITS, MaxCorrect(fixBits), MaxDetect(fixBits));
    if d.Some? {
      DfAfterFlips(short, PatternOf(d.value), 11);
    }
  }

  lemma SameDf(msg: seq<bv8>, short: seq<bv8>)
    requires 0 < |short| <= |msg| && short == msg[..|short|]
    ensures Df(msg) == Df(short)
  {
    FieldDependsOnBits(msg, short, 1, 5);
  }

  lemma SelfDistance()
    ensures Distance(11, 11) == 0 && Distance(17, 17) == 0 && Distance(18, 18) == 0
  {
  }

  /** With DF fixing on, consulting the bitsets changes nothing: the outcome is the one that
      always computing both checksums would give. */
  lemma BitsetsAreTransparent(cfg: Config, msg: seq<bv8>)
    requires cfg.Valid() && |msg| == LONG_MSG_BYTES
    requires cfg.fixDf && MaxCorrect(cfg.fixBits) <= cfg.nfixCrc
    ensures Corrected(cfg, msg) == Decide(cfg.fixBits, msg, true, true)
  {
    hide Parity, Df, Diagnosis, NearLong, NearShort, InBitset, ShortDiagnosis, LongDiagnosis;
    var k, short := cfg.FixDfBits(), msg[..SHORT_MSG_BYTES];
    DfDigits(msg);
    BitsetsAreBalls(k, Df(msg));
    SameDf(msg, short);
    var ld, sd := LongDiagnosis(cfg.fixBits, msg), ShortDiagnosis(cfg.fixBits, msg);
    if !NearLong(Df(msg), k) {
      FarFromLong(cfg.fixBits, msg, k);
    }
    if !NearShort(Df(msg), k) {
      FarFromShort(cfg.fixBits, msg, k);
    }
    ErrorsAreSmall(cfg.fixBits, msg);
  }

  lemma ErrorsAreSmall(fixBits: int, msg: seq<bv8>)
    requires |msg| == LONG_MSG_BYTES
    ensures var ld, sd := LongDiagnosis(fixBits, msg), ShortDiagnosis(fixBits, msg);
      && (ld.Some? ==> 0 <= Errors(ld) <= 2 && Applicable(ld.value, LONG_MSG_BITS))
      && (sd.Some? ==> 0 <= Errors(sd) <= 2 && Applicable(sd.value, SHORT_MSG_BITS))
  {
    hide Parity, Diagnosis;
    DiagnosisShape(Parity(msg), LONG_MSG_BITS, MaxCorrect(fixBits), MaxDetect(fixBits));
    DiagnosisShape(Parity(msg[..SHORT_MSG_BYTES]), SHORT_MSG_BITS, MaxCorrect(fixBits), MaxDetect(fixBits));
  }

  // ---- The routine itself -------------------------------------------------------------------

  method Memcpy(out: array<bv8>, inp: array<bv8>, n: nat)
    requires n <= out.Length && n <= inp.Length && out != inp
    modifies out
    ensures out[..n] == inp[..n] && out[n..] == old(out[n..])
  {
    for i := 0 to n
      invariant out[..i] == inp[..i] && out[i..] == old(out[i..])
    {
      out[i] := inp[i];
    }
  }

  /** A syndrome of None stands for UNCHECKED_SYNDROME. A DF11 result fills the first seven
      bytes of `out` only; what the other seven hold is not part of the message. */
  method CorrectMessage(cfg: Config, corrector: Corrector, inp: array<bv8>, out: array<bv8>)
    returns (result: int, shortSyndrome: Option<bv24>, longSyndrome: Option<bv24>)
    requires cfg.Valid() && corrector.Valid() && corrector.fixBits == cfg.fixBits
    requires inp.Length == LONG_MSG_BYTES && out.Length == LONG_MSG_BYTES && inp != out
    modifies out
    ensures match Corrected(cfg, inp[..])
      case Long(n, m) => result == n && out[..] == m
      case Short(n, m) => result == n && out[..SHORT_MSG_BYTES] == m
      case Uncorrected => result == -1 && out[..] == inp[..]
    ensures longSyndrome.Some? ==> longSyndrome.value == Parity(inp[..])
    ensures shortSyndrome.Some? ==> shortSyndrome.value == Parity(inp[..SHORT_MSG_BYTES])
    ensures Corrected(cfg, inp[..]).Short? ==> shortSyndrome.Some?
  {
    hide Parity, Df, Diagnosis, LooksLong, LooksShort, Repaired, Top17, Ready, Complete,
      Applicable, Tables.CrcTableReady, Tables.SyndromesReady;
    ghost var msg := inp[..];
    ghost var short := msg[..SHORT_MSG_BYTES];
    longSyndrome, shortSyndrome := None, None;
    ErrorsAreSmall(cfg.fixBits, msg);

    var longEi: Option<ErrorInfo> := None;
    if LooksLong(cfg, inp[..]) {
      var s := corrector.tables.ModesChecksum(inp, LONG_MSG_BITS);
      assert inp[..LONG_MSG_BYTES] == msg;
      longSyndrome := Some(s);
      if IsLongPI(inp[..]) && s == 0 {
        Memcpy(out, inp, LONG_MSG_BYTES);
        assert out[..] == out[..LONG_MSG_BYTES];
        return 0, shortSyndrome, longSyndrome;
      }
      longEi := corrector.Diagnose(s, LONG_MSG_BITS);
    }

    var shortEi: Option<ErrorInfo> := None;
    if LooksShort(cfg, inp[..]) {
      var s := corrector.tables.ModesChecksum(inp, SHORT_MSG_BITS);
      assert inp[..SHORT_MSG_BYTES] == short;
      shortSyndrome := Some(s);
      if IsShortPI(inp[..]) && Top17(s) == 0 {
        Memcpy(out, inp, SHORT_MSG_BYTES);
        return 0, shortSyndrome, longSyndrome;
      }
      shortEi := corrector.Diagnose(s, SHORT_MSG_BITS);
    }

    assert Repaired(msg, longEi, None).Short? == false by { NoShortRepair(msg, longEi); }
    result := TryRepairs(inp, out, longEi, shortEi);
  }

  lemma NoShortRepair(msg: seq<bv8>, ld: Option<ErrorInfo>)
    requires |msg| == LONG_MSG_BYTES
    ensures !Repaired(msg, ld, None).Short?
  {
  }

  method TryRepairs(inp: array<bv8>, out: array<bv8>, longEi: Option<ErrorInfo>, shortEi: Option<ErrorInfo>)
    returns (result: int)
    requires inp.Length == LONG_MSG_BYTES && out.Length == LONG_MSG_BYTES && inp != out
    requires longEi.Some? ==> 0 <= Errors(longEi) <= 2 && Applicable(longEi.value, LONG_MSG_BITS)
    requires shortEi.Some? ==> 0 <= Errors(shortEi) <= 2 && Applicable(shortEi.value, SHORT_MSG_BITS)
    modifies out
    ensures match Repaired(inp[..], longEi, shortEi)
      case Long(n, m) => result == n && out[..] == m
      case Short(n, m) => result == n && out[..SHORT_MSG_BYTES] == m
      case Uncorrected => result == -1 && out[..] == inp[..]
  {
    hide LongRepair, ShortRepair;
    var longErrors, shortErrors := Errors(longEi), Errors(shortEi);
    MissingRepairs(inp[..]);
    if longEi.Some? && longErrors <= shortErrors {
      var valid := TryLong(inp, out, longEi);
      if valid {
        return longErrors;
      }
    }
    // more than one error in DF11 is never corrected
    if shortEi.Some? && shortErrors == 1 {
      var valid := TryShort(inp, out, shortEi);
      if valid {
        return shortErrors;
      }
    }
    if longEi.Some? && longErrors > shortErrors {
      var valid := TryLong(inp, out, longEi);
      if valid {
        return longErrors;
      }
    }
    Memcpy(out, inp, LONG_MSG_BYTES);
    assert out[..] == out[..LONG_MSG_BYTES] && inp[..] == inp[..LONG_MSG_BYTES];
    result := -1;
  }

  lemma MissingRepairs(msg: seq<bv8>)
    requires |msg| == LONG_MSG_BYTES
    ensures LongRepair(msg, None) == None && ShortRepair(msg[..SHORT_MSG_BYTES], None) == None
  {
  }

  method TryLong(inp: array<bv8>, out: array<bv8>, ei: Option<ErrorInfo>) returns (valid: bool)
    requires inp.Length == LONG_MSG_BYTES && out.Length == LONG_MSG_BYTES && inp != out
    requires ei.Some? && Applicable(ei.value, LONG_MSG_BITS)
    modifies out
    ensures valid <==> LongRepair(inp[..], ei).Some?
    ensures valid ==> out[..] == LongRepair(inp[..], ei).value
  {
    Memcpy(out, inp, LONG_MSG_BYTES);
    assert out[..] == out[..LONG_MSG_BYTES] && inp[..] == inp[..LONG_MSG_BYTES];
    ModesChecksumFix(out, ei);
    valid := IsLongPI(out[..]);
  }

  method TryShort(inp: array<bv8>, out: array<bv8>, ei: Option<ErrorInfo>) returns (valid: bool)
    requires inp.Length == LONG_MSG_BYTES && out.Length == LONG_MSG_BYTES && inp != out
    requires ei.Some? && Applicable(ei.value, SHORT_MSG_BITS)
    modifies out
    ensures valid <==> ShortRepair(inp[..SHORT_MSG_BYTES], ei).Some?
    ensures valid ==> out[..SHORT_MSG_BYTES] == ShortRepair(inp[..SHORT_MSG_BYTES], ei).value
  {
    hide Df;
    Memcpy(out, inp, SHORT_MSG_BYTES);
    ghost var copied := out[..];
    ModesChecksumFix(out, ei);
    FlipsOfPrefix(copied, SHORT_MSG_BYTES, PatternOf(ei.value));
    SameDf(out[..], out[..SHORT_MSG_BYTES]);
    assert copied[..SHORT_MSG_BYTES] == inp[..SHORT_MSG_BYTES];
    valid := IsShortPI(out[..]);
  }

  /** Repairs within a prefix stay in the prefix. */
  lemma {:induction false} FlipsOfPrefix(msg: seq<bv8>, n: nat, p: seq<nat>)
    requires n <= |msg| && Within(p, 0, 8 * n)
    ensures Flips(msg, p)[..n] == Flips(msg[..n], p)
  {
    hide Mask;
    if p != [] {
      FlipsOfPrefix(msg, n, p[..|p| - 1]);
    }
  }
}
