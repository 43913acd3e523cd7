/** Which messages are accepted, and what makes an address trusted: scoreModesMessage and the
    acceptance, address and filter parts of decodeModesMessage (mode_s.c). */
module Acceptance {
  import opened Bits
  import opened Checksum
  import opened MessageCorrection
  import opened ErrorCorrection
  import opened Fields
  import opened IcaoFilter
  import opened Lookup
  import opened Options

  // ---- Ranks ---------------------------------------------------------------------------

  /** score_rank, worst first. */
  datatype Rank =
    | NOT_SET
    | ALL_ZEROS | UNKNOWN_DF | UNCORRECTABLE
    | UNKNOWN_THRESHOLD
    | UNRELIABLE_UNKNOWN
    | DF11_IID_1ERROR_UNKNOWN | DF11_ACQ_1ERROR_UNKNOWN | DF11_IID_UNKNOWN
    | DF18_2ERROR_UNKNOWN | DF17_2ERROR_UNKNOWN
    | ACCEPT_THRESHOLD
    | UNRELIABLE_KNOWN
    | DF18_2ERROR_KNOWN | DF17_2ERROR_KNOWN
    | DF18_1ERROR_UNKNOWN | DF17_1ERROR_UNKNOWN
    | DF11_ACQ_UNKNOWN
    | DF11_IID_1ERROR_KNOWN | DF11_ACQ_1ERROR_KNOWN | DF11_IID_KNOWN
    | DF18_1ERROR_KNOWN | DF17_1ERROR_KNOWN
    | DF11_ACQ_KNOWN
    | DF18_UNKNOWN | DF17_UNKNOWN | DF18_KNOWN | DF17_KNOWN
  {
    function Ord(): nat {
      match this
      case NOT_SET => 0
      case ALL_ZEROS => 1
      case UNKNOWN_DF => 2
      case UNCORRECTABLE => 3
      case UNKNOWN_THRESHOLD => 4
      case UNRELIABLE_UNKNOWN => 5
      case DF11_IID_1ERROR_UNKNOWN => 6
      case DF11_ACQ_1ERROR_UNKNOWN => 7
      case DF11_IID_UNKNOWN => 8
      case DF18_2ERROR_UNKNOWN => 9
      case DF17_2ERROR_UNKNOWN => 10
      case ACCEPT_THRESHOLD => 11
      case UNRELIABLE_KNOWN => 12
      case DF18_2ERROR_KNOWN => 13
      case DF17_2ERROR_KNOWN => 14
      case DF18_1ERROR_UNKNOWN => 15
      case DF17_1ERROR_UNKNOWN => 16
      case DF11_ACQ_UNKNOWN => 17
      case DF11_IID_1ERROR_KNOWN => 18
      case DF11_ACQ_1ERROR_KNOWN => 19
      case DF11_IID_KNOWN => 20
      case DF18_1ERROR_KNOWN => 21
      case DF17_1ERROR_KNOWN => 22
      case DF11_ACQ_KNOWN => 23
      case DF18_UNKNOWN => 24
      case DF17_UNKNOWN => 25
      case DF18_KNOWN => 26
      case DF17_KNOWN => 27
    }

    predicate Acceptable() {
      Ord() >= ACCEPT_THRESHOLD.Ord()
    }
  }

  // ---- Addresses -----------------------------------------------------------------------

  /** getbits(msg, 9, 32): three whole bytes. */
  function Announced(msg: seq<bv8>): bv24
    requires |msg| >= 4
  {
    ((msg[1] as bv24) << 16) | ((msg[2] as bv24) << 8) | (msg[3] as bv24)
  }

  /** An address as the filter stores it. */
  function Icao(a: bv24): bv32 {
    a as bv32
  }

  /** ICAO_FILTER_ADSB_NT is bit 25. */
  function WithBit25(x: bv32): bv32 {
    x | 0x2000000
  }

  /** The entry of a non-transponder device. */
  function NonTransponder(a: bv24): bv32 {
    WithBit25(Icao(a))
  }

  lemma AddressRaw(a: bv24)
    ensures (a as bv32) & 0x2000000 == 0
    ensures ((a as bv32) | 0x2000000) & 0x2000000 == 0x2000000
    ensures (a as bv32) & 0x1000000 == 0 && ((a as bv32) | 0x2000000) & 0x1000000 == 0
  {
  }

  /** The two kinds of entries never meet, and neither is the empty marker. */
  lemma AddressKinds(a: bv24, b: bv24)
    ensures Icao(a) != NonTransponder(b)
    ensures Icao(a) != EMPTY && NonTransponder(a) != EMPTY
  {
    AddressRaw(a);
    AddressRaw(b);
  }

  /** The interrogator identifier: the low 7 bits of a DF11 syndrome. */
  function Iid(syndrome: bv24): bv24 {
    syndrome & 0x7f
  }

  // ---- Scoring and decoding, as functions of what the filter knows -----------------------

  function Pick(known: bool, yes: Rank, no: Rank): Rank {
    if known then yes else no
  }

  function ShortPart(msg: seq<bv8>): seq<bv8>
    requires |msg| == LONG_MSG_BYTES
  {
    msg[..SHORT_MSG_BYTES]
  }

  predicate AllZeros(msg: seq<bv8>)
    requires |msg| == LONG_MSG_BYTES
  {
    forall i :: 0 <= i < SHORT_MSG_BYTES ==> msg[i] == 0
  }

  /** The rank of a message that no correction applies to. */
  function UncorrectedRank(cfg: Config, v: View, msg: seq<bv8>): Rank
    requires |msg| == LONG_MSG_BYTES
  {
    var df := Df(msg);
    if df == 0 || df == 4 || df == 5 then
      Pick(v.Knows(Icao(Parity(ShortPart(msg)))), UNRELIABLE_KNOWN, UNRELIABLE_UNKNOWN)
    else if df == 16 || df == 20 || df == 21 then
      Pick(v.Knows(Icao(Parity(msg))), UNRELIABLE_KNOWN, UNRELIABLE_UNKNOWN)
    else if 24 <= df <= 31 then
      if !cfg.enableDf24 then UNCORRECTABLE
      else Pick(v.Knows(Icao(Parity(msg))), UNRELIABLE_KNOWN, UNRELIABLE_UNKNOWN)
    else if df == 11 || df == 17 || df == 18 then UNCORRECTABLE
    else UNKNOWN_DF
  }

  function Df11Rank(known: bool, corrections: nat, iid: bv24): Rank {
    match corrections
    case 0 => if iid == 0 then Pick(known, DF11_ACQ_KNOWN, DF11_ACQ_UNKNOWN)
              else Pick(known, DF11_IID_KNOWN, DF11_IID_UNKNOWN)
    case 1 => if iid == 0 then Pick(known, DF11_ACQ_1ERROR_KNOWN, DF11_ACQ_1ERROR_UNKNOWN)
              else Pick(known, DF11_IID_1ERROR_KNOWN, DF11_IID_1ERROR_UNKNOWN)
    case _ => UNCORRECTABLE
  }

  function Df17Rank(known: bool, corrections: nat): Rank {
    match corrections
    case 0 => Pick(known, DF17_KNOWN, DF17_UNKNOWN)
    case 1 => Pick(known, DF17_1ERROR_KNOWN, DF17_1ERROR_UNKNOWN)
    case 2 => Pick(known, DF17_2ERROR_KNOWN, DF17_2ERROR_UNKNOWN)
    case _ => UNCORRECTABLE
  }

  function Df18Rank(known: bool, corrections: nat): Rank {
    match corrections
    case 0 => Pick(known, DF18_KNOWN, DF18_UNKNOWN)
    case 1 => Pick(known, DF18_1ERROR_KNOWN, DF18_1ERROR_UNKNOWN)
    case 2 => Pick(known, DF18_2ERROR_KNOWN, DF18_2ERROR_UNKNOWN)
    case _ => UNCORRECTABLE
  }

  function RankOf(cfg: Config, v: View, msg: seq<bv8>, o: Outcome): Rank
    requires |msg| == LONG_MSG_BYTES
    requires o.Long? ==> |o.message| == LONG_MSG_BYTES
    requires o.Short? ==> |o.message| == SHORT_MSG_BYTES
  {
    match o
    case Long(n, m) =>
      if Df(m) == 17 then Df17Rank(v.Knows(Icao(Announced(m))), n)
      else Df18Rank(v.Knows(NonTransponder(Announced(m))), n)
    case Short(n, m) => Df11Rank(v.Knows(Icao(Announced(m))), n, Iid(Parity(ShortPart(msg))))
    case Uncorrected => UncorrectedRank(cfg, v, msg)
  }

  ghost predicate SizesFit(o: Outcome) {
    (o.Long? ==> |o.message| == LONG_MSG_BYTES) && (o.Short? ==> |o.message| == SHORT_MSG_BYTES)
  }

  /** scoreModesMessage */
  ghost function Score(cfg: Config, v: View, msg: seq<bv8>): Rank
    requires cfg.Valid() && |msg| == LONG_MSG_BYTES
  {
    CorrectedIsSound(cfg, msg);
    if AllZeros(msg) then ALL_ZEROS else RankOf(cfg, v, msg, Corrected(cfg, msg))
  }

  /** The IMF bit of a TIS-B or ADS-R message, where its extended squitter type has one. */
  predicate Imf(msg: seq<bv8>)
    requires |msg| == LONG_MSG_BYTES
  {
    var metype := Field(msg, 33, 37);
    if metype == 19 then 1 <= Field(msg, 38, 40) <= 4 && GetBit(msg, 41)
    else if 5 <= metype <= 8 then GetBit(msg, 53)
    else if metype == 0 || 9 <= metype <= 18 || 20 <= metype <= 22 then GetBit(msg, 40)
    else if metype == 28 then Field(msg, 38, 40) == 1 && GetBit(msg, 88)
    else if metype == 29 then GetBit(msg, 83)
    else metype == 31 && GetBit(msg, 88)
  }

  /** Whether the address of a DF18 message is marked as not an ICAO address, by its format
      (CF) and IMF bit. */
  predicate NonIcao(msg: seq<bv8>)
    requires |msg| == LONG_MSG_BYTES
  {
    var cf := Field(msg, 6, 8);
    if cf == 0 then false
    else if cf == 2 || cf == 6 then Imf(msg)
    else if cf == 3 then GetBit(msg, 33)
    else true
  }

  /** The address of an extended squitter; MODES_NON_ICAO_ADDRESS is bit 24. */
  function SquitterAddress(msg: seq<bv8>): bv32
    requires |msg| == LONG_MSG_BYTES
  {
    if Df(msg) == 18 && NonIcao(msg) then Icao(Announced(msg)) | 0x1000000 else Icao(Announced(msg))
  }

  /** The parts of struct modesMessage that acceptance and trust depend on. */
  datatype Message = Message(msgtype: nat, addr: bv32, correctedbits: nat, iid: bv24)

  /** What decodeModesMessage makes of a message whose score it does not reject; a type it
      does not know is rejected all the same. */
  function DecodedAs(msg: seq<bv8>, o: Outcome): Option<Message>
    requires |msg| == LONG_MSG_BYTES
    requires o.Long? ==> |o.message| == LONG_MSG_BYTES
    requires o.Short? ==> |o.message| == SHORT_MSG_BYTES
  {
    var short := Parity(ShortPart(msg));
    match o
    case Long(n, m) => Some(Message(Df(m), SquitterAddress(m), n, 0))
    case Short(n, m) => Some(Message(11, Icao(Announced(m)), n, Iid(short)))
    case Uncorrected =>
      var df := Df(msg);
      if df == 0 || df == 4 || df == 5 then Some(Message(df, Icao(short), 0, 0))
      else if df == 11 then Some(Message(11, Icao(Announced(msg)), 0, Iid(short)))
      else if df == 16 || df == 20 || df == 21 then Some(Message(df, Icao(Parity(msg)), 0, 0))
      else if df == 17 || df == 18 then Some(Message(df, SquitterAddress(msg), 0, 0))
      else if 24 <= df <= 31 then Some(Message(24, Icao(Parity(msg)), 0, 0))
      else None
  }

  /** decodeModesMessage: None if the message is rejected. */
  ghost function Decoded(cfg: Config, v: View, msg: seq<bv8>): Option<Message>
    requires cfg.Valid() && |msg| == LONG_MSG_BYTES
  {
    CorrectedIsSound(cfg, msg);
    if Score(cfg, v, msg).Acceptable() then DecodedAs(msg, Corrected(cfg, msg)) else None
  }

  /** The filter entry an accepted message leaves behind. */
  function Entry(m: Message): Option<bv32> {
    if m.correctedbits == 0 && (m.msgtype == 17 || (m.msgtype == 11 && m.iid == 0)) then Some(m.addr)
    else if m.correctedbits == 0 && m.msgtype == 18 then Some(WithBit25(m.addr))
    else None
  }

  // ---- Acceptance in plain terms ----------------------------------------------------------

  /** The message types whose address is inferred from the parity field. */
  predicate AddressParity(msgtype: nat) {
    msgtype in {0, 4, 5, 16, 20, 21, 24}
  }

  /** When a message is accepted, without reference to ranks. */
  ghost predicate Accepts(cfg: Config, v: View, msg: seq<bv8>)
    requires cfg.Valid() && |msg| == LONG_MSG_BYTES
  {
    CorrectedIsSound(cfg, msg);
    !AllZeros(msg) &&
    match Corrected(cfg, msg)
    case Long(n, m) =>
      n <= 1 || (n == 2 && v.Knows(if Df(m) == 17 then Icao(Announced(m)) else NonTransponder(Announced(m))))
    case Short(n, m) =>
      v.Knows(Icao(Announced(m))) || (n == 0 && Iid(Parity(ShortPart(msg))) == 0)
    case Uncorrected =>
      var df := Df(msg);
      || (df in {0, 4, 5} && v.Knows(Icao(Parity(ShortPart(msg)))))
      || (df in {16, 20, 21} && v.Knows(Icao(Parity(msg))))
      || (24 <= df && cfg.enableDf24 && v.Knows(Icao(Parity(msg))))
  }

  /** The threshold in the ordered enumeration accepts exactly these messages. */
  lemma AcceptedExactly(cfg: Config, v: View, msg: seq<bv8>)
    requires cfg.Valid() && |msg| == LONG_MSG_BYTES
    ensures Decoded(cfg, v, msg).Some? <==> Accepts(cfg, v, msg)
  {
    hide Parity, Df, AllZeros, Announced, Icao, NonTransponder, Iid, Corrected;
    CorrectedIsSound(cfg, msg);
    DfDigits(msg);
    assert MaxCorrect(cfg.fixBits) <= 2;
    match Corrected(cfg, msg)
    case Long(n, m) => LongRanks(v.Knows(Icao(Announced(m))), v.Knows(NonTransponder(Announced(m))), n);
    case Short(n, m) => ShortRanks(v.Knows(Icao(Announced(m))), n, Iid(Parity(ShortPart(msg))));
    case Uncorrected =>
      hide Rank.Ord;
      UncorrectedRanks(cfg, v, msg);
  }

  lemma LongRanks(known: bool, nonTransponderKnown: bool, n: nat)
    requires n <= 2
    ensures Df17Rank(known, n).Acceptable() <==> n <= 1 || known
    ensures Df18Rank(nonTransponderKnown, n).Acceptable() <==> n <= 1 || nonTransponderKnown
  {
  }

  lemma ShortRanks(known: bool, n: nat, iid: bv24)
    requires n <= 1
    ensures Df11Rank(known, n, iid).Acceptable() <==> known || (n == 0 && iid == 0)
  {
  }

  lemma UncorrectedRanks(cfg: Config, v: View, msg: seq<bv8>)
    requires |msg| == LONG_MSG_BYTES
    ensures var df := Df(msg);
      UncorrectedRank(cfg, v, msg).Acceptable() <==>
        || (df in {0, 4, 5} && v.Knows(Icao(Parity(ShortPart(msg)))))
        || (df in {16, 20, 21} && v.Knows(Icao(Parity(msg))))
        || (24 <= df && cfg.enableDf24 && v.Knows(Icao(Parity(msg))))
  {
    hide Parity, Df, Icao;
    DfDigits(msg);
  }

  /** An undamaged message is not all zeros. */
  lemma NotAllZeros(cfg: Config, msg: seq<bv8>)
    requires cfg.Valid() && |msg| == LONG_MSG_BYTES
    requires match Corrected(cfg, msg) case Long(n, m) => n == 0 case Short(n, m) => n == 0 case Uncorrected => false
    ensures !AllZeros(msg)
  {
    CorrectedIsSound(cfg, msg);
  }

  lemma ZerosHaveDf0(msg: seq<bv8>)
    requires |msg| == LONG_MSG_BYTES && AllZeros(msg)
    ensures Df(msg) == 0
  {
    DfDigits(msg);
    assert !Bit(msg, 0) && !Bit(msg, 1) && !Bit(msg, 2) && !Bit(msg, 3) && !Bit(msg, 4);
  }
}
