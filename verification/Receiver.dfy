/** scoreModesMessage and decodeModesMessage (mode_s.c) as they run: on byte arrays, with the
    error-correction tables and the address filter. */
module Receiver {
  import opened Acceptance
  import opened Checksum
  import opened MessageCorrection
  import opened ErrorCorrection
  import opened Fields
  import opened FilterHistory
  import opened IcaoFilter
  import opened Lookup
  import opened Options

  method IsAllZeros(msg: array<bv8>) returns (zero: bool)
    requires msg.Length == LONG_MSG_BYTES
    ensures zero == AllZeros(msg[..])
  {
    for i := 0 to SHORT_MSG_BYTES
      invariant forall k :: 0 <= k < i ==> msg[k] == 0
    {
      if msg[i] != 0 {
        assert msg[..][i] != 0;
        return false;
      }
    }
    zero := true;
  }

  method Known(filter: Filter, addr: bv32) returns (known: bool)
    requires filter.Valid() && addr != EMPTY
    ensures known == filter.Knowledge().Knows(addr)
  {
    known := filter.Test(addr);
  }

  /** The checksum of the first `bits` bits, unless it has been computed already. */
  method SyndromeOf(corrector: Corrector, msg: array<bv8>, bits: nat, checked: Option<bv24>) returns (s: bv24)
    requires corrector.tables.CrcTableReady() && bits % 8 == 0 && 3 <= bits / 8 <= msg.Length
    requires checked.Some? ==> checked.value == Parity(msg[..bits / 8])
    ensures s == Parity(msg[..bits / 8])
  {
    if checked.Some? {
      return checked.value;
    }
    s := corrector.tables.ModesChecksum(msg, bits);
  }

  /** The corrected message starts with what the outcome says it does. */
  lemma CorrectedFields(cfg: Config, msg: seq<bv8>, out: seq<bv8>)
    requires cfg.Valid() && |msg| == LONG_MSG_BYTES && |out| == LONG_MSG_BYTES
    requires match Corrected(cfg, msg)
      case Long(_, m) => out == m
      case Short(_, m) => out[..SHORT_MSG_BYTES] == m
      case Uncorrected => out == msg
    ensures match Corrected(cfg, msg)
      case Long(_, m) => (Df(out) == 17 || Df(out) == 18) && |m| == LONG_MSG_BYTES
      case Short(_, m) => Df(out) == 11 && |m| == SHORT_MSG_BYTES && Announced(out) == Announced(m)
      case Uncorrected => true
  {
    hide Corrected, Parity, Df;
    CorrectedIsSound(cfg, msg);
    if Corrected(cfg, msg).Short? {
      SameDf(out, out[..SHORT_MSG_BYTES]);
    }
  }

  method ScoreModesMessage(cfg: Config, corrector: Corrector, filter: Filter, uncorrected: array<bv8>) returns (r: Rank)
    requires cfg.Valid() && corrector.Valid() && corrector.fixBits == cfg.fixBits && filter.Valid()
    requires uncorrected.Length == LONG_MSG_BYTES
    ensures r == Score(cfg, filter.Knowledge(), uncorrected[..])
  {
    hide Parity, Df, AllZeros, Announced, Iid, Icao, NonTransponder, Ready, Probeable,
      Contents, Corrected, Tables.SyndromesReady;
    var zero := IsAllZeros(uncorrected);
    if zero {
      return ALL_ZEROS;
    }
    var corrected := new bv8[LONG_MSG_BYTES];
    var corrections, shortSyndrome, longSyndrome := CorrectMessage(cfg, corrector, uncorrected, corrected);
    CorrectedIsSound(cfg, uncorrected[..]);
    assert uncorrected[..LONG_MSG_BYTES] == uncorrected[..];
    r := RankCorrected(cfg, corrector, filter, corrected, corrections, shortSyndrome, longSyndrome, uncorrected[..]);
  }

  /** The ranking of a message whose correction is known. */
  method RankCorrected(cfg: Config, corrector: Corrector, filter: Filter, corrected: array<bv8>, corrections: int,
                       shortSyndrome: Option<bv24>, longSyndrome: Option<bv24>, ghost msg: seq<bv8>)
    returns (r: Rank)
    requires cfg.Valid() && corrector.tables.CrcTableReady() && filter.Valid()
    requires corrected.Length == LONG_MSG_BYTES == |msg|
    requires SizesFit(Corrected(cfg, msg))
    requires match Corrected(cfg, msg)
      case Long(n, m) => corrections == n && corrected[..] == m
      case Short(n, m) => corrections == n && corrected[..SHORT_MSG_BYTES] == m
      case Uncorrected => corrections == -1 && corrected[..] == msg
    requires longSyndrome.Some? ==> longSyndrome.value == Parity(msg)
    requires shortSyndrome.Some? ==> shortSyndrome.value == Parity(ShortPart(msg))
    requires Corrected(cfg, msg).Short? ==> shortSyndrome.Some?
    ensures r == RankOf(cfg, filter.Knowledge(), msg, Corrected(cfg, msg))
  {
    hide Parity, Df, Announced, Iid, Icao, NonTransponder, Probeable, Contents, Corrected, Tables.SyndromesReady;
    CorrectedFields(cfg, msg, corrected[..]);
    DfDigits(corrected[..]);
    assert corrected[..LONG_MSG_BYTES] == corrected[..];
    var df := Df(corrected[..]);
    if df == 0 || df == 4 || df == 5 {
      r := ScoreAddressParity(corrector, filter, corrected, SHORT_MSG_BITS, shortSyndrome);
    } else if df == 16 || df == 20 || df == 21 {
      r := ScoreAddressParity(corrector, filter, corrected, LONG_MSG_BITS, longSyndrome);
    } else if 24 <= df {
      if !cfg.enableDf24 {
        return UNCORRECTABLE;
      }
      r := ScoreAddressParity(corrector, filter, corrected, LONG_MSG_BITS, longSyndrome);
    } else if df == 11 {
      r := ScoreDf11(corrector, filter, corrected, corrections, shortSyndrome);
    } else if df == 17 {
      AddressKinds(Announced(corrected[..]), 0);
      var recent := Known(filter, Icao(Announced(corrected[..])));
      r := if 0 <= corrections then Df17Rank(recent, corrections) else UNCORRECTABLE;
    } else if df == 18 {
      AddressKinds(Announced(corrected[..]), 0);
      var recent := Known(filter, NonTransponder(Announced(corrected[..])));
      r := if 0 <= corrections then Df18Rank(recent, corrections) else UNCORRECTABLE;
    } else {
      r := UNKNOWN_DF;
    }
  }

  method ScoreAddressParity(corrector: Corrector, filter: Filter, corrected: array<bv8>,
                            bits: nat, checked: Option<bv24>)
    returns (r: Rank)
    requires corrector.tables.CrcTableReady() && filter.Valid()
    requires corrected.Length == LONG_MSG_BYTES && bits % 8 == 0 && 3 <= bits / 8 <= LONG_MSG_BYTES
    requires checked.Some? ==> checked.value == Parity(corrected[..bits / 8])
    ensures r == Pick(filter.Knowledge().Knows(Icao(Parity(corrected[..bits / 8]))),
      UNRELIABLE_KNOWN, UNRELIABLE_UNKNOWN)
  {
    hide Parity, Icao, NonTransponder, Probeable, Contents;
    var s := SyndromeOf(corrector, corrected, bits, checked);
    AddressKinds(s, s);
    var recent := Known(filter, Icao(s));
    r := if recent then UNRELIABLE_KNOWN else UNRELIABLE_UNKNOWN;
  }

  method ScoreDf11(corrector: Corrector, filter: Filter, corrected: array<bv8>, corrections: int, checked: Option<bv24>)
    returns (r: Rank)
    requires corrector.tables.CrcTableReady() && filter.Valid()
    requires corrected.Length == LONG_MSG_BYTES
    ensures var s := if checked.Some? then checked.value else Parity(corrected[..SHORT_MSG_BYTES]);
      r == if 0 <= corrections then
        Df11Rank(filter.Knowledge().Knows(Icao(Announced(corrected[..]))), corrections, Iid(s))
           else UNCORRECTABLE
  {
    hide Parity, Announced, Iid, Icao, NonTransponder, Probeable, Contents;
    var s: bv24;
    if checked.Some? {
      s := checked.value;
    } else {
      s := corrector.tables.ModesChecksum(corrected, SHORT_MSG_BITS);
    }
    var addr := Announced(corrected[..]);
    AddressKinds(addr, 0);
    var recent := Known(filter, Icao(addr));
    r := if 0 <= corrections then Df11Rank(recent, corrections, Iid(s)) else UNCORRECTABLE;
  }

  /** The result of decodeModesMessage for a message not scored before: the message, or None
      for a negative return value. The filter learns what `Entry` says, unless it is full. */
  method DecodeModesMessage(cfg: Config, corrector: Corrector, filter: Filter, inp: array<bv8>)
    returns (mm: Option<Message>)
    requires cfg.Valid() && corrector.Valid() && corrector.fixBits == cfg.fixBits && filter.Valid()
    requires inp.Length == LONG_MSG_BYTES
    modifies filter.a, filter.b
    ensures mm == Decoded(cfg, old(filter.Knowledge()), old(inp[..]))
    ensures filter.Valid()
    ensures var e := if mm.Some? && Entry(mm.value).Some? then Add(0, Entry(mm.value).value) else Other(0);
      StepOrDrop(old(filter.Knowledge()), e, filter.Knowledge())
  {
    hide Parity, Df, AllZeros, Announced, Iid, Icao, NonTransponder, Ready, Probeable, Contents, Corrected;
    var score := ScoreModesMessage(cfg, corrector, filter, inp);
    if !score.Acceptable() {
      return None;
    }
    var msg := new bv8[LONG_MSG_BYTES];
    var corrections, shortSyndrome, longSyndrome := CorrectMessage(cfg, corrector, inp, msg);
    mm := Interpret(cfg, corrector, inp, msg, corrections, shortSyndrome, longSyndrome);
    if mm.Some? && Entry(mm.value).Some? {
      EntryIsNotEmpty(cfg, inp[..], mm.value);
      filter.Add(Entry(mm.value).value);
    }
  }

  lemma EntryIsNotEmpty(cfg: Config, msg: seq<bv8>, m: Message)
    requires cfg.Valid() && |msg| == LONG_MSG_BYTES && SizesFit(Corrected(cfg, msg))
    requires DecodedAs(msg, Corrected(cfg, msg)) == Some(m)
    ensures Entry(m).Some? ==> Entry(m).value != EMPTY
  {
    hide Parity, Df, Announced, Iid, Icao, NonTransponder, NonIcao, Corrected, Entry;
    var x: bv24 :| m.addr == Icao(x) || m.addr == Icao(x) | 0x1000000;
    AddressEntryIsNotEmpty(m, x);
  }

  lemma AddressEntryIsNotEmpty(m: Message, x: bv24)
    requires m.addr == Icao(x) || m.addr == Icao(x) | 0x1000000
    ensures Entry(m).Some? ==> Entry(m).value != EMPTY
  {
    MarkedRaw(x);
  }

  lemma MarkedRaw(x: bv24)
    ensures (x as bv32) != 0xFFFFFFFF && ((x as bv32) | 0x1000000) != 0xFFFFFFFF
    ensures ((x as bv32) | 0x2000000) != 0xFFFFFFFF && (((x as bv32) | 0x1000000) | 0x2000000) != 0xFFFFFFFF
  {
  }

  /** The checksum work of decodeModesMessage on the corrected message. */
  method Interpret(cfg: Config, corrector: Corrector, inp: array<bv8>, msg: array<bv8>, corrections: int,
                   shortSyndrome: Option<bv24>, longSyndrome: Option<bv24>)
    returns (mm: Option<Message>)
    requires cfg.Valid() && corrector.tables.CrcTableReady()
    requires inp.Length == LONG_MSG_BYTES && msg.Length == LONG_MSG_BYTES
    requires match Corrected(cfg, inp[..])
      case Long(n, m) => corrections == n && msg[..] == m
      case Short(n, m) => corrections == n && msg[..SHORT_MSG_BYTES] == m
      case Uncorrected => corrections == -1 && msg[..] == inp[..]
    requires longSyndrome.Some? ==> longSyndrome.value == Parity(inp[..])
    requires shortSyndrome.Some? ==> shortSyndrome.value == Parity(inp[..SHORT_MSG_BYTES])
    requires Corrected(cfg, inp[..]).Short? ==> shortSyndrome.Some?
    ensures SizesFit(Corrected(cfg, inp[..]))
    ensures mm == DecodedAs(inp[..], Corrected(cfg, inp[..]))
  {
    hide Parity, Df, Announced, Iid, Icao, NonIcao, Corrected;
    CorrectedIsSound(cfg, inp[..]);
    CorrectedFields(cfg, inp[..], msg[..]);
    DfDigits(msg[..]);
    assert inp[..LONG_MSG_BYTES] == inp[..] && msg[..LONG_MSG_BYTES] == msg[..];
    var msgtype := Df(msg[..]);
    var crc: bv24;
    if msgtype >= 16 {
      crc := if longSyndrome.Some? then longSyndrome.value else 0;
      if longSyndrome.None? {
        crc := corrector.tables.ModesChecksum(msg, LONG_MSG_BITS);
      }
    } else {
      crc := if shortSyndrome.Some? then shortSyndrome.value else 0;
      if shortSyndrome.None? {
        crc := corrector.tables.ModesChecksum(msg, SHORT_MSG_BITS);
      }
    }
    var correctedbits := if corrections > 0 then corrections else 0;
    if msgtype == 0 || msgtype == 4 || msgtype == 5 || msgtype == 16 || msgtype == 20 || msgtype == 21 {
      mm := Some(Message(msgtype, Icao(crc), correctedbits, 0));
    } else if msgtype == 11 {
      var iid := Iid(crc);
      mm := Some(Message(11, Icao(Announced(msg[..])), correctedbits, iid));
    } else if msgtype == 17 || msgtype == 18 {
      mm := Some(Message(msgtype, SquitterAddress(msg[..]), correctedbits, 0));
    } else if 24 <= msgtype {
      mm := Some(Message(24, Icao(crc), correctedbits, 0));
    } else {
      mm := None;
    }
  }
}
