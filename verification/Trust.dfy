/** Runs of the receiver: messages, expiry ticks and pre-seeded addresses in any order, with
    a filter whose full tables may drop additions. An address/parity message is only ever
    accepted on the word of a message that carried its address in the clear. */
module Trust {
  import opened Acceptance
  import opened Bits
  import opened Checksum
  import opened MessageCorrection
  import opened Fields
  import opened FilterHistory
  import opened IcaoFilter
  import opened Lookup
  import opened Options

  datatype Input =
    | Receive(time: int, msg: seq<bv8>)   // decodeModesMessage on a 14-byte buffer
    | Tick(time: int)                     // icaoFilterExpire
    | Seed(time: int, addr: bv32)         // the address named by --show-only

  predicate WellFormed(i: Input) {
    i.Receive? ==> |i.msg| == LONG_MSG_BYTES
  }

  function TimeOf(i: Input): int {
    match i
    case Receive(time, _) => time
    case Tick(time) => time
    case Seed(time, _) => time
  }

  /** What an input does to the filter. */
  ghost function EventOf(cfg: Config, v: View, i: Input): Event
    requires cfg.Valid() && WellFormed(i)
  {
    match i
    case Receive(time, msg) =>
      var d := Decoded(cfg, v, msg);
      if d.Some? && Entry(d.value).Some? then Add(time, Entry(d.value).value) else Other(time)
    case Tick(time) => Expire(time)
    case Seed(time, addr) => Add(time, addr)
  }

  ghost function Events(cfg: Config, views: seq<View>, inputs: seq<Input>): (es: seq<Event>)
    requires cfg.Valid() && |views| >= |inputs| && forall k :: 0 <= k < |inputs| ==> WellFormed(inputs[k])
    ensures |es| == |inputs|
    ensures forall k :: 0 <= k < |inputs| ==> es[k] == EventOf(cfg, views[k], inputs[k])
  {
    seq(|inputs|, k requires 0 <= k < |inputs| => EventOf(cfg, views[k], inputs[k]))
  }

  /** views[k] is what the filter knows when inputs[k] arrives. */
  ghost predicate IsReception(cfg: Config, views: seq<View>, inputs: seq<Input>) {
    && cfg.Valid()
    && |views| == |inputs| + 1
    && (forall k :: 0 <= k < |inputs| ==> WellFormed(inputs[k]))
    && views[0].current == {} && views[0].previous == {}
    && IsRun(views, Events(cfg, views, inputs))
  }

  /** The input carries addr in the clear: an undamaged DF17, an undamaged DF11 without
      interrogator identifier, or the pre-seeded address. */
  ghost predicate Vouches(cfg: Config, i: Input, addr: bv32)
    requires cfg.Valid() && WellFormed(i)
  {
    match i
    case Receive(_, msg) =>
      (CorrectedIsSound(cfg, msg);
       match Corrected(cfg, msg)
       case Long(n, m) => n == 0 && Df(m) == 17 && Icao(Announced(m)) == addr
       case Short(n, m) => n == 0 && Iid(Parity(ShortPart(msg))) == 0 && Icao(Announced(m)) == addr
       case Uncorrected => false)
    case Tick(_) => false
    case Seed(_, a) => a == addr
  }

  /** How often the filter changed generation between inputs j and n. */
  ghost function FlipsBetween(cfg: Config, views: seq<View>, inputs: seq<Input>, j: nat, n: nat): int
    requires IsReception(cfg, views, inputs) && j <= n <= |inputs|
  {
    var es := Events(cfg, views, inputs);
    Flips(views[0], es[..n]) - Flips(views[0], es[..j])
  }

  /** Only vouching inputs can leave a transponder address in the filter: the entry of a DF18
      message carries bit 25. */
  lemma OnlyVouchingAdds(cfg: Config, v: View, i: Input, a: bv24)
    requires cfg.Valid() && WellFormed(i)
    requires EventOf(cfg, v, i).Add? && EventOf(cfg, v, i).addr == Icao(a)
    ensures Vouches(cfg, i, Icao(a))
  {
    if i.Receive? {
      hide Parity, Df, Announced, Iid, Corrected, Icao, NonTransponder, Entry, Decoded;
      EntryIsPlain(Decoded(cfg, v, i.msg).value, a);
      CorrectedIsSound(cfg, i.msg);
      UndamagedOutcome(cfg, v, i.msg);
    }
  }

  /** An accepted message that may leave a transponder address behind was received undamaged. */
  lemma UndamagedOutcome(cfg: Config, v: View, msg: seq<bv8>)
    requires cfg.Valid() && |msg| == LONG_MSG_BYTES && Decoded(cfg, v, msg).Some?
    requires var m := Decoded(cfg, v, msg).value;
      m.correctedbits == 0 && (m.msgtype == 17 || (m.msgtype == 11 && m.iid == 0))
    ensures SizesFit(Corrected(cfg, msg))
    ensures match Corrected(cfg, msg)
      case Long(n, r) => n == 0 && Df(r) == 17 && Decoded(cfg, v, msg).value.addr == Icao(Announced(r))
      case Short(n, r) => n == 0 && Iid(Parity(ShortPart(msg))) == 0
          && Decoded(cfg, v, msg).value.addr == Icao(Announced(r))
      case Uncorrected => false
  {
    hide Parity, Df, AllZeros, Announced, Iid, Corrected, Icao, NonTransponder, NonIcao, Score, Sound;
    SoundTypes(cfg, msg);
    AcceptedExactly(cfg, v, msg);
    DfDigits(msg);
  }

  lemma SoundTypes(cfg: Config, msg: seq<bv8>)
    requires cfg.Valid() && |msg| == LONG_MSG_BYTES
    ensures SizesFit(Corrected(cfg, msg))
    ensures Corrected(cfg, msg).Long? ==> Df(Corrected(cfg, msg).message) in {17, 18}
  {
    hide Parity, Df, Corrected;
    CorrectedIsSound(cfg, msg);
  }

  lemma EntryIsPlain(m: Message, a: bv24)
    requires Entry(m) == Some(Icao(a))
    ensures m.correctedbits == 0 && (m.msgtype == 17 || (m.msgtype == 11 && m.iid == 0)) && m.addr == Icao(a)
  {
    Bit25Raw(m.addr, a);
  }

  lemma Bit25Raw(x: bv32, a: bv24)
    ensures x | 0x2000000 != a as bv32
  {
  }

  /** What is known about an accepted address/parity message. */
  lemma AddressParityIsKnown(cfg: Config, v: View, msg: seq<bv8>)
    requires cfg.Valid() && |msg| == LONG_MSG_BYTES
    requires Decoded(cfg, v, msg).Some? && AddressParity(Decoded(cfg, v, msg).value.msgtype)
    ensures exists a: bv24 :: Decoded(cfg, v, msg).value.addr == Icao(a) && v.Knows(Icao(a))
  {
    hide Parity, Df, AllZeros, Announced, Iid, Corrected, Icao, NonTransponder, SquitterAddress;
    CorrectedIsSound(cfg, msg);
    AcceptedExactly(cfg, v, msg);
    DfDigits(msg);
    assert Decoded(cfg, v, msg).value.addr == Icao(Parity(msg))
        || Decoded(cfg, v, msg).value.addr == Icao(Parity(ShortPart(msg)));
  }

  /** Trust over every run: an accepted address/parity message has an address that an earlier
      input vouched for, at most one change of generation ago. */
  lemma AcceptedAddressWasVouchedFor(cfg: Config, views: seq<View>, inputs: seq<Input>, n: nat)
    requires IsReception(cfg, views, inputs) && n < |inputs| && inputs[n].Receive?
    requires var d := Decoded(cfg, views[n], inputs[n].msg); d.Some? && AddressParity(d.value.msgtype)
    ensures var addr := Decoded(cfg, views[n], inputs[n].msg).value.addr;
      exists j :: 0 <= j < n && Vouches(cfg, inputs[j], addr) && FlipsBetween(cfg, views, inputs, j, n) <= 1
  {
    AddressParityIsKnown(cfg, views[n], inputs[n].msg);
    var a: bv24 :| Decoded(cfg, views[n], inputs[n].msg).value.addr == Icao(a) && views[n].Knows(Icao(a));
    KnownWasVouchedFor(cfg, views, inputs, n, a);
  }

  /** Input j put the entry into the filter at most one change of generation before input n. */
  ghost predicate AddedBefore(cfg: Config, views: seq<View>, inputs: seq<Input>, j: nat, n: nat, entry: bv32)
    requires IsReception(cfg, views, inputs) && j < n <= |inputs|
  {
    var e := EventOf(cfg, views[j], inputs[j]);
    e.Add? && e.addr == entry && FlipsBetween(cfg, views, inputs, j, n) <= 1
  }

  /** Every known entry was put there. */
  lemma KnownWasAdded(cfg: Config, views: seq<View>, inputs: seq<Input>, n: nat, entry: bv32) returns (j: nat)
    requires IsReception(cfg, views, inputs) && n <= |inputs| && views[n].Knows(entry)
    ensures j < n && AddedBefore(cfg, views, inputs, j, n, entry)
  {
    hide EventOf;
    var es := Events(cfg, views, inputs);
    var past := es[..n];
    assert views[..n + 1][0] == views[0] && views[..n + 1][n] == views[n];
    DroppingKnowsLess(views[..n + 1], past);
    assert After(views[0], past).Knows(entry);
    KnowsIffRecent(views[0], past, entry);
    var ago: nat := if AddedIn(views[0], past, entry, 0) then 0 else 1;
    assert AddedIn(views[0], past, entry, ago);
    j :| AddedAtGeneration(views[0], past, entry, ago, j);
    assert past[..j] == es[..j] && es[j] == EventOf(cfg, views[j], inputs[j]);
  }

  /** Every known transponder address was vouched for at most one change of generation ago. */
  lemma KnownWasVouchedFor(cfg: Config, views: seq<View>, inputs: seq<Input>, n: nat, a: bv24)
    requires IsReception(cfg, views, inputs) && n <= |inputs| && views[n].Knows(Icao(a))
    ensures exists j :: 0 <= j < n && Vouches(cfg, inputs[j], Icao(a)) && FlipsBetween(cfg, views, inputs, j, n) <= 1
  {
    hide Icao, Vouches, EventOf;
    var j := KnownWasAdded(cfg, views, inputs, n, Icao(a));
    OnlyVouchingAdds(cfg, views[j], inputs[j], a);
  }

  /** While the current table has room, nothing is dropped. */
  lemma NothingDroppedBefore(cfg: Config, views: seq<View>, inputs: seq<Input>, n: nat)
    requires IsReception(cfg, views, inputs) && n <= |inputs|
    requires forall k :: 0 <= k < n ==> |views[k].current| < SIZE
    ensures views[n] == After(views[0], Events(cfg, views, inputs)[..n])
  {
    hide EventOf;
    var es := Events(cfg, views, inputs);
    assert views[..n + 1][0] == views[0] && views[..n + 1][n] == views[n];
    NothingDropped(views[..n + 1], es[..n]);
  }

  /** Conversely, while the current table has room, an address that was vouched for less than 60
      seconds ago is known. */
  lemma VouchedAddressIsKnown(cfg: Config, views: seq<View>, inputs: seq<Input>, j: nat, n: nat, a: bv24)
    requires IsReception(cfg, views, inputs) && j < n <= |inputs|
    requires Ordered(Events(cfg, views, inputs)) && TimeOf(inputs[n - 1]) < TimeOf(inputs[j]) + 60000
    requires forall k :: 0 <= k < n ==> |views[k].current| < SIZE
    requires Vouches(cfg, inputs[j], Icao(a))
    ensures views[n].Knows(Icao(a))
  {
    hide Icao, Vouches;
    VouchingAdds(cfg, views[j], inputs[j], a);
    AddedIsKnown(cfg, views, inputs, j, n, Icao(a));
  }

  lemma AddedIsKnown(cfg: Config, views: seq<View>, inputs: seq<Input>, j: nat, n: nat, entry: bv32)
    requires IsReception(cfg, views, inputs) && j < n <= |inputs|
    requires Ordered(Events(cfg, views, inputs)) && TimeOf(inputs[n - 1]) < TimeOf(inputs[j]) + 60000
    requires forall k :: 0 <= k < n ==> |views[k].current| < SIZE
    requires EventOf(cfg, views[j], inputs[j]).Add? && EventOf(cfg, views[j], inputs[j]).addr == entry
    ensures views[n].Knows(entry)
  {
    hide EventOf;
    var es := Events(cfg, views, inputs);
    assert AddedAt(es[..n], j, entry);
    EventTime(cfg, views[j], inputs[j]);
    EventTime(cfg, views[n - 1], inputs[n - 1]);
    NothingDroppedBefore(cfg, views, inputs, n);
    NotForgottenTooSoon(views[0], es[..n], j, entry);
  }

  lemma EventTime(cfg: Config, v: View, i: Input)
    requires cfg.Valid() && WellFormed(i)
    ensures EventOf(cfg, v, i).time == TimeOf(i)
  {
    hide Decoded, Entry;
  }

  /** The address that the parity field of an address/parity message yields. */
  ghost predicate ParityYields(cfg: Config, msg: seq<bv8>, a: bv24)
    requires cfg.Valid() && |msg| == LONG_MSG_BYTES
  {
    var df := Df(msg);
    && !AllZeros(msg) && Corrected(cfg, msg) == Uncorrected
    && (if df in {0, 4, 5} then Parity(ShortPart(msg)) == a
        else (df in {16, 20, 21} || (24 <= df && cfg.enableDf24)) && Parity(msg) == a)
  }

  /** So an address/parity message is accepted, with its address, if that was vouched for less than
      60 seconds ago. */
  lemma VouchedAddressIsAccepted(cfg: Config, views: seq<View>, inputs: seq<Input>, j: nat, n: nat, a: bv24)
    requires IsReception(cfg, views, inputs) && j < n < |inputs| && inputs[n].Receive?
    requires Ordered(Events(cfg, views, inputs)) && TimeOf(inputs[n - 1]) < TimeOf(inputs[j]) + 60000
    requires forall k :: 0 <= k < n ==> |views[k].current| < SIZE
    requires Vouches(cfg, inputs[j], Icao(a)) && ParityYields(cfg, inputs[n].msg, a)
    ensures var d := Decoded(cfg, views[n], inputs[n].msg);
      d.Some? && d.value.addr == Icao(a) && AddressParity(d.value.msgtype)
  {
    VouchedAddressIsKnown(cfg, views, inputs, j, n, a);
    KnownIsAccepted(cfg, views[n], inputs[n].msg, a);
  }

  lemma KnownIsAccepted(cfg: Config, v: View, msg: seq<bv8>, a: bv24)
    requires cfg.Valid() && |msg| == LONG_MSG_BYTES && ParityYields(cfg, msg, a) && v.Knows(Icao(a))
    ensures var d := Decoded(cfg, v, msg);
      d.Some? && d.value.addr == Icao(a) && AddressParity(d.value.msgtype)
  {
    hide Parity, Df, AllZeros, Announced, Iid, Corrected, Icao, NonTransponder, SquitterAddress, Score;
    DfDigits(msg);
    CorrectedIsSound(cfg, msg);
    AcceptedExactly(cfg, v, msg);
  }

  lemma VouchingAdds(cfg: Config, v: View, i: Input, a: bv24)
    requires cfg.Valid() && WellFormed(i) && Vouches(cfg, i, Icao(a))
    ensures EventOf(cfg, v, i).Add? && EventOf(cfg, v, i).addr == Icao(a)
  {
    if i.Receive? {
      hide Parity, Df, Announced, Iid, Corrected, Icao, NonTransponder, Score, Sound;
      CorrectedIsSound(cfg, i.msg);
      SoundTypes(cfg, i.msg);
      AcceptedExactly(cfg, v, i.msg);
      NotAllZeros(cfg, i.msg);
    }
  }

  // ---- Non-transponder devices --------------------------------------------------------------------

  /** The input is an undamaged DF18 message of this address, which is not marked as something
      other than an ICAO address, or the pre-seeded entry. */
  ghost predicate VouchesNonTransponder(cfg: Config, i: Input, a: bv24)
    requires cfg.Valid() && WellFormed(i)
  {
    match i
    case Receive(_, msg) =>
      (CorrectedIsSound(cfg, msg);
       match Corrected(cfg, msg)
       case Long(n, m) => n == 0 && Df(m) == 18 && !NonIcao(m) && Announced(m) == a
       case _ => false)
    case Tick(_) => false
    case Seed(_, entry) => entry == NonTransponder(a)
  }

  lemma EntryRaw(x: bv24, a: bv24)
    ensures (x as bv32) | 0x2000000 == (a as bv32) | 0x2000000 <==> x == a
    ensures x as bv32 != (a as bv32) | 0x2000000
    ensures ((x as bv32) | 0x1000000) | 0x2000000 != (a as bv32) | 0x2000000
  {
  }

  lemma EntryFacts(x: bv24, a: bv24)
    ensures Icao(x) != NonTransponder(a) && (NonTransponder(x) == NonTransponder(a) ==> x == a)
  {
    EntryRaw(x, a);
  }

  lemma UnmarkedEntry(m: Message, x: bv24, a: bv24)
    requires m.addr == Icao(x)
    ensures Entry(m) == Some(NonTransponder(a)) <==> m.correctedbits == 0 && m.msgtype == 18 && x == a
  {
    hide Icao, WithBit25;
    EntryFacts(x, a);
  }

  lemma MarkedEntry(m: Message, x: bv24, a: bv24)
    requires m.msgtype == 18 && m.addr == Icao(x) | 0x1000000
    ensures Entry(m) != Some(NonTransponder(a))
  {
    EntryRaw(x, a);
  }

  /** What a message adds is the entry that scoring looks up for non-transponder address a exactly
      if it is an undamaged DF18 message of a whose address is not marked. */
  lemma NonTransponderEntryExactly(cfg: Config, v: View, i: Input, a: bv24)
    requires cfg.Valid() && WellFormed(i)
    ensures var e := EventOf(cfg, v, i);
      e.Add? && e.addr == NonTransponder(a) <==> VouchesNonTransponder(cfg, i, a)
  {
    if i.Receive? {
      hide Parity, Df, AllZeros, Announced, Iid, Corrected, Icao, NonTransponder, NonIcao, Score, Sound, Entry;
      var msg := i.msg;
      SoundTypes(cfg, msg);
      AcceptedExactly(cfg, v, msg);
      DfDigits(msg);
      if Decoded(cfg, v, msg).Some? {
        var d := Decoded(cfg, v, msg).value;
        match Corrected(cfg, msg)
        case Long(n, m) =>
          if Df(m) == 18 && NonIcao(m) {
            MarkedEntry(d, Announced(m), a);
          } else {
            UnmarkedEntry(d, Announced(m), a);
          }
        case Short(n, m) => UnmarkedEntry(d, Announced(m), a);
        case Uncorrected => AddressParityEntry(d);
      } else if VouchesNonTransponder(cfg, i, a) {
        NotAllZeros(cfg, msg);
      }
    }
  }

  lemma AddressParityEntry(m: Message)
    requires AddressParity(m.msgtype)
    ensures Entry(m) == None
  {
  }

  /** Every known non-transponder address was announced by an undamaged, unmarked DF18 message (or
      pre-seeded) at most one change of generation ago. */
  lemma KnownNonTransponderWasVouchedFor(cfg: Config, views: seq<View>, inputs: seq<Input>, n: nat, a: bv24)
    requires IsReception(cfg, views, inputs) && n <= |inputs| && views[n].Knows(NonTransponder(a))
    ensures exists j ::
      0 <= j < n && VouchesNonTransponder(cfg, inputs[j], a) && FlipsBetween(cfg, views, inputs, j, n) <= 1
  {
    hide NonTransponder, VouchesNonTransponder, EventOf;
    var j := KnownWasAdded(cfg, views, inputs, n, NonTransponder(a));
    NonTransponderEntryExactly(cfg, views[j], inputs[j], a);
  }

  /** Conversely, while the current table has room, such a message makes its address known for 60
      seconds. */
  lemma VouchedNonTransponderIsKnown(cfg: Config, views: seq<View>, inputs: seq<Input>, j: nat, n: nat, a: bv24)
    requires IsReception(cfg, views, inputs) && j < n <= |inputs|
    requires Ordered(Events(cfg, views, inputs)) && TimeOf(inputs[n - 1]) < TimeOf(inputs[j]) + 60000
    requires forall k :: 0 <= k < n ==> |views[k].current| < SIZE
    requires VouchesNonTransponder(cfg, inputs[j], a)
    ensures views[n].Knows(NonTransponder(a))
  {
    hide NonTransponder, VouchesNonTransponder;
    NonTransponderEntryExactly(cfg, views[j], inputs[j], a);
    AddedIsKnown(cfg, views, inputs, j, n, NonTransponder(a));
  }

  lemma MarkedHead(msg: seq<bv8>)
    requires |msg| == LONG_MSG_BYTES && msg[0] == 0x91
    ensures Df(msg) == 18 && Field(msg, 6, 8) == 1 && !AllZeros(msg)
  {
    DfDigits(msg);
    assert Bit(msg, 0) && !Bit(msg, 1) && !Bit(msg, 2) && Bit(msg, 3) && !Bit(msg, 4);
    assert !GetBit(msg, 6) && !GetBit(msg, 7) && GetBit(msg, 8);
    assert Field(msg, 6, 5) == Field(msg, 6, 6) == Field(msg, 6, 7) == 0;
  }

  /** An undamaged DF18 message with CF 1 from address 0x123456: it is accepted whatever is known,
      and leaves an entry behind, but not the one that makes its sender known. */
  lemma MarkedSenderIsNotLearnt(cfg: Config, v: View, time: int) returns (msg: seq<bv8>)
    requires cfg.Valid()
    ensures |msg| == LONG_MSG_BYTES && Parity(msg) == 0 && Df(msg) == 18 && NonIcao(msg) && Announced(msg) == 0x123456
    ensures Corrected(cfg, msg) == Long(0, msg) && Decoded(cfg, v, msg).Some?
    ensures var e := EventOf(cfg, v, Receive(time, msg));
      e.Add? && e.addr != NonTransponder(Announced(msg))
    ensures forall a :: !VouchesNonTransponder(cfg, Receive(time, msg), a)
  {
    hide Parity, Corrected, AllZeros, Score, WithBit25, Df, NonTransponder, Icao;
    var head: seq<bv8> := [0x91, 0x12, 0x34, 0x56, 0, 0, 0, 0, 0, 0, 0];
    msg := Completed(head, 0);
    assert msg[0] == head[0] && msg[1] == head[1] && msg[2] == head[2] && msg[3] == head[3];
    MarkedHead(msg);
    UndamagedIsUnchanged(cfg, msg);
    AcceptedExactly(cfg, v, msg);
    NonTransponderEntryExactly(cfg, v, Receive(time, msg), Announced(msg));
    assert Decoded(cfg, v, msg).value.msgtype == 18;
  }
}
