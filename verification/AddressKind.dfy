/** Which DF18 messages carry an address that is not an ICAO address: the format (CF) and, for relayed
    positions, the IMF bit of the message field, whose bits count from 1 (mode_s.c). */
module AddressKind {
  import opened Acceptance
  import opened Bits
  import opened Fields
  import opened Lookup

  /** The message field of an extended squitter: bits 33 to 88. */
  function Me(msg: seq<bv8>): (me: seq<bv8>)
    requires |msg| == LONG_MSG_BYTES
    ensures |me| == 7
  {
    msg[4..11]
  }

  lemma BitInMe(msg: seq<bv8>, k: nat)
    requires |msg| == LONG_MSG_BYTES && 1 <= k <= 56
    ensures GetBit(msg, 32 + k) == GetBit(Me(msg), k)
  {
    hide BitOfByte;
    assert (31 + k) / 8 == 4 + (k - 1) / 8 && (31 + k) % 8 == (k - 1) % 8;
  }

  lemma {:induction false} FieldInMe(msg: seq<bv8>, first: nat, last: nat)
    requires |msg| == LONG_MSG_BYTES && 1 <= first && last <= 56
    ensures Field(msg, 32 + first, 32 + last) == Field(Me(msg), first, last)
    decreases last
  {
    hide GetBit;
    if first <= last {
      FieldInMe(msg, first, last - 1);
      BitInMe(msg, last);
    }
  }

  datatype Kind = Velocity | Surface | Airborne | Status | TargetState | Operational | Unmarked

  /** The kinds of messages, by type and subtype, that have an IMF bit. */
  function KindOf(metype: nat, subtype: nat): Kind {
    if metype in {5, 6, 7, 8} then Surface
    else if metype in {0, 9, 10, 11, 12, 13, 14, 15, 16, 17, 18, 20, 21, 22} then Airborne
    else if metype == 19 && subtype in {1, 2, 3, 4} then Velocity
    else if metype == 28 && subtype == 1 then Status
    else if metype == 29 then TargetState
    else if metype == 31 then Operational
    else Unmarked
  }

  /** The place of the IMF bit in the message field. */
  function ImfPlace(k: Kind): nat {
    match k
    case Airborne => 8
    case Velocity => 9
    case Surface => 21
    case TargetState => 51
    case Status => 56
    case Operational => 56
    case Unmarked => 0
  }

  /** The IMF bit is the one at its place in the message field. */
  lemma ImfIsInMe(msg: seq<bv8>)
    requires |msg| == LONG_MSG_BYTES
    ensures var me := Me(msg);
      var place := ImfPlace(KindOf(Field(me, 1, 5), Field(me, 6, 8)));
      Imf(msg) <==> place > 0 && GetBit(me, place)
  {
    hide GetBit, Field;
    FieldInMe(msg, 1, 5);
    FieldInMe(msg, 6, 8);
    BitInMe(msg, 8);
    BitInMe(msg, 9);
    BitInMe(msg, 21);
    BitInMe(msg, 51);
    BitInMe(msg, 56);
  }

  /** The low three bits of the first byte. */
  function Format(msg: seq<bv8>): bv8
    requires |msg| > 0
  {
    msg[0] & 7
  }

  /** An address is an ICAO address only in formats 0, 2, 3 and 6: always, unless the IMF bit is set,
      unless the first bit of the message field is set, and unless the IMF bit is set. */
  lemma NonIcaoExactly(msg: seq<bv8>)
    requires |msg| == LONG_MSG_BYTES
    ensures !NonIcao(msg) <==>
      || Format(msg) == 0
      || ((Format(msg) == 2 || Format(msg) == 6) && !Imf(msg))
      || (Format(msg) == 3 && !GetBit(Me(msg), 1))
  {
    hide Imf, Field, GetBit;
    BitInMe(msg, 1);
    FormatIsField(msg);
  }

  lemma FormatIsField(msg: seq<bv8>)
    requires |msg| > 0
    ensures Format(msg) == 0 <==> Field(msg, 6, 8) == 0
    ensures Format(msg) == 2 <==> Field(msg, 6, 8) == 2
    ensures Format(msg) == 3 <==> Field(msg, 6, 8) == 3
    ensures Format(msg) == 6 <==> Field(msg, 6, 8) == 6
  {
    assert Field(msg, 6, 5) == 0;
    FormatRaw(msg[0]);
  }

  lemma FormatRaw(b: bv8)
    ensures b & 7 == 0 <==> b & 4 == 0 && b & 2 == 0 && b & 1 == 0
    ensures b & 7 == 2 <==> b & 4 == 0 && b & 2 != 0 && b & 1 == 0
    ensures b & 7 == 3 <==> b & 4 == 0 && b & 2 != 0 && b & 1 != 0
    ensures b & 7 == 6 <==> b & 4 != 0 && b & 2 != 0 && b & 1 == 0
  {
  }
}
