# dump1090: a verified model of the decoder pipeline

This project models the parts of dump1090 that turn radio samples into trusted messages and pass
them on, and proves what each part is for. `dafny verify dfyconfig.toml` checks everything.

| part of the receiver | modules | main results |
|---|---|---|
| Parity and error correction (`crc.c`, `mode_s.c`) | `Bits`, `Bytes`, `Division`, `Polynomial`, `Checksum`, `Lookup`, `ErrorPatterns`, `ErrorTable`, `ErrorTableProof`, `PowerTable`, `CodeDistance`, `ErrorCorrection`, `CorrectionStrength`, `DfBitsets`, `MessageCorrection`, `PowerTops`, `AllCallReplies`, `DamagedMessages` | the table-driven checksum is the remainder by the generator polynomial; bounded-distance decoding for every length and error count; up to 5 errors are always noticed, and exactly what 1-bit and 2-bit correction repair; a corrected message is what it claims to be, and exactly which damaged DF17, DF18 and DF11 messages are repaired and decoded; a DF11 reply with up to 2 errors is never corrected into one of another address, whatever its interrogator identifier |
| Fields (`mode_s.h`) | `Fields`, `FieldExtraction` | the masks and shifts of `getbits` return the number written by the bits |
| Acceptance and trust (`mode_s.c`, `icao_filter.c`) | `IcaoFilter`, `FilterHistory`, `Acceptance`, `AddressKind`, `Preference`, `Receiver`, `Trust` | the filter is exactly two generations of addresses; over every run, an accepted address/parity message was vouched for, and one that was vouched for is accepted; which of two acceptable candidates wins |
| Beast framing (`net_io.c`) | `BeastFrame`, `BeastReader`, `BeastWriter`, `BeastDelivery` | input does not depend on how reads split it; shared output buffers hold whole frames; end-to-end delivery, with Mode A/C on or off |
| Positions (`cpr.c`) | `CprArithmetic`, `CprLattice`, `Zones`, `Cpr`, `ZoneTable`, `ZoneFormula`, `CprGlobal`, `CprSurface`, `CprRelative`, `CprAgreement` | the table of longitude zones is the formula of RTCA DO-260B (Appendix A, section A.1.7), to a unit of its last digit; the decoders invert the standard's encoder; global and local decoding agree |
| Sample FIFO (`fifo.c`) | `Sequences`, `FifoLists`, `FifoStream`, `Fifo`, `FifoProtocol` | every buffer carries its stretch of the sample stream with the overlap before it; no buffer is lost and nobody stays blocked, over all interleavings |
| Adaptive gain (`adaptive.c`) | `BurstWindows`, `AdaptiveStream`, `AdaptiveProperties`, `AdaptiveTallies`, `AdaptiveSampler`, `GainControl`, `GainRules` | measurements do not depend on how samples are chunked; duty cycle; burst counts; nothing is lost between reports; when exactly the gain moves; limits, delays and termination of the gain controller |
| Demodulator (`demod_2400.c`) | `DamageSet`, `Slicer`, `CleanSignal`, `Demodulator` | the unrolled slicer is one formula, which reads every clean signal as the message that was sent; the early filter and the two-buffer search lose no acceptable message |
| ASTERIX output (`airnav_asterix.c`) | `Asterix`, `AsterixRecord`, `TargetId` | a record reads back as the items that were set; packing a callsign restores its 48 bits |

Where the source changes state in place there is a class or a method on arrays, specified by a
function whose properties are proved as lemmas. Samples, bytes, addresses and checksums have the
widths of the source where wrap-around or bit operations matter (`bv8`, `bv16`, `bv24`, `bv32`,
`bv64`). Positions are exact reals. The message handler, the descriptors written to, the
measurements of noise and burst rates, and time are inputs.

## Findings

Some intentions of the source do not hold of its code. Each is stated exactly.

- Local position decoding gives up near the antimeridian: a candidate longitude above 180 degrees
  is moved to the west and then compared with the reference without wrapping
  (`CprRelative.RelativeExactly` says exactly when, `CprRelative.GivesUpAtAntimeridian` gives a
  position that is a tenth of a degree away). On the other side nothing is moved, so that a
  longitude below -180 degrees can be returned (`CprRelative.RelativeRange`,
  `CprRelative.FindsBelowAntimeridian`).
- At exactly 87 degrees the table of longitude zones has one zone where the standard's formula has two.
  Apart from the last digit of its entries that is the only difference (`ZoneFormula.TableIsFormula`, `ZoneFormula.DiffersAt87`).
- A DF18 address that is marked as not an ICAO address is stored with bits 24 and 25 set, but the
  score looks up bit 25 alone, so that no number of such messages makes its sender known
  (`Trust.NonTransponderEntryExactly` says exactly which messages do, `Trust.MarkedSenderIsNotLearnt`
  gives one that does not).
- Moving a client to another service flushes the old one first. If that flush closes the client
  itself, the source goes on to use the service it no longer has; this happens exactly if the
  client belonged to another service and its own write fell short
  (`BeastWriter.Network.MoveNetClient`; `BeastWriter.MoveStrandsClient` gets there with a heartbeat
  waiting in the buffer).
- The inner loop that skips colliding syndromes (crc.c:248) looks at `table[i+1]` before it knows
  that there is such an entry. It looks past the end exactly if the last two entries of the sorted
  table collide, and what lies there does not change the result (`ErrorTable.RemoveCollisions`,
  `ErrorTable.OverrunExample`); for the table of all patterns that means that two of them share the
  greatest syndrome (`ErrorTableProof.EndsInCollisionExactly`). The tables of the program never get
  there, because patterns of at most 2 errors in at most 112 bits have different syndromes
  (`ErrorCorrection.NoCollisions`).
- The high byte of an ASTERIX record's length is always 0, so a record of more than 255 bytes cannot
  be read back (`AsterixRecord.RecordRoundTrip`). Item sizes come from the specification file; one
  item that it declares with 251 bytes is enough (`AsterixRecord.LongRecordIsLost`).
- The comment on the duty cycle promises n active subblocks in each block; the first block after
  initialization has n - 1 (`AdaptiveProperties.DutyCycle`, `AdaptiveProperties.FirstBlockIsShort`).
- `fifo_release` signals only when the freelist was empty. With two producers waiting at the same
  time that leaves one of them beside a free buffer until its timed wait expires
  (`FifoProtocol.StuckExactly`, `FifoProtocol.TwoProducersGetStuck`). The program starts a single
  producer, and for that one `FifoProtocol.NobodyEverStuck` holds.

## Model

| member | source | states |
|---|---|---|
| Polynomial.RemainderIsLongDivision | crc.c:65-81 | the shift-register remainder is bit-by-bit long division by the 24-bit generator |
| Polynomial.RemainderXor | crc.c:65-81 | remainders are linear over exclusive or |
| Polynomial.RemainderIgnoresLeadingZeros | crc.c:141 | leading zeros do not change a remainder |
| Checksum.ParityIsLongDivision | crc.c:65-81 | the checksum of any message of at least 3 bytes is the remainder of its bits by the generator polynomial |
| Checksum.ParityIsLinear | crc.c:65-81 | the checksum of the exclusive or of two messages is the exclusive or of their checksums |
| Checksum.ParityIgnoresLeadingZeros | crc.c:141 | leading zero bytes do not change the checksum, so one table of single-bit syndromes serves both lengths |
| Checksum.ParityOfFlip | crc.c:55-62 | inverting bit k adds the syndrome of bit k to the checksum |
| Checksum.Completed | crc.c:65-81 | every message can be completed by three bytes to have any given checksum |
| Lookup.Tables.constructor | crc.c:39-63 | both lookup tables hold what the checksum and the subtables need |
| Lookup.Tables.ModesChecksum | crc.c:65-81 | the table-driven checksum is the parity of the first bits/8 bytes |
| ErrorPatterns.Combinations | crc.c:97-113 | the running product is the binomial coefficient after every step, so every division is exact |
| ErrorPatterns.SubsetsMembers | crc.c:130-150 | the enumeration contains exactly the bit patterns of 1 to k further errors that extend the given one |
| ErrorPatterns.SubsetsDistinct | crc.c:130-150 | no pattern is enumerated twice |
| ErrorPatterns.SubsetsCount | crc.c:199-203 | as many patterns as the sum of combinations predicts |
| ErrorPatterns.ParityOfFlips | crc.c:143 | damaging a message with a pattern adds the exclusive or of the pattern's single-bit syndromes to its checksum |
| ErrorTable.PrepareSubtable | crc.c:130-150 | appends exactly the entries of all patterns, each with its syndrome, count and bits, and never exceeds the table |
| ErrorTable.Qsort | crc.c:220 | the table is sorted by syndrome and has the same entries |
| ErrorTable.Bsearch | crc.c:386-405 | finds an entry with the syndrome exactly if there is one |
| ErrorTable.RemoveCollisions | crc.c:245-256 | keeps, in order, exactly the entries whose syndrome is unique in the sorted table, and reads past its end exactly if the last two entries collide |
| ErrorTable.OverrunExample | crc.c:248 | a sorted table for which the loop reads past the end, with the entry it keeps |
| ErrorTableProof.EndsInCollisionExactly | crc.c:220-256 | the table of all patterns ends in a collision exactly if two patterns share the greatest syndrome |
| ErrorTable.FlagCollisions | crc.c:152-177 | flags exactly the entries whose syndrome some pattern of first to last errors has |
| ErrorTable.RemoveFlagged | crc.c:282-296 | keeps, in order, exactly the entries that are not flagged |
| ErrorTableProof.SinglesComplete | crc.c:220-265 | after sorting and removing collisions the table is strictly sorted and has exactly the patterns with a syndrome of their own |
| ErrorTableProof.FlaggingCompletes | crc.c:268-296 | removing what was flagged leaves exactly the patterns that are unambiguous up to maxDetect errors |
| ErrorCorrection.PrepareErrorTable | crc.c:182-352 | the finished table is strictly sorted and complete: an entry for a syndrome exactly if one correctable pattern, unambiguous up to maxDetect errors, has it; the collision loop stays within the table |
| ErrorCorrection.NoCollisions | crc.c:186-256 | for every length and error count the source asserts, no two patterns share a syndrome |
| ErrorCorrection.Corrector.constructor | crc.c:355-381 | tables for both lengths, for no correction, 1-bit and 2-bit correction |
| ErrorCorrection.Corrector.Diagnose | crc.c:386-405 | NO_ERRORS for syndrome 0, otherwise the unambiguous correctable pattern with that syndrome, or nothing |
| ErrorCorrection.ModesChecksumFix | crc.c:409-418 | inverts exactly the bits of the diagnosis |
| ErrorCorrection.RepairIsValid | crc.c:386-418 | applying any diagnosis leaves a zero checksum and changes exactly the diagnosed bits |
| ErrorCorrection.BoundedDistanceDecoding | crc.c:182-418 | for any length and any maxCorrect <= maxDetect with maxCorrect at most 2, as the source asserts: up to maxDetect errors in a valid message are never mis-corrected; a diagnosis other than NO_ERRORS restores the message that was sent |
| ErrorCorrection.UnambiguousIsCorrected | crc.c:182-418 | every pattern of up to maxCorrect errors that no pattern of up to maxDetect errors is confused with is corrected |
| PowerTable.PowerInTable | crc.c:55-62 | the syndromes of single errors in up to 112 bits are the 112 numbers listed |
| PowerTable.FourPowers | crc.c:355-381 | no four of them add up to 0 |
| CodeDistance.OddErrors | crc.c:65-81 | in a message of any length an odd number of errors has an odd syndrome |
| CodeDistance.MinimumDistance | crc.c:355-381 | every pattern of up to 5 errors in at most 112 bits has a syndrome other than 0 |
| CodeDistance.SixErrorsCanBeMissed | crc.c:355-381 | a pattern of 6 errors in 112 bits whose syndrome is 0 |
| CodeDistance.SyndromesDiffer | crc.c:186-256 | different patterns of together at most 5 errors have different syndromes |
| CorrectionStrength.ErrorsAreNoticed | crc.c:386-394 | a valid message with up to 5 errors has a checksum other than 0 |
| CorrectionStrength.OneBitCorrection | crc.c:366-371 | with 1-bit correction a single error is always corrected, and 2 to 4 errors never are, although the table is built without looking for them |
| CorrectionStrength.TwoBitCorrection | crc.c:373-380 | with 2-bit correction a single error is always corrected, two errors exactly if no four errors have their syndrome, and 3 or 4 errors never are |
| CorrectionStrength.ImitationExample | crc.c:373-380 | two errors that are not corrected because four errors have their syndrome |
| FieldExtraction.GetBitsIsField | mode_s.h:104-149 | the masks and shifts over 1 to 5 bytes give the number whose binary digits are bits firstbit..lastbit |
| FieldExtraction.AnnouncedIsField | mode_s.c:625 | the announced address is the field of bits 9 to 32 |
| Fields.FieldBound | mode_s.h:104-149 | a field of n bits is below 2^n |
| DfBitsets.BitsetsAreBalls | mode_s.c:252-265 | the precomputed bitsets are exactly the formats within 0, 1 or 2 bit errors of DF11, and of DF17 or DF18 |
| MessageCorrection.CorrectMessage | mode_s.c:252-346 | returns and writes what the decision function says, and syndromes that match the checksums |
| MessageCorrection.CorrectionIsSound | mode_s.c:252-346 | a result n >= 0 is a DF17/18 message with zero checksum or a DF11 message whose top 17 syndrome bits are zero, and differs from the input in exactly n bits |
| MessageCorrection.UndamagedIsUnchanged | mode_s.c:282-306 | undamaged DF11, DF17 and DF18 messages come back unchanged with result 0 |
| MessageCorrection.BitsetsAreTransparent | mode_s.c:252-346 | with DF fixing on, the bitsets change neither result nor message compared with always computing both checksums |
| PowerTops.ThreeTops | mode_s.c:295-304 | no three single-error syndromes cancel in the top 17 bits, unless one of them is 0 there |
| AllCallReplies.PlainErrorsShow | mode_s.c:295-304 | up to 3 errors in a 56-bit message show in the top 17 bits of its checksum unless all are in the low 7 bits of the parity field |
| AllCallReplies.ReplyKeepsItsAddress | mode_s.c:282-330 | a DF11 message with any identifier and up to 2 errors that is taken for or repaired into a DF11 message keeps its first 49 bits, so its address; a single error there is repaired only if the identifier is 0, into the message that was sent |
| AllCallReplies.ThreeErrorsChangeTheAddress | mode_s.c:304 | three errors in a DF11 message with identifier 27 that are corrected into another address |
| AllCallReplies.ChecksumIsIdentifier | mode_s.c:296-299 | the checksum of an undamaged DF11 message is its interrogator identifier |
| DamagedMessages.DamagedLongIsRepaired | mode_s.c:282-345 | a DF17 or DF18 message with a single error, or with two that no four errors imitate, is repaired into the message that was sent exactly if the format as received is looked at; two errors give way to a repair of the first 56 bits into a DF11 message with one |
| DamagedMessages.DamagedFormatIsLookedAt | mode_s.c:252-284 | the format is looked at if no more of the errors are in it than the configuration repairs |
| DamagedMessages.DamagedLongIsRestored | mode_s.c:282-345 | with at most one error in the format, and that looked for, the message that was sent comes back with the number of errors |
| DamagedMessages.NoTie | mode_s.c:308-342 | repairs into a long and into a short message never need the same number of errors: if both are possible the long one needs two |
| DamagedMessages.DamagedReplyIsRepaired | mode_s.c:293-332 | a DF11 message without identifier and with a single error is repaired if its format is looked at; an error in the place of the identifier is taken for one |
| DamagedMessages.DamagedLongIsDecoded | mode_s.c:520-796 | after one error the message that was sent is decoded, after two if its sender is known |
| DamagedMessages.UndamagedLongIsDecoded | mode_s.c:520-796 | an undamaged extended squitter is decoded with its type and address, whatever is known |
| DamagedMessages.ReplyIsDecoded | mode_s.c:520-796 | an undamaged DF11 message is decoded, with its address and identifier, exactly if the identifier is zero or the sender is known |
| DamagedMessages.DamagedReplyIsDecoded | mode_s.c:520-796 | a repaired DF11 message is decoded, with the address that was sent, exactly if the sender is known |
| IcaoFilter.Filter.constructor | icao_filter.c:64-69 | an initialised filter knows nothing |
| IcaoFilter.Filter.Probe | icao_filter.c:71-101 | probing terminates even on a full table, at the address, an empty slot or after one full round |
| IcaoFilter.Filter.Add | icao_filter.c:71-84 | adds exactly the address to the current generation if the table has room, and changes nothing if it is full |
| IcaoFilter.Filter.Test | icao_filter.c:86-109 | true exactly for the addresses of the two generations, full tables included |
| IcaoFilter.Filter.Expire | icao_filter.c:112-127 | when due, the previous generation is forgotten and the current one becomes the previous one |
| IcaoFilter.ProbeFindsAll | icao_filter.c:86-109 | an address in the table is met before any empty slot on its probe path |
| IcaoFilter.StoreKeepsProbeable | icao_filter.c:71-84 | storing at the first empty slot keeps every stored address findable |
| FilterHistory.KnowsExactly | icao_filter.c:64-127 | each table holds exactly the addresses added in its generation |
| FilterHistory.KnowsIffRecent | icao_filter.c:86-109 | a test succeeds exactly if the address was added in the current or the previous generation |
| FilterHistory.NotForgottenTooSoon | icao_filter.c:112-127 | an address is known for 60 seconds after it was last added |
| FilterHistory.ForgottenAfterTwoFlips | icao_filter.c:112-127 | two changes of generation without a new addition forget an address |
| FilterHistory.ForgottenInTime | icao_filter.c:112-127 | an address not added again is forgotten by the second of two expiry calls, the first 60 seconds after its last addition and the second 60 seconds after the first |
| FilterHistory.NothingDropped | icao_filter.c:71-84 | while the current table has room, the real filter is the one of the two generations |
| FilterHistory.DroppingKnowsLess | icao_filter.c:71-84 | dropped additions only make the filter know less |
| Acceptance.AcceptedExactly | mode_s.c:350-466 | the ordered ranks and the threshold accept exactly the messages listed in plain terms: clean or 1-bit-corrected DF17/18, 2-bit-corrected ones of known senders, DF11 of known senders or clean with IID 0, address/parity messages of known addresses |
| Acceptance.AddressKinds | mode_s.c:781-788 | entries of transponder and non-transponder addresses never coincide and are never the empty marker |
| AddressKind.ImfIsInMe | mode_s.c:856-1140 | the IMF bit is bit 8, 9, 21, 51 or 56 of the message field, by the kind of message |
| AddressKind.NonIcaoExactly | mode_s.c:1451-1503 | an address counts as an ICAO address exactly in format 0, in formats 2 and 6 without IMF bit, and in format 3 with the first bit of the message field clear |
| Preference.ScoresOrderGrades | mode_s.h:52-79 | of two acceptable messages the one with the higher score is the better one in plain terms: verified before unverified; squitters by errors, then known sender, then transponder; all-call replies by known sender, then errors, then identifier; and the rule between the two |
| Preference.BestIsBest | mode_s.h:52-79 | nothing beats an undamaged DF17 message of a known sender, and it beats everything else |
| Receiver.ScoreModesMessage | mode_s.c:350-466 | the scoring code computes the rank of the message for what the filter knows |
| Receiver.DecodeModesMessage | mode_s.c:520-796 | accepts and addresses the message as the functions on messages say, and adds its entry to the filter unless the current table is full |
| Trust.OnlyVouchingAdds | mode_s.c:781-788 | a transponder address enters the filter only from an undamaged DF17, an undamaged DF11 with IID 0, or the pre-seeded address; DF18 entries carry bit 25 |
| Trust.KnownWasVouchedFor | mode_s.c:520-796 | in every run, a known transponder address was vouched for at most one change of generation ago |
| Trust.AcceptedAddressWasVouchedFor | mode_s.c:363-399 | in every run, an accepted DF0/4/5/16/20/21 or DF24-31 message has an address that an earlier input vouched for, at most one change of generation ago |
| Trust.VouchedAddressIsKnown | icao_filter.c:71-127 | while the current table has room, an address vouched for less than 60 seconds ago is known |
| Trust.VouchedAddressIsAccepted | mode_s.c:363-399 | and a message whose parity field yields that address is accepted with it |
| Trust.NonTransponderEntryExactly | mode_s.c:785-788 | a message adds the entry that scoring looks up for a DF18 address exactly if it is an undamaged DF18 message of it that is not marked as another kind of address |
| Trust.MarkedSenderIsNotLearnt | mode_s.c:785-788 | an undamaged DF18 message with CF 1 that is accepted and leaves an entry that does not make its sender known |
| Trust.KnownNonTransponderWasVouchedFor | mode_s.c:442-458 | in every run, a known DF18 address was announced by such a message at most one change of generation ago |
| Trust.VouchedNonTransponderIsKnown | mode_s.c:785-788 | while the current table has room, an address announced by such a message less than 60 seconds ago is known |
| BeastFrame.ParseResumes | net_io.c:2196-2248 | parsing a stream can be interrupted anywhere and resumed from the incomplete frame |
| BeastFrame.RestIsShort | net_io.c:2196-2248 | an incomplete frame has at most 43 bytes and starts with the escape byte |
| BeastFrame.EscapeRoundTrip | net_io.c:440-472 | doubling the escape byte and skipping the double are inverse, for any data |
| BeastFrame.DecodeInvertsEncode | net_io.c:1203-1290 | decoding an encoded message gives back time stamp modulo 2^48, signal byte and message; a reader without Mode A/C ignores exactly the messages of two bytes |
| BeastFrame.ParseInvertsEncodeAll | net_io.c:428-475 | a stream of encoded messages parses into exactly their frames, in order |
| BeastFrame.HeartbeatIsAFrame | net_io.c:477-491 | the heartbeat is the frame of an all-zero Mode A/C message |
| BeastFrame.FrameIsParsed | net_io.c:2205-2236 | an escape byte, one of the types '1' to '5' and 9, 14 or 21 escaped data bytes are exactly one frame |
| BeastFrame.WireFormat | net_io.c:428-475 | type by message length, then the time stamp most significant byte first, the signal level and the message, escaped |
| BeastReader.EndOfMessage | net_io.c:2213-2236 | the end found by stretching over doubled escapes is the end of the frame, and lies beyond the data exactly if the frame is incomplete |
| BeastReader.Client.ScanFrames | net_io.c:2196-2248 | hands exactly the complete frames of the buffer to the handler and leaves the incomplete one |
| BeastReader.Client.ModesReadFromClient | net_io.c:2139-2322 | keeps the invariant that the handler was called on exactly the frames of the whole stream received, however reads split it |
| BeastReader.DiscardIsHarmless | net_io.c:2146-2151 | discarding a full buffer loses no frame |
| BeastWriter.Network.CloseClient | net_io.c:318-338 | whoever closes the client, at any time: it leaves its service, the connection counts stay right, and buffers and queues stay valid |
| BeastWriter.Network.FlushWrites | net_io.c:344-364 | empties the buffer; each member has been sent everything queued for it or is closed; other clients are untouched |
| BeastWriter.Network.PrepareWrite | net_io.c:368-384 | skips the write only if nobody is connected or the request exceeds the buffer; otherwise there is room |
| BeastWriter.Network.CompleteWrite | net_io.c:389-395 | the message is queued for exactly the members of the service; the buffer stays a concatenation of whole frames within 1500 bytes |
| BeastWriter.Network.WriteBeastMessage | net_io.c:428-475 | queues the message for every client of the service, and keeps it in the buffer while there is room and no reason to flush; a message of another length is dropped without a trace |
| BeastWriter.Network.SendHeartbeat | net_io.c:477-491 | queues one all-zero Mode A/C message |
| BeastWriter.Network.MoveNetClient | net_io.c:1098-1118 | the moved client has been sent everything queued for it before, and belongs to the new service, unless its own write falls short in the flush; no queue changes |
| BeastWriter.MoveStrandsClient | net_io.c:1098-1118 | a client that is moved while a heartbeat waits for it and its connection takes no data: the move does not survive |
| BeastWriter.Network.CreateClient | net_io.c:146-167 | a new client starts with an empty queue and joins the service at a frame boundary |
| BeastDelivery.FramesAreComplete | net_io.c:1203-1290 | every frame handed to the handler is complete, so that decoding never reads past it |
| BeastDelivery.EndToEnd | net_io.c:344-475 | a reader that has received what was sent, in any pieces, has decoded exactly the messages queued for the client except those still in the buffer: all of them, or without Mode A/C all but the messages of two bytes, heartbeats included |
| BeastDelivery.NothingMissingExactly | net_io.c:1213-1217 | none of the messages is ignored exactly if Mode A/C is on or all are Mode S messages |
| BeastDelivery.NothingElseArrives | net_io.c:344-475 | whatever part of the stream arrived, closed or not, the reader has decoded the first of the queued messages, as far as it listens to them, and nothing else |
| CprArithmetic.ModInt | cpr.c:60-64 | the remainder fixed up after C's truncating `%` is the non-negative one |
| CprArithmetic.ModDouble | cpr.c:66-70 | the fixed-up fmod is the floored remainder, in [0, b) |
| Cpr.NL | cpr.c:77-138 | between 1 and 59 longitude zones |
| ZoneTable.NLIsZones | cpr.c:77-138 | at every latitude the table counts the transition latitudes of the standard beyond it |
| ZoneFormula.TransitionsSolve | cpr.c:73-75 | every transition latitude solves the equation of the standard to a unit of its last digit |
| ZoneFormula.TableIsFormula | cpr.c:77-138 | for any sine, at any latitude not within a unit of the last digit of a transition, the table gives at least n zones exactly if the formula does, except for two zones at 87 degrees |
| ZoneFormula.DiffersAt87 | cpr.c:136-137 | at 87 degrees the formula gives two zones and the table one |
| Cpr.NLDecreasesPoleward | cpr.c:77-138 | no more zones nearer the poles, the same on both hemispheres |
| CprLattice.EncodeIsLattice | cpr.c:154-160 | the encoder of the standard transmits the low 17 bits of the index of the nearest grid point, airborne and surface |
| CprLattice.MeantIsNear | cpr.c:154-160 | the grid point is at most half a step from the position |
| CprLattice.ZoneRecovery | cpr.c:176-179 | the index j recovers both zone numbers modulo n and n - 1 despite rounding |
| CprGlobal.ZonesRecovered | cpr.c:176-179 | the same for the two encodings of one coordinate |
| CprGlobal.AirborneInvertsEncoder | cpr.c:162-214 | with the standard's own zone counts in the encoder: decoding both encodings of a position is never bad data; it fails exactly if the two latitudes lie in different longitude zones; otherwise latitude is the transmitted grid point, within Dlat/2^18, and longitude is in [-180, 180) and within half a step of the zone up to whole turns |
| CprSurface.QuadrantIsNearest | cpr.c:235-274 | the latitude chosen is valid and no other quadrant is closer to the reference |
| CprSurface.MoveTowardIsNear | cpr.c:299-305 | the longitude chosen is within 45 degrees of the reference and no other quadrant is closer |
| CprSurface.SurfaceFindsNearest | cpr.c:216-313 | for any frames, never bad data, longitude in [-180, 180) and within 45 degrees of the reference up to whole turns |
| CprSurface.SurfaceInvertsEncoder | cpr.c:216-313 | for every position less than 45 degrees from the reference, the transmitted grid point, or the zone mismatch exactly when the longitude zones differ |
| CprRelative.NearestIsNearest | cpr.c:339-342 | the local index always picks the candidate nearest the reference |
| CprRelative.RelativeExactly | cpr.c:325-369 | exactly when local decoding finds a position, for every reference and frame, and which |
| CprRelative.GivesUpAtAntimeridian | cpr.c:355-364 | a reference a tenth of a degree from the position for which it gives up |
| CprRelative.RelativeRange | cpr.c:355-364 | a longitude found is at most 180, and at least -180 exactly if the nearest candidate is, which holds for references at least half a zone away |
| CprRelative.FindsBelowAntimeridian | cpr.c:355-364 | an encoded position that is returned with a longitude below -180 |
| CprAgreement.AirborneAgrees | cpr.c:162-369 | decoding the last frame around the globally decoded airborne position returns that position |
| CprAgreement.SurfaceAgrees | cpr.c:216-369 | the same for surface positions, whatever the reference of the global decoding |
| CprAgreement.RelativeInvertsEncoder | cpr.c:325-369 | for every reference less than half a zone away, the transmitted grid point if and only if it is not beyond the antimeridian |
| FifoStream.ContinuousBuffer | fifo.c:184-193 | without discontinuities buffer k is the last overlap + new samples of the zeros and everything enqueued up to it |
| FifoStream.RestartedHistory | fifo.c:184-190 | a discontinuity restarts the history with zeros |
| FifoStream.TailCarriesOver | fifo.c:192-193 | the end of a buffer is the overlap of the next, also with fewer new samples than the overlap |
| FifoLists.PartitionEnqueued | fifo.c:170-207 | enqueueing keeps every buffer in exactly one of queue, freelist and callers' hands |
| FifoLists.PartitionHalted | fifo.c:104-125 | so does draining the queue into the freelist |
| Fifo.MagFifo.constructor | fifo.c:43-71 | all buffers are on the freelist, the saved overlap is zeros |
| Fifo.MagFifo.Acquire | fifo.c:127-168 | takes the first free buffer, or nothing if halted or none is free |
| Fifo.MagFifo.Enqueue | fifo.c:170-207 | links the buffer behind the tail with its overlap filled in; a halted FIFO takes it back |
| Fifo.MagFifo.Dequeue | fifo.c:209-248 | returns the head, which holds exactly the next block of the stream with the samples before it |
| Fifo.MagFifo.Release | fifo.c:250-258 | puts the buffer on the freelist |
| Fifo.MagFifo.Halt | fifo.c:104-125 | moves all queued buffers to the freelist, in reverse, and stays halted |
| FifoProtocol.RunsAreSafe | fifo.c:95-258 | in every interleaving of any number of threads every buffer is in exactly one place, a halt is permanent and a halted FIFO is empty |
| FifoProtocol.StuckExactly | fifo.c:170-258 | a step leaves a thread blocked on something that holds exactly if it signals a condition on which two or more threads wait |
| FifoProtocol.NobodyEverStuck | fifo.c:95-258 | with one producer and one consumer nobody is ever blocked on a condition that holds |
| FifoProtocol.TwoProducersGetStuck | fifo.c:250-258 | a run with two waiting producers that strands one of them beside a free buffer |
| BurstWindows.FoldWindows | adaptive.c:311-352 | aligned samples are cut into windows, each loud exactly if more than a quarter of its samples are |
| BurstWindows.QuarterExactly | adaptive.c:366-371 | a window is loud exactly if more than a quarter of its samples are |
| BurstWindows.LoudExactly | adaptive.c:357-362 | the threshold of a loud sample is -3 dB of full scale, to the integer |
| BurstWindows.EndsBurstAfterTail | adaptive.c:366-379 | a window ends a burst exactly if it is quiet and the maximal loud run before it has 2 to 5 windows |
| AdaptiveStream.RunAppend | adaptive.c:225-262 | feeding a stream in pieces gives the same state and reports as feeding it at once |
| AdaptiveStream.RunSubblock | adaptive.c:231-253 | the samples that complete a subblock are measured together and then the subblock ends |
| AdaptiveStream.BoundaryIsAligned | adaptive.c:29-43 | every subblock boundary is a window boundary |
| AdaptiveStream.RunAligned | adaptive.c:225-379 | windows tile the active subblocks in every run |
| AdaptiveProperties.DutyCycle | adaptive.c:239-248 | any 20 consecutive subblocks contain exactly n active ones, except those from initialization on |
| AdaptiveProperties.ConsistentFromSecondSubblock | adaptive.c:239-248 | the exception ends with the first subblock |
| AdaptiveProperties.FirstBlockIsShort | adaptive.c:184-198 | the first block has n - 1 active subblocks |
| AdaptiveProperties.SubblockWindows | adaptive.c:180-182 | an active subblock has exactly 1250 windows, and a skipped one after it ends any run |
| AdaptiveProperties.RunCounts | adaptive.c:366-379 | over every run the bursts counted and reported are the maximal runs of 2 to 5 loud windows that ended |
| AdaptiveProperties.RunCountsFromInitial | adaptive.c:159-222 | from initialization on, the bursts reported and counted are all the maximal runs of 2 to 5 loud windows |
| AdaptiveTallies.TallyIsOccurrences | adaptive.c:383-395 | every bucket grows by the number of samples of its magnitude |
| AdaptiveTallies.NothingIsLost | adaptive.c:225-277 | over every run, each sample and each loud decoded message of the active subblocks is in exactly one report or in the current counts |
| AdaptiveSampler.CountSamples | adaptive.c:357-362 | the number of samples of at least -3 dBFS |
| AdaptiveSampler.Sampler.constructor | adaptive.c:159-222 | the initial state |
| AdaptiveSampler.Sampler.BurstEndOfWindow | adaptive.c:366-379 | the end of a window, as specified |
| AdaptiveSampler.Sampler.BurstSkip | adaptive.c:279-306 | skipping samples is the same as hearing that many quiet ones |
| AdaptiveSampler.Sampler.BurstUpdate | adaptive.c:311-341 | working on a first, whole and a last window is the same as one sample at a time |
| AdaptiveSampler.Sampler.RangeUpdate | adaptive.c:383-395 | every magnitude is counted once in its bucket |
| AdaptiveSampler.PieceOfMessage | adaptive.c:266-276 | a decoded message counts as loud once in each stretch of an active subblock it touches, and its samples are quiet and not tallied |
| AdaptiveSampler.UndecodedInputs | adaptive.c:225-262 | samples that were not decoded are the same stream however they are cut |
| AdaptiveSampler.Sampler.Update | adaptive.c:225-277 | for every buffer, decoded or not, the state and reports are those of the stream of its samples |
| GainControl.Controller.SetGain | adaptive.c:120-139 | clamps to the gain limits and tells whether the gain changed |
| GainControl.Controller.ControlUpdate | adaptive.c:476-643 | one block of the controller, as specified |
| GainControl.NextKeepsInv | adaptive.c:476-643 | gain stays in [min, max] and moves by at most one step, the limit stays in [min - 1, max], and in a downward scan the limit is not above the gain |
| GainControl.RunKeepsInv | adaptive.c:159-222 | the same over every run from initialization |
| GainControl.RaisedOnlyToLimitOrToProbe | adaptive.c:500-530 | the gain rises above the range limit only by a range decision on an acceptable range, never by burst control alone |
| GainControl.DisabledRunNeverChanges | adaptive.c:476-643 | with both controls off, no run changes gain or limit |
| GainRules.GainExactly | adaptive.c:476-643 | the gain after a block: lowered by a step if burst or range control wants that, raised if either wants it and burst control does not object |
| GainRules.LoudNeverRaises | adaptive.c:499-518 | a block with too many loud undecoded messages never raises the gain |
| GainRules.CountersAreRuns | adaptive.c:499-509 | in every run the counters are the lengths of the runs of loud and of quiet blocks since the last change |
| GainRules.LoudBlocksLower | adaptive.c:511-521 | a block that ends a run of the configured number of loud blocks lowers the gain |
| GainRules.RaisedOnlyAfterQuietBlocks | adaptive.c:522-530 | while burst control decides, nothing raises the gain but a block that ends a run of the configured number of quiet blocks |
| GainRules.QuietBlocksRaise | adaptive.c:522-530 | such a block does, below the limit and unless range control lowers the gain |
| GainRules.IdleScan | adaptive.c:597-628 | from idle, exactly when a downward and when an upward scan starts |
| GainRules.UpScan | adaptive.c:543-569 | exactly when an upward scan turns around and when it ends |
| GainRules.DownScan | adaptive.c:571-595 | exactly when a downward scan ends, and what burst control does to it |
| GainRules.LimitExactly | adaptive.c:532-607 | the limit rises to an acceptable gain and falls below one that is not |
| GainRules.StartsNearest | adaptive.c:159-222 | control starts at the allowed gain nearest to that of the SDR |
| GainControl.ChangesAreApart | adaptive.c:143-156 | in every run two changes of the gain are at least the smallest enabled change delay apart |
| GainControl.DecisionEndsOrLowers | adaptive.c:571-595 | each range decision in a downward scan ends it or lowers the gain by one step |
| GainControl.ScansEnd | adaptive.c:571-595 | every downward scan ends within a bound given by gain, lower limit and delay, whatever is measured |
| DamageSet.GenerateDamageSet | demod_2400.c:64-76 | exactly the Hamming ball of the given radius around a format |
| Demodulator.InitBitsets | demod_2400.c:78-93 | the two sets of acceptable formats for every configuration |
| Demodulator.FilterDropsOnlyBadMessages | demod_2400.c:316-332 | a message the early filter drops cannot be corrected and would not be accepted, whatever the address filter knows |
| Demodulator.ScoreNeedsOnly | demod_2400.c:316-326 | the score does not depend on bytes that are not sliced |
| Demodulator.BestPhase | demod_2400.c:222-347 | returns a candidate of the highest score, the first of equal ones, with its bytes intact in one of the two buffers; no acceptable phase holds a better message in plain terms, and if one holds an undamaged DF17 message of a known sender, so does the one returned |
| Demodulator.CleanSquitterIsBest | demod_2400.c:222-347 | a clean DF17 message of a known sender is such a candidate |
| Demodulator.NoAcceptablePhaseIsLost | demod_2400.c:316-332 | every phase whose message is acceptable is among the candidates |
| Slicer.OffsetIsIgnored | demod_2400.c:42-43 | a constant offset of the samples does not change a correlation |
| CleanSignal.CorrelationIsMatched | demod_2400.c:30-61 | each correlation function weights every sample with its share of the first symbol minus its share of the second |
| CleanSignal.CleanBitIsRead | demod_2400.c:35-37 | whatever is sent before and after it, a clean bit is read as what it is |
| Slicer.UnrolledIsFormula | demod_2400.c:237-313 | each of the 40 unrolled correlations is the one the formula asks for |
| Slicer.MessageBits | demod_2400.c:227-313 | bit b at phase t comes from sample 19 + floor((t + 12b)/5) with correlation function (t + 12b) mod 5 |
| Slicer.OverlapSuffices | demod_2400.c:121 | all reads stay within the valid samples exactly if the overlap is at least 289 |
| Slicer.SliceBytes | demod_2400.c:227-326 | the loop over phases and sample pointers writes the bytes of the formula |
| CleanSignal.CleanMessageIsRead | demod_2400.c:227-326 | a clean long message is sliced into exactly its bytes at the phase at which it was sent |
| Asterix.FspecIsAChain | airnav_asterix.c:94-105 | the FSPEC bytes in use form a prefix and the extension bit is set on all but the last |
| Asterix.FspecInBytes | airnav_asterix.c:94-155 | item 1 is the most significant bit of the first FSPEC byte, seven items to a byte, and the least significant bit says that there are more |
| Asterix.Packet.SetFrnInUse | airnav_asterix.c:110-126 | sets the presence bit of the item and the extension bits and use flags before it, and nothing else |
| Asterix.Packet.SetItem | airnav_asterix.c:159-204 | setting items in any order keeps the FSPEC describing exactly the items set |
| AsterixRecord.Serialize | airnav_asterix.c:1633-1686 | category, length byte, FSPEC and the data of the items in the order of their numbers |
| AsterixRecord.RecordRoundTrip | airnav_asterix.c:1633-1686 | reading a record gives back exactly the items that were set, in order, if and only if it has at most 255 bytes |
| AsterixRecord.LongRecordIsLost | airnav_asterix.c:1548 | a packet with one item of a declared size of 251 bytes whose record is not read back |
| TargetId.SetTargetId | airnav_asterix.c:1243-1296 | packs the low 6 bits of the eight characters, most significant first |
| TargetId.CallsignBits | mode_s.c:805-812 | the low 6 bits of an extracted character are the bits it came from |
| TargetId.TargetIdRoundTrip | airnav_asterix.c:1264-1286 | packing an extracted callsign restores the original 48 bits |

## Left out

- CprLattice.EncodeIsLattice: the encoder is the standard's and is not part of the repository; its transition latitudes are those of 1090-WP-9-14, rounded to eight decimals.
- Demodulator.BestPhase: the buffers are required not to be the correction tables, which their types imply in the source; the preamble test and the choice of start samples are not modelled.
- Acceptance.AcceptedExactly: the two negative return codes are one rejection.
- MessageCorrection.CorrectMessage: after a corrected DF11 the last 7 output bytes are unspecified, as in the source.
- BeastWriter.Network.MoveNetClient: what the source does with the missing service after its own flush closed the client is not modelled; the result says when that happens.
- BeastWriter.Network.CloseClient: clients stay in the list when closed; their removal happens elsewhere and is not modelled.
- BeastReader.Client.ModesReadFromClient: a handler that asks to close the connection is not modelled; the Beast handler never does.
- AdaptiveSampler.Sampler.Update: counters do not wrap around.
- GainControl.Controller.ControlUpdate: the comparisons of measured rates and ranges with their thresholds are inputs; the SDR is assumed to set the step it is asked for.
- Fifo.MagFifo.Acquire: waiting is in FifoProtocol; time stamps of buffers are not modelled.
- ErrorTable.Qsort: the library sort and search are an insertion sort and a binary search.
- Beast frames of type '4' and '5' are framed like the others but their contents are not decoded.
- Sockets, descriptors, threads' startup, clocks and failed allocations.
- Rounding of floating-point numbers; the signal level of a Beast message is its byte.
- Percentiles, moving averages and logarithms of the noise and burst measurements.
- The share of 2-bit errors that are corrected: a count over all patterns.
- Statistics, JSON, SBS, FATSV and screen output.
- Comm-B scoring, extended squitter fields other than those that mark an address, Mode A/C tables, flight-path tracking.
- The remaining item setters of the ASTERIX encoder, which all set one item's data.
- Network services other than Beast, process control, feeder threads, SDR drivers and DSP kernels.
