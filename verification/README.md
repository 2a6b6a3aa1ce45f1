# A verified model of the radio decoders

This project models the integer, bit and state logic of an SDR application's data channels in Dafny and proves what
that logic is for. `dafny verify dfyconfig.toml` checks all of it. Signal processing supplies samples, bits and
reliabilities; everything after it is modelled.

- **ADS-B / Mode S** — `Cpr` (Compact Position Reporting over exact reals), `ModeS` (the 24-bit parity as a linear
  code, frames as bits), `ModeSDivision` (the parity as a remainder), `Chase` (soft-bit repair), `Adsb` (aircraft
  cache, trust, attribution), `AdsbPosition` (positions from the bits of a frame), `AdsbStream` (the scanner over a
  sliding buffer; the class `AdsbChannel`).
- **AX.25 / APRS** — `Hdlc` (stuffing, flags and the deframer), `HdlcRead` (the deframer on any bits), `AprsTx` (line
  coding, queue, sample generation; the class `AprsTransmitter`), `AprsLine` and `AprsBurst` (what goes on the air,
  symbol by symbol and burst by burst), `Ax25` (addresses and UI frames), `Ax25Octets` (the same octet by octet),
  `AprsRx` (check-sequence repair, duplicate filter, end-to-end delivery; the class `AprsChannel`), `MicE` (compressed
  position reports), `MicERead` (its reader on any input), `MicEAir` (such reports from encoder to decoder over the
  air).
- **ACARS** — `Acars` (the five-state bit framer; the class `Framer`), `AcarsRead` (what a message says of the octets
  received), `AcarsBlock` (blocks as sent and as read), `Crc16` and `Crc16Division` (the check sequences as
  remainders).
- **AIS** — `Ais` (six-bit armouring), `AisSentences` (sentences, their reader, group numbers; the class
  `AisReceiver`).
- **Build tool** — `Closure` (which packages ship), `NixPins`, `NixRevisions`, `LockFile`, `LockText` (pinned hashes
  and the lock file they follow).
- **Shared** — `Wrappers`, `Bytes`, `Division`, `Products`, `Text`.

Code that changes state is a class or a method with loops, each proved equal to a specification function; the
properties are proved of those functions. Where runs matter they are sequences of operations of any length.

Results that qualify what the source seems to promise, each with the exact condition:

- Global CPR solves a point's two encodings exactly when both snapped latitudes have the same NL (`GlobalRoundTrip`;
  `StraddlingFails` is a latitude where they have not).
- Local CPR wraps longitudes on one side only, so near a pole a fix can come out at 225 degrees west
  (`LocalLongitudeEscapes`); `LocalRange` says for which references and codes, and `LocalStaysInRange` where to put the
  reference so that none does.
- Cutting a sample stream into blocks can change the messages (`CuttingMatters`); it leaves them alone exactly when no
  message starts inside the frame before it (`CuttingIsExact`), a condition `CuttingIsQuiet` puts on the uncut run.
- The ACARS header is missed when bits left in the register complete a SYN early; `HeaderOpensBlock` says exactly when,
  `HeaderIsMissed` gives such bits.
- An ACARS downlink text of ten or more characters sent without a sequence number and flight is read as if it began with
  them (`LettersTakenForNumber`); `BlockComesBack` says exactly which blocks are read as meant.
- A Mic-E longitude within half a hundredth of a minute below a whole degree is read a degree short, because degrees
  are truncated and minutes rounded (`PositionIsExact`, `CarryLosesADegree`).
- A Mic-E altitude from about 39.7 km can begin with a character the status reader takes for a type marker, and is lost
  whatever follows (`AltitudeComesBack`, `HighAltitudeIsLost`).
- AIVDM sentences exceed 80 characters exactly when a message needs ten or more (`SentencesFit`,
  `LongMessagesDoNotFit`), which no frame the receiver delivers does (`FramesFit`).
- Printed pins are read back exactly when they are well formed, and pins read from any text are (`RoundTrip`,
  `PinsAreWellFormed` in `NixPins`).

## Model

| member | source | states |
|---|---|---|
| Cpr.SnapIsNearest | crates/channels/src/synth/adsb.rs:266-277 | quantising a coordinate moves it by at most half of one grid step |
| Cpr.EncodeMeaning | crates/channels/src/synth/adsb.rs:266-277 | for every point, zone size and parity the encoder sends, for each coordinate, its grid line modulo one zone; longitude zones are those of the snapped latitude |
| Cpr.NlCountsBoundaries | crates/channels/src/adsb.rs:439-445 | NL is 59 less the number of table boundaries at or below the absolute latitude, boundary by boundary |
| Cpr.NlAntitone | crates/channels/src/adsb.rs:439-445 | NL depends on the absolute latitude alone and never grows towards a pole |
| Cpr.ZoneDifference | crates/channels/src/adsb.rs:453-453 | the rounded difference formula recovers both zone indices from the two fractions whenever quantisation noise is below half a zone |
| Cpr.GridDifference | crates/channels/src/adsb.rs:453-453 | for every coordinate and 2 to 60 zones the quantisation noise is below that bound |
| Cpr.ZonesRecovered | crates/channels/src/adsb.rs:453-455 | for any point, each parity gets back its own zone index modulo its own zone count |
| Cpr.GlobalLatitudes | crates/channels/src/adsb.rs:453-462 | both latitudes the global decoder forms are the snapped latitudes, in range, after the wrap at 270 |
| Cpr.GlobalRoundTrip | crates/channels/src/adsb.rs:447-483 | for every latitude in [-90, 90] and every longitude, the even and odd encodings decode to the point within half a step of the later parity, longitude modulo 360, exactly when both snapped latitudes have the same NL; otherwise to nothing |
| Cpr.StraddlingFails | crates/channels/src/adsb.rs:466-469 | at latitude 86.999978 the two encodings fall on either side of a zone boundary, and no longitude is solved |
| Cpr.GlobalRange | crates/channels/src/adsb.rs:447-483 | on any two 17-bit fixes a solved latitude is in [-90, 90] and the longitude in [-180, 180) |
| Cpr.LocalIsNearest | crates/channels/src/adsb.rs:489-491 | the local decoder returns the one point of the fraction's class within half a zone of the reference, and a zone index gives that point exactly when it lies there |
| Cpr.NearestEscapes | crates/channels/src/adsb.rs:497-504 | the point of a class nearest a reference lies west of the date line exactly when the first point of the class east of it is more than half a zone east of the reference; then it is that point less one zone |
| Cpr.LocalRoundTrip | crates/channels/src/adsb.rs:485-505 | for every reference, zone size and parity, a point whose snapped position lies within half a zone of the reference is recovered exactly: the snapped latitude, and the snapped longitude or, from 180 on, that less one turn; so within half a grid step of the point |
| Cpr.LocalRange | crates/channels/src/adsb.rs:485-505 | on any code a position is solved exactly when the latitude nearest the reference is one, and its longitude is in [-180, 180) exactly when the first point of the code beyond the date line is no more than half a zone from the reference |
| Cpr.LocalStaysInRange | crates/channels/src/adsb.rs:485-505 | with a reference at least half a zone east of the date line no longitude escapes |
| Cpr.LocalLongitudeEscapes | crates/channels/src/adsb.rs:501-504 | a fix whose longitude comes out at -225, since only the upper side is wrapped |
| ModeS.StepXor | crates/dsp/src/fec.rs:371-377 | one step of the parity register is linear |
| ModeS.OctetsAreSerial | crates/dsp/src/fec.rs:379-388 | feeding whole octets, xored in at the top and stepped eight times, is feeding their bits one by one |
| ModeS.OverlayXor | crates/dsp/src/fec.rs:399-407 | the overlay of the bitwise sum of two frames is the sum of their overlays |
| ModeS.FlipOverlay | crates/dsp/src/fec.rs:410-419 | flipping one bit changes the overlay by that bit's table entry |
| ModeS.AccumulatedIsExact | crates/channels/src/adsb.rs:693-697 | for any list of positions, the overlay folded from the table is the overlay recomputed on the flipped frame |
| ModeS.ZeroOverlay | crates/dsp/src/fec.rs:391-407 | the whole frame leaves no remainder exactly when its overlay is zero, so syndrome and overlay agree on good frames |
| ModeS.UnitRemainder | crates/dsp/src/fec.rs:441-449 | the remainder of a single set bit is the generator stepped once for each bit after it, which the repair walks through |
| ModeS.FixIsExact | crates/dsp/src/fec.rs:436-451 | single-bit repair answers only for a wrong frame, with a bit whose flip makes it right, and finds nothing only when no bit does |
| ModeS.OneErrorIsUndone | crates/dsp/src/fec.rs:436-451 | a good frame of either length with any one bit wrong is mended at that very bit |
| ModeS.OverlayComesBack | crates/dsp/src/fec.rs:421-434 | every message can be given a parity field with every overlay, zero among them, and that is the overlay found |
| ModeSDivision.OverlayIsRemainder | crates/dsp/src/fec.rs:391-407 | the overlay of a frame is its remainder when divided, as a polynomial over two elements, by x^24 and the terms of 0xFFF409 |
| Chase.WeakestBits | crates/channels/src/adsb.rs:231-240 | the loop over six sorted slots computes the specification WeakestOf |
| Chase.WeakestAreWeakest | crates/channels/src/adsb.rs:231-240 | for all finite reliabilities: six distinct positions outside the format field, the least reliable first, and every position left out after them; of equally reliable ones the earlier is first |
| Chase.CountIsChosen | crates/channels/src/adsb.rs:686-692 | a mask flips as many bits as it has ones |
| Chase.ChosenFacts | crates/channels/src/adsb.rs:686-692 | a tried mask flips at least one bit, at most the number its format allows, each once, all among the weakest and none in the format field |
| Chase.FormatKept | crates/channels/src/adsb.rs:693-697 | flipping bits outside the format field keeps the downlink format |
| Chase.AttemptIsSound | crates/channels/src/adsb.rs:686-706 | whatever one attempt returns is a sound repair: the flipped frame, its format, an address that is vouched for and that the parity of the flipped frame gives |
| Chase.CombinationIsTried | crates/channels/src/adsb.rs:686-697 | every permitted combination of the weakest bits is flipped by some tried mask |
| Chase.Chase | crates/channels/src/adsb.rs:671-708 | the loop over the masks returns the first repair in mask order |
| Chase.ChaseIsExact | crates/channels/src/adsb.rs:671-708 | a result is always a sound repair, and there is none exactly when no permitted combination of distinct weakest bits gives, by the parity of the flipped frame itself, an address that is vouched for |
| Chase.RepairIsByFormat | crates/channels/src/adsb.rs:671-708 | by downlink format: a result exactly when one to six of the weakest bits of a 17 or 18 leave a frame of 112 bits without remainder, or one or two of a 16, 20, 21 or of the 56 bits of a 0, 4, 5 leave a vouched address over the parity; the address is bits 8 to 31 or that overlay |
| Adsb.Oldest | crates/channels/src/adsb.rs:537-542 | the entry evicted is the first with the least last use |
| Adsb.SlotKeepsOthers | crates/channels/src/adsb.rs:529-546 | finding or making a slot keeps addresses distinct and at most 64, leaves every other entry alone, and evicts only from a full cache the entry used longest ago |
| Adsb.AttributionIsExact | crates/channels/src/adsb.rs:652-669 | a frame is attributed exactly when its parity is right for its format: zero, or one flip from zero with repair on; within the interrogator codes; or an address vouched for |
| Adsb.SliceIsAttributed | crates/channels/src/adsb.rs:652-669 | for each downlink format in numbers: the frame length, the parity it needs, the address it gives and whether that is proof |
| Adsb.FindHitIsExact | crates/channels/src/adsb.rs:711-741 | of the phases the screen lets through whose preamble holds in the window, the first whose frame is attributed gives the hit, and only when there is none is the first of the most confident refused frames offered for repair |
| Adsb.RepairedIsExact | crates/channels/src/adsb.rs:734-741 | a refused frame is repaired exactly when flips its format allows make it a message of a vouched aircraft; the hit is that message, cut to its length, and proves nothing |
| Adsb.HitIsBelievable | crates/channels/src/adsb.rs:717-741 | whatever the phase loop and the repair after it accept is a direct attribution, or an address vouched for by the cache |
| Adsb.VouchedIsCached | crates/channels/src/adsb.rs:602-608 | a vouched address already has a slot, so unproved messages never insert or evict |
| Adsb.UnprovedKeepsProofs | crates/channels/src/adsb.rs:592-600 | accepting a message that proves nothing changes no proof and moves no aircraft: trust cannot extend itself |
| Adsb.AcceptKeepsCache | crates/channels/src/adsb.rs:745-751 | accepting keeps the cache bounded, distinct, proven no later than last used, and every entry the latest fixes, use and proof that the message log holds for its address |
| Adsb.AcceptedIsTrusted | crates/channels/src/adsb.rs:602-608 | every accepted message proves its own address, or an earlier message in the log proved it no more than the allowed age before |
| Adsb.AcceptedPosition | crates/channels/src/adsb.rs:548-590 | the position of an airborne fix is the one the log determines: the latest even and odd fixes of the address, within the pairing age, or else the reference |
| Adsb.AcceptKeepsRadio | crates/channels/src/adsb.rs:742-758 | one accepted message keeps the whole invariant of cache, log, trust, positions and stamps |
| Adsb.EvictsLeastRecent | crates/channels/src/adsb.rs:529-546 | in every state that keeps the invariant, the aircraft a message pushes out was heard from no later than any other in the cache; the cache was full, and the message proved itself and came from an aircraft not in it |
| AdsbPosition.LogsMessage | crates/channels/src/adsb.rs:610-650 | the logged message has the stamp, sender and format of the hit; an airborne squitter logs parity bit 53, latitude bits 54 to 70 and longitude bits 71 to 87 of its frame, and no other message logs a code |
| AdsbPosition.SurfaceIsLocal | crates/channels/src/adsb.rs:638-645 | a squitter on the surface carrying a code in those bits is placed by the local decoder with zones of 90 degrees, and by nothing else |
| AdsbPosition.AirbornePosition | crates/channels/src/adsb.rs:564-590 | from its bits: an airborne squitter is paired with the latest code of the other parity its aircraft logged since it got its slot, when that is within the pairing age and solves, and is placed locally by the reference otherwise |
| AdsbPosition.PairIsPlaced | crates/channels/src/adsb.rs:548-590 | from bits to a place: when a squitter carries the encoding of a point and that partner carried the same point, and both snapped latitudes have the same NL, the logged position is the point within half a step, longitude modulo 360 |
| AdsbPosition.TwoSquittersArePlaced | crates/channels/src/adsb.rs:548-590 | the same for two squitters of one aircraft accepted one after the other, from any state that keeps the invariant |
| AdsbPosition.VouchedIsExact | crates/channels/src/adsb.rs:602-608 | in every such state an address is vouched for exactly when its aircraft is in the cache and some logged message proved it no more than the allowed age before |
| AdsbStream.EveryRunIsSafe | crates/channels/src/adsb.rs:592-608 | over every run and every cutting into blocks: each message proves its address or follows a proof of the same address within the allowed age; the cache is bounded, distinct and proven; positions come from the latest logged fixes; stamps rise |
| AdsbStream.ScanNeverOverlaps | crates/channels/src/adsb.rs:813-816 | within one call no message starts inside the frame of the one before it |
| AdsbStream.CuttingIsExact | crates/channels/src/adsb.rs:807-820 | the messages of a cut stream are those of the stream in one block exactly when no message starts inside the frame before it |
| AdsbStream.CuttingIsQuiet | crates/channels/src/adsb.rs:807-820 | the same condition on the single-block run and the cut points: cutting changes nothing exactly when, wherever a frame of that run reaches over the scan limit of a cut, nothing is found from the limit to the end of the frame |
| AdsbStream.CleanCutsAreInvisible | crates/channels/src/adsb.rs:807-820 | when no accepted frame crosses its block's scan limit, any cutting gives the same run |
| AdsbStream.CuttingMatters | crates/channels/src/adsb.rs:812-819 | with the frame geometry of 2.4 MHz and a good squitter heard at the first two positions, blocks of 289 and 1 samples give other messages than one block, because the skip past a frame is not carried over |
| AdsbStream.AdsbChannel.BufferIsTail | crates/channels/src/adsb.rs:818-820 | the stream position plus the buffer length is the number of samples received, and the buffer is shorter than a frame |
| AdsbStream.AdsbChannel.constructor | crates/channels/src/adsb.rs:767-789 | a new channel has heard nothing and is valid |
| AdsbStream.AdsbChannel.Slot | crates/channels/src/adsb.rs:529-546 | updates the cache to the specified slot and returns its index |
| AdsbStream.AdsbChannel.Pair | crates/channels/src/adsb.rs:548-562 | stores the fix and returns the specified global position |
| AdsbStream.AdsbChannel.Observe | crates/channels/src/adsb.rs:592-600 | stamps the entry, and its proof when proved |
| AdsbStream.AdsbChannel.Take | crates/channels/src/adsb.rs:745-757 | an accepted hit changes cache and messages as specified and nothing else |
| AdsbStream.AdsbChannel.TryFrame | crates/channels/src/adsb.rs:710-759 | one candidate position does what the specification does there |
| AdsbStream.AdsbChannel.NextCandidate | crates/channels/src/adsb.rs:814-814 | returns the first position at or after the given one that the preamble screen does not find quiet, with its phases |
| AdsbStream.AdsbChannel.Advance | crates/channels/src/adsb.rs:814-816 | one turn of the scan loop leaves the rest of the scan equal to the specified scan |
| AdsbStream.AdsbChannel.Process | crates/channels/src/adsb.rs:807-820 | a block advances cache and messages to the specification, and the positions scanned are exactly those from the old stream position to the new |
| Hdlc.PushStuffed | crates/channels/src/aprs.rs:1284-1291 | appends the stuffed form of one bit and returns the new run length |
| Hdlc.PushFlags | crates/channels/src/aprs.rs:1265-1271 | appends that many flags |
| Hdlc.PushFrame | crates/channels/src/aprs.rs:1273-1282 | appends the stuffed frame with its check sequence and one closing flag |
| Hdlc.UnstuffsData | crates/dsp/src/bits.rs:76-95 | from any state that has seen fewer than five ones, the deframer collects exactly the bits that were stuffed, and emits nothing |
| Hdlc.FlagCloses | crates/dsp/src/bits.rs:127-141 | a flag after whole octets emits them once, within the length bounds, and leaves the deframer synchronised |
| Hdlc.FlagsAreSilent | crates/dsp/src/bits.rs:76-141 | any number of flags between frames leaves the deframer synchronised and silent |
| Hdlc.FrameComesBack | crates/channels/src/aprs.rs:1273-1282 | one transmitted frame comes back whole with its check sequence, and once |
| Hdlc.StuffedRuns | crates/channels/src/aprs.rs:1284-1291 | stuffed data holds no six ones in a row, even with the run before it and the zero after it |
| Hdlc.SixOnesOnlyInFlags | crates/channels/src/aprs.rs:1265-1291 | on the line, six ones start at a position exactly when it is the second bit of a flag |
| HdlcRead.StuffingIsUndone | crates/channels/src/aprs.rs:1284-1291 | leaving out the bits that follow five ones undoes the transmitter's stuffing |
| HdlcRead.EmissionIsExact | crates/dsp/src/bits.rs:76-141 | on any bits at all, a frame comes out exactly at a zero after six ones that closes a line opened by a flag, with nothing after six ones in between, whose bits without those that follow five ones are the frame's 17 to 330 octets and the five or six that begin a flag |
| AprsTx.LineRoundTrip | crates/channels/src/aprs.rs:914-934 | NRZI, and G3RUH scrambling over it, lose nothing: decoding the levels gives exactly the bits, from any line state |
| AprsTx.GeneratedSplits | crates/channels/src/aprs.rs:1223-1247 | the output for n + m samples is the output for n followed by that for m: buffer sizes do not matter |
| AprsTx.AprsTransmitter.constructor | crates/channels/src/aprs.rs:1166-1183 | a new transmitter is idle with an empty queue |
| AprsTx.AprsTransmitter.Apply | crates/channels/src/aprs.rs:1185-1197 | a new mode clears the queue and restarts the line, the queue keeping its capacity; the same mode changes nothing |
| AprsTx.AprsTransmitter.Submit | crates/channels/src/aprs.rs:1199-1221 | accepts within the length bounds and the queue's capacity, appending preamble, frame and flags; a refusal leaves the transmitter unchanged |
| AprsTx.AprsTransmitter.NextLevel | crates/channels/src/aprs.rs:1134-1137 | pops one bit through the line coder, or nothing from an empty queue |
| AprsTx.AprsTransmitter.NextSample | crates/channels/src/aprs.rs:1225-1245 | one pass of the sample loop is one step of the state machine |
| AprsTx.AprsTransmitter.Generate | crates/channels/src/aprs.rs:1223-1247 | fills the buffer with the specified samples, leaves the rest of it alone, and ends early only when the burst has |
| AprsTx.RunKeepsInvariants | crates/channels/src/aprs.rs:1185-1247 | every interleaving of submissions, samples and mode changes keeps the queue invariant and the line invariant |
| AprsTx.GenerateIsARun | crates/channels/src/aprs.rs:1223-1247 | a call with room for n samples is a run of n sample steps |
| AprsTx.StepPaysOne | crates/channels/src/aprs.rs:1227-1241 | every sample owed brings the end of the queue one sample nearer |
| AprsTx.QueueDrains | crates/channels/src/aprs.rs:1223-1247 | taking the samples owed empties the queue |
| AprsTx.SamplesCarryBits | crates/channels/src/aprs.rs:1223-1247 | over every run, of what happened since the mode was last set: keyed samples plus those remaining are samples per symbol times bits popped, and decoding them gives exactly those bits |
| AprsTx.EveryAcceptedFrameArrives | crates/channels/src/aprs.rs:1185-1291 | over every run, mode changes among them, a reference receiver in the mode last set gets the frames accepted since with their check sequences, in order and once each, and all of them once the queue is empty |
| AprsLine.G3ruhIsScrambled | crates/dsp/src/bits.rs:179-215 | each symbol a started 9600 baud line sends is the NRZI level, an odd number of zeros so far, plus its own symbols 12 and 17 places back, modulo two |
| AprsLine.AfskIsToggled | crates/channels/src/aprs.rs:914-924 | each symbol a started 1200 baud line sends says whether an odd number of zeros has been sent so far |
| AprsBurst.AcceptsIsExact | crates/channels/src/aprs.rs:1199-1221 | a frame is taken exactly when it is 15 to 328 octets long and its stuffed bits with 24 more, and 192 before them on an empty queue, fit what the queue has left |
| AprsBurst.StartedIsExact | crates/channels/src/aprs.rs:1166-1183 | a queue for five seconds, 6000 or 48000 bits, and 40 or 5 samples to a bit |
| AprsBurst.BurstIsWhole | crates/channels/src/tx.rs:63-115 | a burst left to run is the samples of its bits and 96 more: the carrier rises over the first 96, is full to the last keyed sample, falls over the last 96 and is gone |
| Crc16.CheckOctetsLeaveNoResidue | crates/dsp/src/fec.rs:12-36 | a block followed by its own CRC, low octet first, leaves residue zero |
| Crc16.WithFcsOk | crates/dsp/src/fec.rs:338-345 | a non-empty frame with its appended check sequence passes the check |
| Crc16Division.ReflectedFeeds | crates/dsp/src/fec.rs:12-26 | octet by octet is bit by bit, least significant first |
| Crc16Division.FeedingDivides | crates/dsp/src/fec.rs:12-26 | the register fed with bits holds the remainder of a division of polynomials over two elements by x^16 + x^12 + x^5 + 1 |
| Crc16Division.CcittIsRemainder | crates/dsp/src/fec.rs:33-36 | the ACARS check is the remainder of the data bits followed by sixteen zeros |
| Crc16Division.X25IsRemainder | crates/dsp/src/fec.rs:28-31 | the AX.25 check sequence is the complement of that remainder with the first sixteen bits complemented |
| Crc16Division.KnownValues | crates/dsp/src/fec.rs:12-36 | the nine digits give 0x2189 and 0x906E |
| Ax25.PushAddress | crates/channels/src/aprs.rs:1250-1263 | appends the specified seven-octet field |
| Ax25.BuildUiFrame | crates/channels/src/aprs.rs:1115-1132 | builds the specified frame: destination, source, hops with marks, control, protocol, text |
| Ax25.ReadAddress | crates/channels/src/aprs.rs:286-317 | the character loop computes the specified address or refusal |
| Ax25.DecodeAddresses | crates/channels/src/aprs.rs:327-342 | on any octets at most ten addresses are read, ending inside the body |
| Ax25.ReadAddresses | crates/channels/src/aprs.rs:327-342 | the address loop ends on any octets and computes the specified list |
| Ax25.ReadFrame | crates/channels/src/aprs.rs:327-377 | the parser computes the specified packet or refusal |
| Ax25.AddressRoundTrip | crates/channels/src/aprs.rs:286-317 | for every canonical callsign, mark and position, reading the written field gives them back |
| Ax25.PathRoundTrip | crates/channels/src/aprs.rs:330-342 | the fields of any path within the limit are read back in order from anywhere in a body |
| Ax25.AddressesRoundTrip | crates/channels/src/aprs.rs:1115-1132 | destination, source and a path of up to eight hops are read back in order, up to the control field |
| Ax25.FrameRoundTrip | crates/channels/src/aprs.rs:327-393 | for all canonical callsigns, paths of up to eight hops and any text, parsing the built frame with any check octets gives source, destination, path, text and TNC2 line back |
| Ax25Octets.FrameOctets | crates/channels/src/aprs.rs:1115-1132 | every octet of a built frame: doubled letters padded with 0x40, SSID octets of 0x60, twice the SSID, mark and last bit, then 0x03, 0xF0 and the text |
| Ax25Octets.AddressIsExact | crates/channels/src/aprs.rs:286-317 | seven octets are read as an address exactly when they are doubled letters and digits, at least one, then doubled spaces; the SSID, marks and text of the callsign in numbers |
| Ax25Octets.AddressesAreExact | crates/channels/src/aprs.rs:327-342 | a list of addresses is read exactly when the octets hold it, the last alone marked so, up to ten |
| Ax25Octets.FrameIsExact | crates/channels/src/aprs.rs:327-377 | on any octets a packet is read exactly when they say it: two to ten addresses, a control octet, a protocol octet skipped after an even control octet or 0x03 or 0x13, and the rest as text |
| AprsRx.SearchIsExact | crates/dsp/src/fec.rs:352-361 | the search for a burst of one length returns the first flip that mends the frame, and fails only when none does |
| AprsRx.RepairIsExact | crates/dsp/src/fec.rs:347-363 | a good frame is left alone; a repaired one has a good check sequence and one burst of one or two bits flipped; a frame is given up only when no such burst mends it |
| AprsRx.CheckedIsExact | crates/channels/src/aprs.rs:272-278 | a delivered frame becomes r exactly when it parses, r parses and passes the check, and r is the frame itself or, when it fails the check, the frame with the first one-bit flip that mends it or, failing those, the first two-bit one |
| AprsRx.AprsChannel.constructor | crates/channels/src/aprs.rs:225-238 | a new channel has heard nothing |
| AprsRx.AprsChannel.Process | crates/channels/src/aprs.rs:251-270 | a call drops old entries and emits and remembers the new frames as specified |
| AprsRx.FilterIsExact | crates/channels/src/aprs.rs:251-270 | over every run of calls the events are precisely the frames that a delivered frame becomes, by that relation, with no identical event less than 48000 samples before |
| AprsRx.FrameGoesOut | crates/channels/src/aprs.rs:251-278 | one delivered frame: r goes out exactly when the frame becomes r and no frame remembered equals it, and nothing does exactly when whatever it becomes is remembered |
| AprsRx.EqualEmissionsAreFarApart | crates/channels/src/aprs.rs:251-270 | two equal events of any run are at least 48000 samples apart |
| AprsRx.MessageArrives | crates/channels/src/aprs.rs:1115-1247 | a canonical message accepted in any run is received once the queue is empty, passes the check unmended and parses to what was written |
| MicE.ReadDestination | crates/channels/src/aprs.rs:632-668 | the character loop computes the specified destination field or refusal |
| MicE.DestinationComesBack | crates/channels/src/aprs.rs:994-1011 | for every latitude up to a pole and ambiguity up to four, the destination gives back the blanked latitude, the indicators, the ambiguity and the message its three bits have in the table of messages |
| MicE.MessageIsTable | crates/channels/src/aprs.rs:591-630 | the message of three bits, case by case: Emergency for none, the seven standard and seven custom ones, and none for a mixture |
| MicE.MessageComesBack | crates/channels/src/aprs.rs:591-630 | every message sent by its bits is the message read |
| MicE.DestinationMessage | crates/channels/src/aprs.rs:632-668 | the message of any decoded destination from its first three characters: A to K custom bits, P to Z standard bits |
| MicE.MessageArrives | crates/channels/src/aprs.rs:994-1011 | a destination encoded with the bits of a message is read with that message |
| MicE.CarryIsOneDegree | crates/channels/src/aprs.rs:1014-1019 | truncated degrees agree with the rounded total, except on a carry, where the total is exactly the next whole degree |
| MicE.LongitudeDegreesComeBack | crates/channels/src/aprs.rs:720-731 | the degree byte and the offset indicator give back every degree from 0 to 179 |
| MicE.SpeedCourseComesBack | crates/channels/src/aprs.rs:733-750 | speeds to 799 and courses to 360 come back, 0 as absent and 360 as 0 |
| MicE.RoundTrip | crates/channels/src/aprs.rs:992-1037 | for every position, speed, course, symbol, message and ambiguity, the decoded report is the one sent with both coordinates blanked alike, and the longitude a degree short exactly on a carry |
| MicE.BlankedIsRoundedDown | crates/channels/src/aprs.rs:688-699 | blanking rounds a coordinate down to a tenth of a minute, a minute, ten minutes or a degree |
| MicE.PositionIsExact | crates/channels/src/aprs.rs:677-718 | the latitude always comes back rounded down; the longitude does exactly when it is not within half a hundredth of a minute below a whole degree |
| MicE.GridRoundTrip | crates/channels/src/aprs.rs:992-1037 | a position on whole hundredths of a minute comes back as itself, with speed, course, symbol and the message of its bits by the table |
| MicE.CarryLosesADegree | crates/channels/src/aprs.rs:1014-1019 | 9.99999 degrees east is read as nine |
| MicE.MetresAndBack | crates/channels/src/aprs.rs:1041-1050 | feet to whole metres and back differ by at most two feet |
| MicE.AltitudeComesBack | crates/channels/src/aprs.rs:752-773 | with the clamp inactive, and whatever text follows, the field is read, and within two feet, exactly when the first base-91 digit of its metres is none of 6, 29, 60 and 63, whose characters are type markers; behind a one-character marker it always is |
| MicE.HighAltitudeIsLost | crates/channels/src/aprs.rs:752-758 | the altitude field for 131000 ft is not read, whatever follows it |
| MicERead.DestinationIsExact | crates/channels/src/aprs.rs:632-668 | any six characters: which are read as a destination, and the latitude, indicators and ambiguity they give, in character numbers |
| MicERead.TextIsExact | crates/channels/src/aprs.rs:677-750 | any text: which are read as a report, and the speed, course, symbol, sign and longitude they give, in character numbers |
| MicERead.ReportIsExact | crates/channels/src/aprs.rs:632-718 | any destination and text: a report is read exactly when the text opens with 0x60, 0x27, 0x1C or 0x1D, and both are read |
| MicERead.AltitudeIsExact | crates/channels/src/aprs.rs:752-773 | any status text: where its altitude is looked for, and which are read as one |
| MicEAir.ReportArrives | crates/channels/src/aprs.rs:992-1247 | a Mic-E report accepted as a UI frame in any run is received once the queue is empty and read as the report sent |
| Acars.Framer.constructor | crates/channels/src/acars.rs:185-195 | a new framer hunts, upright, one bit from its next octet |
| Acars.Framer.Restart | crates/channels/src/acars.rs:197-202 | back to hunting, keeping register and polarity |
| Acars.Framer.Sync | crates/channels/src/acars.rs:246-268 | reacts to an octet while hunting or awaiting the second SYN as specified |
| Acars.Framer.Push | crates/channels/src/acars.rs:204-244 | one bit takes the framer to the specified state, with bit counter and check index in range, and emits the specified message |
| Acars.Framer.Collect | crates/channels/src/acars.rs:212-243 | a whole octet takes the framer to the specified state |
| Acars.BitKeepsReading | crates/channels/src/acars.rs:204-244 | after every bit the state says what the received bits spell; a message means they spell a whole framed block |
| Acars.EmissionsAreFramed | crates/channels/src/acars.rs:204-282 | over any bits, whenever a message is emitted the bits just received spell, in one polarity, SYN SOH, a block within the length bounds of odd-parity octets ended by its only terminator, and two check octets of zero residue; counters stay in range |
| AcarsRead.OddIsCounted | crates/channels/src/acars.rs:274-276 | an octet passes the parity gate exactly when it has an odd number of ones |
| AcarsRead.ParseSays | crates/channels/src/acars.rs:283-314 | the fields of any block by octet number: mode, address, acknowledgement, label, block identifier, text from 13 or, for a downlink of 24 octets or more, sequence number, flight and text from 23, and whether more follows |
| AcarsRead.MessageIsSpelled | crates/channels/src/acars.rs:204-314 | over any bits, a message comes out only when the bits just received are, in one polarity, 0x16, 0x01, a block of 13 to 241 octets of odd ones whose last alone is 0x83 or 0x97, and two octets of zero residue, and it is what that block says |
| Acars.LocksOn | crates/channels/src/acars.rs:246-268 | the first SYN in either polarity locks the framer to it, whatever polarity was stored |
| Acars.ReadsTransmission | crates/channels/src/acars.rs:204-244 | once locked, a second SYN, SOH, a valid block and its check octets give exactly its message and return to hunting |
| Acars.TransmissionIsHeard | crates/channels/src/acars.rs:197-282 | from any hunting state with a clear junction, a valid transmission sent upright or complemented gives exactly its one message and the framer hunts again |
| Acars.HeaderOpensBlock | crates/channels/src/acars.rs:246-268 | SYN SYN SOH opens a block exactly when no SYN or complement forms across the junction |
| Acars.HeaderIsMissed | crates/channels/src/acars.rs:204-268 | eight received bits after which the next SYN SYN SOH opens no block |
| Acars.SentBlockIsValid | crates/channels/src/synth/acars.rs:80-88 | a well-formed block with its appended CRC passes every gate of the framer |
| AcarsBlock.BodyIsWellFormed | crates/channels/src/synth/acars.rs:48-77 | a block of seven-bit fields that avoid the terminators goes out as odd-parity octets, within bounds, whose only terminator is the last |
| AcarsBlock.BlockComesBack | crates/channels/src/acars.rs:283-314 | parsing a sent block gives the fields meant exactly when it is readable: a downlink whose text has room for a number and a flight carries both, and no other block carries either |
| AcarsBlock.LettersTakenForNumber | crates/channels/src/acars.rs:293-304 | a downlink of ten letters without number and flight is read with a number, a flight and no text |
| AcarsBlock.SentMessageIsHeard | crates/channels/src/acars.rs:197-314 | from any hunting state with a clear junction, in either polarity, a readable block sent with header and CRC gives exactly the message meant |
| Ais.Fill | crates/channels/src/ais.rs:110-110 | fewer than six bits, completing the payload to whole groups |
| Ais.ShiftIsPadding | crates/channels/src/ais.rs:217-220 | shifting a short last group is padding it with zeros |
| Ais.ArmourComesBack | crates/channels/src/ais.rs:213-223 | reading the armour of any payload gives its bits followed by the fill |
| AisSentences.SentenceIsRead | crates/channels/src/ais.rs:239-245 | a sentence is read back field by field and its checksum verifies |
| AisSentences.ChecksumIsXor | crates/channels/src/ais.rs:239-245 | each bit of the two hexadecimal digits that end a sentence is set exactly when an odd number of the characters between its first and its star have that bit set |
| AisSentences.OneChangeIsRefused | crates/channels/src/ais.rs:239-245 | a sentence with any one character between its first and its star changed to another octet is refused by the reader |
| AisSentences.MessageComesBack | crates/channels/src/ais.rs:225-248 | for every payload, reading the sentences, checking their order and checksums, joining and de-armouring them and dropping the declared fill, which only the last may declare, gives exactly the payload bits |
| AisSentences.SentencesFit | crates/channels/src/ais.rs:225-248 | all sentences are within 80 characters exactly when there are at most nine |
| AisSentences.LongMessagesDoNotFit | crates/channels/src/ais.rs:225-248 | the first sentence of a payload of 541 characters has 81 |
| AisSentences.FramesFit | crates/channels/src/ais.rs:101-115 | no frame of at most 128 octets, the most the burst receiver delivers, makes more than three sentences or one of more than 80 characters |
| AisSentences.AisReceiver.constructor | crates/channels/src/ais.rs:82-92 | a new receiver starts its group numbers at zero |
| AisSentences.AisReceiver.Apply | crates/channels/src/ais.rs:94-99 | changes the channel letter and nothing else |
| AisSentences.AisReceiver.WriteSentences | crates/channels/src/ais.rs:225-248 | the loop writes the specified sentences and steps the group number only for several |
| AisSentences.AisReceiver.Process | crates/channels/src/ais.rs:101-115 | a batch of frames gives the specified messages and leaves the specified group number |
| AisSentences.EveryMessageCarriesItsFrame | crates/channels/src/ais.rs:101-115 | over every run the messages are the frames long enough for a header, in order, each with its type and identity and with sentences that reassemble to its whole payload |
| AisSentences.SequenceCountsGroups | crates/channels/src/ais.rs:228-234 | the group number is the count of messages of several sentences, modulo ten |
| AisSentences.SameGroupIsTenApart | crates/channels/src/ais.rs:228-234 | two messages of several sentences that share a group number are at least ten such messages apart |
| Closure.ShippedIsLeast | xtask/src/licenses.rs:359-376 | what is reachable is contained in every set that holds the roots and is closed under non-development dependencies |
| Closure.PackageIsLast | xtask/src/licenses.rs:332-336 | an id is known by the last package entry that has it |
| Closure.RootIsExact | xtask/src/licenses.rs:349-357 | a root is a member whose last entry, if it has one, is not named xtask |
| Closure.NeedsIsExact | xtask/src/licenses.rs:366-375 | a node needs a package exactly when its last entry has a dependency on it with some kind other than dev |
| Closure.Roots | xtask/src/licenses.rs:349-357 | the roots are exactly the members not known by an undistributed name |
| Closure.PushDeps | xtask/src/licenses.rs:366-375 | pushes every dependency of the node that has a kind other than dev, and nothing unreachable |
| Closure.SeenFrom | xtask/src/licenses.rs:359-376 | the worklist ends on every finite graph, cyclic or with missing nodes, and has seen exactly what the roots reach |
| Closure.Components | xtask/src/licenses.rs:344-388 | lists every reachable package from outside the workspace once, with its own entry, and nothing else |
| NixPins.ReadPins | xtask/src/nixhash.rs:380-405 | the line loop computes the specified pins |
| NixPins.PinsAreWellFormed | xtask/src/nixhash.rs:380-409 | whatever the text, the pins read from it are well formed |
| NixPins.PinTextIsRead | xtask/src/nixhash.rs:421-435 | a printed pin is read as that pin, whatever follows it |
| NixPins.SetIsFirst | xtask/src/nixhash.rs:411-419 | the set is what stands between the first opening of one in a text and the first closing after it |
| NixPins.HandWrittenIsRead | xtask/src/nixhash.rs:380-405 | a pin written by hand, its revision and entry lines indented anyhow, is read with its key, revision and hash |
| NixPins.RewriteKeepsSurroundings | xtask/src/nixhash.rs:421-435 | rewriting well-formed pins keeps the text on both sides of the set, and fails only when there is none |
| NixPins.RoundTrip | xtask/src/nixhash.rs:380-435 | in any text with a set, reading what was printed gives the pins back exactly when they are well formed |
| NixRevisions.WriteSeeded | xtask/src/nixhash.rs:437-454 | the loop over the sources writes the specified text |
| NixRevisions.WriteRecorded | xtask/src/nixhash.rs:456-464 | the loop over the pins writes the specified text |
| NixRevisions.WriteReplaced | xtask/src/nixhash.rs:466-474 | the search and update write the specified text |
| NixRevisions.Check | xtask/src/nixhash.rs:54-94 | both loops decide the specified check |
| NixRevisions.CheckIsExact | xtask/src/nixhash.rs:54-94 | the check passes exactly when every source has a pin for one of its packages, and every pin names the commit of the first source its package comes from |
| NixRevisions.SeedPinsAll | xtask/src/nixhash.rs:437-454 | after seeding every source has a pin |
| NixRevisions.SeedKeepsPins | xtask/src/nixhash.rs:437-454 | the pins already there stay, unchanged and in order, ahead of the seeded ones |
| NixRevisions.SeededIsExact | xtask/src/nixhash.rs:437-454 | each added pin is a placeholder hash under the first package of a source none of whose packages was pinned before it, at that source's commit |
| NixRevisions.RecordIsExact | xtask/src/nixhash.rs:456-464 | recording gives a pin the commit of the first source its package comes from, and leaves a pin without one |
| NixRevisions.ReplaceChangesOneHash | xtask/src/nixhash.rs:466-474 | succeeds exactly when a pin has the key; the pins read afterwards differ in that one hash exactly when the hash is printable, and the text around is the same |
| NixRevisions.RecordBringsUpToDate | xtask/src/nixhash.rs:456-464 | recording keeps keys, and all pins are then up to date exactly when none is stale |
| NixRevisions.CheckPassesAfterRun | xtask/src/nixhash.rs:113-138 | after seeding, any replacements and recording, the check passes exactly when no pin of the first text was stale, and the text around the set is unchanged; with no sources the text is left as it is |
| LockFile.ReadGitSources | xtask/src/nixhash.rs:333-370 | the loop over the packages computes the specified sources |
| LockFile.GatheredIsFaithful | xtask/src/nixhash.rs:333-370 | sources are distinct commits, each with all of its packages in order, and no git package is lost |
| LockText.RepoComesBack | xtask/src/nixhash.rs:349-355 | the name of a repository is read back from every address of it: with or without .git, a slash at the end, or a query |
| LockText.PackageIsRead | xtask/src/nixhash.rs:333-378 | a written entry is read as its git package, repository, commit and name-version, and an entry from elsewhere as none |
| LockText.LockIsRead | xtask/src/nixhash.rs:333-370 | over every written lock file the sources read are the git packages of its entries in order, gathered faithfully |
| LockFile.LockedRun | xtask/src/nixhash.rs:113-138 | with the sources of any lock file, seeding fails only for want of a set, and after a run the check passes exactly when no pin had left the lock file |

## Left out

- Floating point: angles, speeds and positions are exact reals or integers, so rounding of `f64` (CPR, Mic-E) and overflow are not modelled; the 64-bit sample counters and 12 MHz timestamps do not wrap.
- Signal processing: magnitudes, preamble correlation, bit slicing and the screen are functions of a window that a configuration supplies; reliabilities are finite reals. How good they are is not modelled.
- The unmodelled parts of ADS-B messages: altitude, velocity, callsign, squawk, air/ground state, signal level and the hexadecimal copy.
- ADS-B settings changes and a live reference position: a run has one configuration and one reference. The screen is a function of one window; that it passes every position of a tile it has no samples for changes nothing, since each is checked again.
- AprsTx.EveryAcceptedFrameArrives: frames still queued when the mode changes are dropped, as in the source; it speaks of those accepted since.
- Single-bit ADS-B repair may flip a format bit while the reported format stays the sliced one; the model does the same and no claim is made about such a message beyond its trust.
- AdsbStream.CuttingMatters: the frame geometry is the channel's; what the demodulator hears in a window, and which windows the screen passes, are given by the configuration as everywhere in the model.
- Cpr.EncodeMeaning: the encoder takes its number of longitude zones from the receiver's table; the cited encoder computes it by a trigonometric formula of its own, which the repository checks against the table and this model does not.
- Cpr.LocalRoundTrip: the condition is on the snapped position, which is what the decoder can see; a point within half a zone can snap to just outside it.
- APRS modulation: tone and carrier phase, deviation and the ramp's shape; a sample is its level, its step on the ramp and whether it is keyed. The sample rate is 48 kHz.
- APRS reports other than Mic-E, comment text and comment altitudes, weather, and which demodulator found a frame.
- MicE.RoundTrip: symbols are graphic characters and the status text is carried along; its comment is not interpreted beyond the altitude field.
- Acars.TransmissionIsHeard: one transmission from a hunting state; the trailing DEL is further input to the framer. Text fields of a message are cut out as in the source, without its trimming and substitution of unprintable characters.
- AIS bursts and the per-type fields (positions, names, speeds) of a message beyond its type and identity.
- AIS and pin text is a sequence of characters; encodings are not modelled.
- Licence files, `cargo metadata` itself, and the pnpm half of the licence listing. Packages and nodes come as lists, and a repeated id keeps its last entry.
- The pnpm hash and its marker, running Nix or Docker, reading its error output, and choosing the key to replace from it: the replacements of a run are any list of edits.
- NixRevisions.CheckPassesAfterRun: the sources' keys and commits and the replaced hashes must be printable, which `cargo` and `nix` output is; otherwise the printed set does not read back (see `NixPins.RoundTrip`).
- LockText.LockIsRead: it is about lock files as Cargo lays them out, with no quotation marks inside fields; any other text is cut into packages and fields as in the source, with no separate grammar to compare it with.
- Cpr.NlCountsBoundaries: the latitudes of the table are the source's own numbers; they are not derived from the formula they tabulate.
