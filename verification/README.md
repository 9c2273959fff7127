# Verification of the node's protocol core and flash stores

A Dafny model of the deterministic core of an AX.25 / NET/ROM packet-radio node
for small microcontrollers, with machine-checked proofs about it. `dafny verify
dfyconfig.toml` checks the whole project.

What is modelled, one module per component of the repository:

| modules | component |
|---|---|
| `LinkContext`, `Session` | sequence variables, guards and frame actions of the connected-mode link (section 4.2.2 and 6.4 of AX.25 v2.2) |
| `SelectiveRepeat`, `SelectiveRepeatSafety`, `SelectiveRepeatLimit`, `SelectiveRepeatProgress`, `SelectiveRepeatBurst` | two such stations over channels that lose frames: runs of any length |
| `Crc`, `CrcDetection` | the frame check sequence (section 3.7 of AX.25 v2.2), and what it detects |
| `KissFrame`, `KissEncoder`, `KissDecoder`, `AckMode`, `SerialModem` | the KISS codec and the serial modem around it |
| `AckTable`, `AckCorrelator` | outstanding acknowledged sends |
| `Callsigns`, `CallsignText`, `CallsignOrder`, `Addresses`, `Frames` | callsigns, address slots and the frame codec at both control-field widths (section 3 of AX.25 v2.2) |
| `Bridge` | frame intents to octets and octets to session events |
| `AbStore`, `FlashRecord`, `NorFlash`, `LittleEndian` | the two-sector flash discipline over abstract slots, and the record format and sectors both stores share |
| `ConfigRecord`, `ConfigStore`, `Milliohms` | the configuration record, its service over the bytes in flash, and the shunt value's text |
| `RouteRecord`, `NetromStore` | the persisted routing table and its wear gate |
| `TncImage`, `TncWriter` | the modem firmware image staged in flash, header last |
| `DamagedRecords` | what the check words of all records in flash keep out |
| `KeptRoutes`, `TableView`, `Datagrams`, `Forwarding`, `Connector`, `TransitOverTable` | NET/ROM next-hop choice, datagrams, forwarding, and the interlink seam |
| `NoiseFloor`, `RssiLevels`, `RssiTagger`, `Ring` | signal-strength statistics |
| `CapabilityCache`, `KeyedSlots` | what is learned of neighbours |
| `MonitorLog` | the traffic monitor's ring |
| `Arithmetic`, `Common` | shared vocabulary |

Code that changes state in place is a class or a method over arrays, proved to
compute a function of its old state; the main results are lemmas about those
functions and about runs of them. Frame history tags in `SelectiveRepeat`, ghost
logs in the classes and the list of erased sectors in `TncImage` only record what
has happened: nothing decides by them.

## Main results

- **The window rule is exactly right.** Over all runs of sends, retransmissions,
  losses and receptions, at modulus 8 and 128, each user is handed a prefix of what
  the other submitted if and only if, in every direction whose receiver buffers out of
  sequence, the two enforced windows together fit the modulus
  (`FaithfulExactlyWhenWindowsFit`). The half-modulus clamp guarantees that for every
  configured window; a run in which an old frame is delivered as a new one is built for
  every pair of windows that do not fit. Where they fit and are not 0, from every
  reachable state one continuation delivers everything either user has submitted
  (`NeverStuck`). A station that hears nothing sends exactly its window
  (`BurstFillsTheWindow`).
- **The CRC** detects every burst of at most sixteen bits and every odd number of
  wrong bits in messages of any length, and a message is followed by its own check
  word exactly when the residue is 0x0F47.
- **A save that reported success survives.** In every run of any length over the bytes of
  the two sectors - boots, saves, faults, power cuts, with sectors caught in the middle reading
  as nothing, as before or as the complete record - the next boot loads that
  configuration or a later attempt (`SavedConfigSurvives`). Saves can succeed exactly
  while there is a next 32-bit generation (`SavesUntilExhausted`). If erase and write may
  lie, the read-back makes success mean the complete new record exactly when the sector
  held no stale record of its generation (`OkIsTrueExactlyWhen`).
- **The routing store** keeps the rule as long as flash does what it reports
  (`WrittenRoutesSurvive`), skips exactly tables of the same content CRC, and never skips
  one whose route quality changed. Without a read-back a reported write is durable
  exactly when the read-back it leaves out would have passed, a stale record apart
  (`WroteIsDurableExactlyWhen`). Whatever silent fault, the report can be relied on
  exactly when the table was in the service's own sector already and the other held no
  stale record (`WroteIsTrueExactlyWhen`); after one silent loss, one power cut leaves
  nothing (`SilentLossForgetsAll`).
- **A damaged record is not read.** A sector reads as a configuration or a routing table
  exactly if it starts with a complete record of it (`ConfigReadsExactly`,
  `TableReadsExactly`); up to sixteen wrong bits in a row, anywhere but in its length,
  leave no record, and anywhere in an image header no image.
- **KISS framing** does not depend on how bytes are chunked and recovers from any state
  behind one extra FEND with at most one garbage frame; without it, exactly when no
  escape is pending inside a partial frame.
- **The frame codec** round-trips a frame if and only if it is well formed for the
  link's width and meets the options in force; strict options only reject, exactly the
  inputs whose lenient reading breaks a rule that is on. Every intent is received as the
  event that says the same exactly when its path has at most eight digipeaters, and its
  octets then name the path's remote, local and digipeater callsigns.
- **Every datagram takes the way the rules say**: with measured routes preferred the
  fastest one that does not lead back, else per flow the route whose share of the total
  quality holds the circuit's FNV-1a hash, else the first one (`TransitTakes`).
- **Relaying is bounded in any network**, with looping and changing tables, by
  min(t - 1, max(1, cap)), and a ring of three honest nodes reaches that bound. What
  those results ask of a routing table the kept routes provide (`TablesHonour`).
- **Signal metadata is that of the right samples**: count, least, greatest and middle of
  exactly the levels taken in the frame's window, or standing out in its lookback, and
  times that add up (`Tagger.Attribute`).
- **A staged image is complete.** Behind writes that reported success, whatever then
  fails or is cut short, the header write included, flash shows no image or this one with
  every byte written (`StagedIsComplete`), and nothing outside the region has changed.
- **An acknowledgement tag** the counter hands out is pending already only if a caller
  chose it or it is the counter's own from at least 65535 tags ago.

## Where the code and its documentation differ

The model follows the code. The firmware is built with overflow checks
(`crates/ax25-node-fw/Cargo.toml`, line 130): a plain increment that would wrap panics.

- `netrom_store.rs` documents the read-back discipline of `config_store.rs`; `save`
  does not read back. A write that fails silently is reported as done, the generation
  moves on, and the next save erases the only good record. Its comment gives 33 bytes per
  route; the constant is 27.
- The read-back of `config_store.rs` compares the generation, not the content: after a
  save that landed but could not be read back, a save that silently does nothing reports
  success, and boot loads the earlier configuration.
- At the last 32-bit generation either store's save panics before it touches flash, and
  does so again after every reboot; what was saved last stays.
- A routing table whose content CRC is 0 is never written as the first one after boot:
  the gate starts at 0. The one route to GB7NU through GB7RDG at quality 3 is such a table.
- `forwarding.rs` describes its callsign order as that of the printed text. They differ
  exactly for the same base with one SSID in 2..9 and the other in 10..15.
- `Writer::commit` in `tnc_image.rs` does not look at an earlier failed write: after a
  flash fault it succeeds and stages an image whose bytes are not all there. Its caller
  does not commit after an error. A commit whose header write fails after its last byte
  reports failure and has staged the image.
- `address.rs` and `frame.rs` comment the end-of-address bit the other way round from
  what both encode and decode; it is set on the last slot.
- At the sequence number before the wrap, `MonitorLog::since` yields nothing, and from
  the next entry on nothing logged before it.

## Model

| member | source | states |
|---|---|---|
| LinkContext.EffectiveWindow | crates/ax25-node-core/src/sdl/context.rs:238-245 | the window enforced is never above the configured one and below it only for two reasons: it is one less than the modulus, or half the modulus under the clamp with selective reject, which it then never exceeds |
| LinkContext.RepeatedOnce | crates/ax25-node-core/src/sdl/dispatch.rs:535-569 | however often it is asked for, a frame is selectively repeated exactly once per cycle if it is outstanding, kept and not yet repeated, and never otherwise |
| LinkContext.ProgressOpensCycle | crates/ax25-node-core/src/sdl/dispatch.rs:390-397 | only an acknowledgement that makes progress opens the next cycle |
| LinkContext.OffsetOfCounters | crates/ax25-node-core/src/sdl/context.rs:211-222 | the ring distance of two residues is the distance of the unbounded counters behind them, wherever they lie within one modulus of each other |
| LinkContext.DrainedExactly | crates/ax25-node-core/src/sdl/dispatch.rs:594-606 | what comes out of the store are the payloads kept under V(R) and the numbers after it, in order and as far as there is no gap; exactly those leave it, and V(R) moves behind them |
| Session.SessionContext.constructor | crates/ax25-node-core/src/sdl/context.rs:142-183 | a fresh session: window 4, modulo 8, no selective reject, clamp on, all counters zero and stores empty |
| Session.SessionContext.ResetState | crates/ax25-node-core/src/sdl/context.rs:269-288 | counters, stores, queue and flags are cleared; the negotiated window, modulus and options stay |
| Session.SessionContext.PruneAcknowledgedSentIFrames | crates/ax25-node-core/src/sdl/context.rs:251-265 | exactly the retained frames that are no longer outstanding go; nothing else changes |
| Session.SessionContext.AssignVaNr | crates/ax25-node-core/src/sdl/dispatch.rs:390-397 | V(A) becomes N(R), and only on progress are acknowledged frames forgotten and the retransmission marks cleared |
| Session.SessionContext.SendIFrame | crates/ax25-node-core/src/sdl/dispatch.rs:502-523 | a frame goes out with N(S) = V(S) and N(R) = V(R), is kept under that number, and V(S) advances |
| Session.SessionContext.SendOldIFrame | crates/ax25-node-core/src/sdl/dispatch.rs:535-569 | a retransmission carries what was first sent under its number; a selective one only if still outstanding and not yet repeated this cycle |
| Session.SessionContext.DrainStored | crates/ax25-node-core/src/sdl/dispatch.rs:594-606 | stored frames are delivered in order from V(R) on until one is missing |
| Session.SessionContext.ReceiveIFrame | crates/ax25-node-core/src/sdl/guard.rs:129-147 | the expected frame is delivered with all it releases, a newer one inside the window is stored if selective reject is on, any other is discarded |
| SelectiveRepeatSafety.OutstandingIsExact | crates/ax25-node-core/src/sdl/context.rs:219-245 | in every reachable state the outstanding count is the number of frames sent and not acknowledged, at most the enforced window, and the full-window guard says exactly that |
| SelectiveRepeatSafety.OutstandingNames | crates/ax25-node-core/src/sdl/context.rs:211-216 | `is_outstanding` is true of a number exactly when the one frame it can name has been sent and not acknowledged |
| SelectiveRepeatSafety.NrAlwaysValid | crates/ax25-node-core/src/sdl/guard.rs:149-155 | every arriving N(R) lies in V(A)..V(S), so N(R) error recovery is never entered |
| SelectiveRepeatSafety.NrValidExactly | crates/ax25-node-core/src/sdl/guard.rs:149-155 | the guard on N(R) passes exactly the numbers of the counters from the acknowledged to the sent frames |
| SelectiveRepeatSafety.Classification | crates/ax25-node-core/src/sdl/guard.rs:129-147 | the guards tell an arriving frame apart exactly: the next one, a genuinely newer one, or a duplicate whose payload was delivered before |
| SelectiveRepeatSafety.AckRetains | crates/ax25-node-core/src/sdl/context.rs:251-265 | after an acknowledgement the retained frames are exactly those from N(R) up to V(S), each under its own number |
| SelectiveRepeatSafety.StepKeeps | crates/ax25-node-core/src/sdl/guard.rs:90-155 | every step of either station and every loss keeps the invariant that ties both stations' residues to unbounded counters |
| SelectiveRepeatSafety.RunIsFaithful | crates/ax25-node-core/src/sdl/guard.rs:129-147 | in every run of a link whose windows fit, each user has been handed exactly a prefix of what the other submitted |
| SelectiveRepeatSafety.ClampedLinkIsFaithful | crates/ax25-node-core/src/sdl/context.rs:238-245 | with the clamp on both ends, or without selective reject at all, that holds for every configured window at both moduli |
| SelectiveRepeatLimit.UnfitLinkFails | crates/ax25-node-core/src/sdl/guard.rs:142-147 | for any windows that together exceed the modulus with selective reject on there is a run after which a user has been handed something other than a prefix of what the other submitted |
| SelectiveRepeatLimit.FaithfulExactlyWhenWindowsFit | crates/ax25-node-core/src/sdl/context.rs:238-245 | all runs are faithful if and only if at every buffering end the two enforced windows together fit the modulus |
| SelectiveRepeatProgress.NeverStuck | crates/ax25-node-core/src/sdl/guard.rs:77-155 | where the windows fit and are not 0, from every reachable state there is one continuation after which each user has been handed everything the other submitted |
| SelectiveRepeatProgress.OneWayNeverStuck | crates/ax25-node-core/src/sdl/guard.rs:77-155 | one direction alone needs only its sender's window not to be 0 |
| SelectiveRepeatBurst.BurstFillsTheWindow | crates/ax25-node-core/src/sdl/guard.rs:90 | with everything acknowledged, any number of send events puts out as many frames as there are payloads queued, but no more than the events and the window (the configured one, cut to the modulus less one, or to half of it under the clamp with selective reject): the first ones in order, consecutively numbered |
| Crc.ShiftIsInjective | crates/ax25-node-core/src/crc.rs:42-55 | no two register states become the same in one bit step |
| Crc.FeedInPieces | crates/ax25-node-core/src/crc.rs:42-55 | feeding data in pieces leaves the register as feeding it at once |
| Crc.Crc16.Update | crates/ax25-node-core/src/crc.rs:42-55 | the byte loop computes the bit-serial reference: the message's bits, least significant first, entering the register one by one |
| Crc.ComputeCrc | crates/ax25-node-core/src/crc.rs:19-23 | the one-shot function is the reference CRC of the whole message |
| CrcDetection.SameCrc | crates/ax25-node-core/src/crc.rs:19-60 | two messages of equal length have the same CRC exactly when their error pattern alone leaves an empty register empty |
| CrcDetection.BurstDetected | crates/ax25-node-core/src/crc.rs:42-60 | messages that differ, and only within sixteen consecutive bits, never have the same CRC |
| CrcDetection.OddErrorsDetected | crates/ax25-node-core/src/crc.rs:42-60 | messages that differ in an odd number of bits never have the same CRC |
| CrcDetection.ResidueExactlyForOwnFcs | crates/ax25-node-core/src/crc.rs:90-111 | a message followed by a word, low byte first, has the CRC 0x0F47 if and only if that word is the message's own CRC |
| KissFrame.BodyReadsBack | crates/ax25-node-core/src/kiss/frame.rs:51-111 | a frame body reads back as its frame exactly when the command code is not one that hides a named command behind `Other` |
| KissFrame.NibblesAreCommands | crates/ax25-node-core/src/kiss/frame.rs:51-85 | every nibble is the code of exactly one command, and only an `Other` with the code of a named command or of more than a nibble changes on the way |
| KissEncoder.WriteEscaped | crates/ax25-node-core/src/kiss/encoder.rs:59-76 | one byte is written as itself or as its two-byte escape, and nothing else changes before it |
| KissEncoder.EncodeInto | crates/ax25-node-core/src/kiss/encoder.rs:26-48 | fails exactly for a port over 15 or a buffer below the worst case, leaving the buffer alone; else writes the encoding |
| KissDecoder.Decoder.Push | crates/ax25-node-core/src/kiss/decoder.rs:86-127 | the byte loop yields the frames of the byte-wise reference and leaves its state |
| KissDecoder.Decoder.DropOversize | crates/ax25-node-core/src/kiss/decoder.rs:152-164 | an over-long partial frame is dropped, counted, and skipped to the next FEND |
| KissDecoder.Decoder.Resynchronise | crates/ax25-node-core/src/kiss/decoder.rs:143-150 | a damaged partial frame is dropped and what follows skipped to the next FEND |
| KissDecoder.Step | crates/ax25-node-core/src/kiss/decoder.rs:86-179 | between bytes the buffer never exceeds its bound, and it is empty while resynchronising |
| KissDecoder.ChunksDoNotMatter | crates/ax25-node-core/src/kiss/decoder.rs:86-127 | the frames that come out do not depend on how the bytes are cut into chunks |
| KissDecoder.FramesArrive | crates/ax25-node-core/src/kiss/decoder.rs:86-179 | an idle decoder fed the encodings of any frames within the bound yields exactly those frames in order and is idle again |
| KissDecoder.StreamRecovers | crates/ax25-node-core/src/kiss/decoder.rs:86-179 | from any reachable state, one FEND and then frames, in any chunks, yield at most one garbage frame and then exactly the frames |
| KissDecoder.RecoversExactly | crates/ax25-node-core/src/kiss/decoder.rs:86-179 | without the extra FEND the frames arrive exactly when no escape is pending inside a partial frame |
| AckMode.BuildPayloadInto | crates/ax25-node-core/src/kiss/ackmode.rs:43-54 | writes the tag high byte first and the frame behind it, or fails for too small a buffer |
| AckMode.TagSurvives | crates/ax25-node-core/src/kiss/ackmode.rs:31-80 | a tagged frame is read back with its tag and data, or as an echo exactly when it has no data; never as both |
| SerialModem.SerialKissModem.ReadFrame | crates/ax25-node-core/src/kiss/serial.rs:249-272 | hands out, in order and without loss, the frames of everything read so far before it reads more |
| SerialModem.SerialKissModem.SendFrame | crates/ax25-node-core/src/kiss/serial.rs:132-140 | too large exactly over 512 bytes, and nothing is written; else the data frame's encoding is sent as far as the stream takes it, and the stream's error is reported |
| SerialModem.SerialKissModem.SendAckmode | crates/ax25-node-core/src/kiss/serial.rs:152-161 | the same for a tagged frame, whose bound does not count the tag |
| SerialModem.Loopback | crates/ax25-node-core/src/kiss/serial.rs:249-272 | the frames one modem sends, cut into any reads, are exactly the frames another hands out |
| KeyedSlots.TablePut | crates/ax25-node-core/src/kiss/ackmode.rs:205-225 | filling a free slot of a table with a new key adds that entry and changes no other |
| KeyedSlots.TableReplace | crates/ax25-node-core/src/sdl/capability.rs:217-238 | writing over a slot replaces its entry and changes no other |
| AckTable.TagsRepeatExactly | crates/ax25-node-core/src/kiss/ackmode.rs:189-196 | automatic tags are never 0, and two are equal exactly when a multiple of 65535 lies between them |
| AckTable.RegistrationsAreConserved | crates/ax25-node-core/src/kiss/ackmode.rs:205-308 | in every run each accepted registration is pending under exactly one tag or has ended in exactly one way for good, with at most the capacity pending |
| AckTable.FateHasItsCause | crates/ax25-node-core/src/kiss/ackmode.rs:244-308 | a pending send is completed by the echo of its own tag, cancelled by giving up that tag, timed out at its deadline, dropped by a reset, and touched by nothing else |
| AckTable.TimesOutExactly | crates/ax25-node-core/src/kiss/ackmode.rs:205-280 | a send accepted with a timeout is pending before it has passed since queueing and times out from then on |
| AckTable.CollisionIsOld | crates/ax25-node-core/src/kiss/ackmode.rs:189-235 | in every run, the tag the counter gives out next is pending already only if a caller chose it or it is the counter's own, given out at least 65535 tags ago |
| AckCorrelator.Correlator.NextTag | crates/ax25-node-core/src/kiss/ackmode.rs:189-196 | the next tag of the wrapping counter that skips 0 |
| AckCorrelator.Correlator.Register | crates/ax25-node-core/src/kiss/ackmode.rs:205-225 | refused for a pending tag, then for a full table, and exactly then; else the entry is added with its deadline |
| AckCorrelator.Correlator.Begin | crates/ax25-node-core/src/kiss/ackmode.rs:231-235 | registers the next tag, which is used up even if refused |
| AckCorrelator.Correlator.OnEchoTag | crates/ax25-node-core/src/kiss/ackmode.rs:252-263 | completes exactly the send pending under the tag, with the time it was queued, and frees it |
| AckCorrelator.Correlator.OnEcho | crates/ax25-node-core/src/kiss/ackmode.rs:244-247 | only a frame that is an echo is correlated, by its tag |
| AckCorrelator.Correlator.PollTimeout | crates/ax25-node-core/src/kiss/ackmode.rs:271-277 | removes one send whose deadline has passed, or none exactly when no deadline has |
| AckCorrelator.Correlator.Cancel | crates/ax25-node-core/src/kiss/ackmode.rs:282-294 | removes the tag and says whether it was pending |
| AckCorrelator.Correlator.Reset | crates/ax25-node-core/src/kiss/ackmode.rs:300-308 | empties the table and returns how many were pending |
| Callsigns.New | crates/ax25-node-core/src/ax25/callsign.rs:30-46 | succeeds exactly for at most six upper-case letters or digits and an SSID up to 15 |
| Callsigns.NewFrom | crates/ax25-node-core/src/ax25/callsign.rs:30-46 | the byte loop accepts exactly what the reference does |
| Callsigns.ParseText | crates/ax25-node-core/src/ax25/callsign.rs:52-85 | trimming, splitting at the first dash and the upper-casing loop compute the reference reading of typed text |
| CallsignText.ReadExactly | crates/ax25-node-core/src/ax25/callsign.rs:52-85 | typed text, once trimmed, is read as a callsign exactly if it is its base in any case up to the first dash, alone for SSID 0 or with the SSID in decimal behind the dash |
| CallsignText.WhiteSpaceIsIgnored | crates/ax25-node-core/src/ax25/callsign.rs:52-58 | any run of white-space characters before and after makes no difference |
| Callsigns.WriteDisplay | crates/ax25-node-core/src/ax25/callsign.rs:100-128 | writes the text form, or fails exactly when it does not fit |
| Callsigns.DisplayParsesBack | crates/ax25-node-core/src/ax25/callsign.rs:52-128 | the text form parses back to the callsign, except for the blank callsign of the wire, which has none |
| CallsignOrder.StrictTotalOrder | crates/ax25-node-core/src/netrom/forwarding.rs:209-215 | the tie-break is a strict total order: exactly one of less, equal, greater, and transitive |
| CallsignOrder.AgreesWithText | crates/ax25-node-core/src/netrom/forwarding.rs:206-215 | it agrees with the order of the printed text exactly unless the bases are equal and one SSID is 2 to 9, the other 10 to 15 |
| Addresses.EncodeInto | crates/ax25-node-core/src/ax25/address.rs:70-90 | writes the seven octets of the slot in place, or fails exactly for too short a buffer |
| Addresses.DecodeSlot | crates/ax25-node-core/src/ax25/address.rs:34-66 | the scan for the last significant character and the character check compute the reference decoding |
| Addresses.RoundTrip | crates/ax25-node-core/src/ax25/address.rs:34-90 | a slot decodes to the address it encodes, both flag bits included |
| Frames.EncodeInto | crates/ax25-node-core/src/ax25/frame.rs:392-411 | fails exactly when the buffer is shorter than the encoding; else writes it and leaves the rest alone |
| Frames.EncodeExtendedInto | crates/ax25-node-core/src/ax25/frame.rs:420-441 | the same with the second control octet behind the first |
| Frames.WriteAddressField | crates/ax25-node-core/src/ax25/frame.rs:368-387 | writes destination, source and digipeaters in order, with the end-of-address bit on the last slot only |
| Frames.ReadFrame | crates/ax25-node-core/src/ax25/frame.rs:216-352 | the decoding loop computes the reference decoding, with the first error the source would report |
| Frames.RoundTrip | crates/ax25-node-core/src/ax25/frame.rs:216-441 | a frame survives the wire if and only if it is well formed for the link's width and meets the options in force |
| Frames.AcceptedIsWellFormed | crates/ax25-node-core/src/ax25/frame.rs:216-352 | whatever is accepted is a well-formed frame that meets the options in force |
| Frames.AcceptedKeepsTail | crates/ax25-node-core/src/ax25/frame.rs:268-313 | behind the address field nothing of an accepted string is dropped, changed or added |
| Frames.ReencodingIsCanonical | crates/ax25-node-core/src/ax25/frame.rs:216-441 | re-encoding an accepted string gives a canonical form that decodes to the same frame |
| Frames.LongFieldIsRefused | crates/ax25-node-core/src/ax25/frame.rs:251-266 | a frame with more than eight digipeaters encodes to a string that is not accepted |
| Frames.StrictnessOnlyRejects | crates/ax25-node-core/src/ax25/frame.rs:229-326 | an input is accepted under given options exactly when its lenient reading breaks no rule that is on, and then with the same result |
| Frames.StrictnessIsMonotone | crates/ax25-node-core/src/ax25/parse_options.rs:27-66 | turning any option off only removes accepted inputs and never changes a result |
| Bridge.ReceivedAsMeant | crates/ax25-node-core/src/sdl/bridge.rs:121-270 | at either width an intent is received as the event of its kind with the same P/F, command bit, PID, data and wrapped sequence numbers, and decodes with the path's remote as destination, its local as source and its digipeaters in order, exactly when the path has at most eight digipeaters |
| Bridge.ClassifiesAs | crates/ax25-node-core/src/sdl/bridge.rs:311-358 | the frame an intent becomes is classified as the event that says the same |
| Bridge.KindsByOctet | crates/ax25-node-core/src/sdl/bridge.rs:311-358 | every event kind is recognised by exactly its control octet, P/F and sequence bits aside |
| Bridge.KindsParsed | crates/ax25-node-core/src/ax25/frame.rs:292-330 | the frames that may carry information without a PID are FRMR, XID and TEST, those that must be commands SABM, SABME and DISC, those with a PID I and UI |
| Bridge.SequenceNumbersSurvive | crates/ax25-node-core/src/sdl/bridge.rs:194-233 | N(S) and N(R) of an information frame arrive unchanged exactly when they are below the link's modulus |
| Bridge.WrongWidthMisreads | crates/ax25-node-core/src/sdl/bridge.rs:11-22 | extended octets read at modulo 8 are accepted, with N(R) and P taken for the PID and the PID for data |
| Bridge.WireSink.SendFrame | crates/ax25-node-core/src/sdl/bridge.rs:272-275 | appends one frame that is received at the link's width as what was asked for and decodes with the callsigns of the path in their places, exactly when the path is short enough |
| Bridge.WireSink.SendLinkMux | crates/ax25-node-core/src/sdl/bridge.rs:279-286 | a seize request, and no other signal, is remembered |
| AbStore.Durability | crates/ax25-node-fw/src/config_store.rs:269-391 | after any run of boots, saves, faults and power cuts, however long, boot finds the value of the last save that reported success or of one attempted later |
| AbStore.SavesUntilExhausted | crates/ax25-node-fw/src/config_store.rs:349-391 | in every reachable state a save can report success exactly while there is a next 32-bit generation, and then boot loads it; without one the node goes down with flash as it was |
| AbStore.ExhaustedKeepsTheLast | crates/ax25-node-fw/src/config_store.rs:349-391 | the last generation is reached by 2^32 - 1 saves; from then on every save brings the node down, and every boot loads the last value saved |
| AbStore.NeverErasesTheNewest | crates/ax25-node-fw/src/config_store.rs:349-391 | were the sector a save is about to erase lost, boot would still find an acceptable record |
| AbStore.FaultHasOutcome | crates/ax25-node-fw/src/config_store.rs:349-391 | a sector left reading as nothing, as before, or as the complete record ends the save in one of the outcomes of the run model |
| FlashRecord.SealedReadsBack | crates/ax25-node-fw/src/config_store.rs:269-293 | a sector that starts with a sealed record gives back its generation, size and body, whatever follows it |
| NorFlash.ProgramOnErased | crates/ax25-node-fw/src/config_store.rs:349-391 | only onto erased bytes does a write, which can only clear bits, store what it is given |
| ConfigRecord.RoundTrip | crates/ax25-node-fw/src/config_store.rs:125-240 | a stored configuration reads back unchanged if and only if its mode is at most 15; otherwise only the mode is lost |
| ConfigRecord.EncodeIsComplete | crates/ax25-node-fw/src/config_store.rs:125-184 | no field is ever dropped for space: the longest configuration takes 264 bytes |
| ConfigRecord.UnknownFieldIgnored | crates/ax25-node-fw/src/config_store.rs:188-240 | a field with an unknown tag at any field boundary of any payload changes nothing |
| ConfigRecord.MisfitFieldIgnored | crates/ax25-node-fw/src/config_store.rs:188-240 | so does a number or flag of the wrong length |
| ConfigRecord.FlagIsNotZero | crates/ax25-node-fw/src/config_store.rs:188-240 | any byte but 0 sets a flag |
| ConfigRecord.TextIsReadOrCleared | crates/ax25-node-fw/src/config_store.rs:188-240 | a text field that is UTF-8 and not too long is stored as it is, and any other clears its field; no other field changes |
| ConfigRecord.TruncationKeepsPrefix | crates/ax25-node-fw/src/config_store.rs:188-240 | a payload cut inside a field keeps every field before the cut |
| ConfigRecord.EncodeInto | crates/ax25-node-fw/src/config_store.rs:125-184 | the cursor loop over the 512-byte buffer computes the reference encoding |
| ConfigRecord.DecodePayload | crates/ax25-node-fw/src/config_store.rs:188-240 | the cursor loop over a payload computes the reference decoding |
| ConfigRecord.DecodedIsTyped | crates/ax25-node-fw/src/config_store.rs:188-240 | whatever the bytes, what is read from them fits the field types |
| ConfigStore.RecordReadsBack | crates/ax25-node-fw/src/config_store.rs:269-293 | a sector that starts with a complete record reads as that record |
| DamagedRecords.BurstIsNoticed | crates/ax25-node-core/src/crc.rs:19-60 | a message with its check word behind it, hit by up to sixteen wrong bits in a row anywhere, no longer checks |
| DamagedRecords.RecordReadsExactly | crates/ax25-node-fw/src/config_store.rs:269-293 | generation, size and body are read exactly from a sector that starts with the sealed record of them |
| DamagedRecords.ConfigReadsExactly | crates/ax25-node-fw/src/config_store.rs:269-293 | a sector reads as a generation and configuration exactly if it starts with a record of that generation whose payload decodes to it |
| DamagedRecords.DamagedConfigIsInvalid | crates/ax25-node-fw/src/config_store.rs:269-293 | a configuration record with up to sixteen wrong bits in a row outside its length is not read |
| DamagedRecords.TableReadsExactly | crates/ax25-node-fw/src/netrom_store.rs:200-254 | a sector reads as a generation and routing table exactly if it starts with a record of them |
| DamagedRecords.DamagedTableIsInvalid | crates/ax25-node-fw/src/netrom_store.rs:200-254 | a routing record with up to sixteen wrong bits in a row outside its count is not read |
| DamagedRecords.DamagedHeaderIsNone | crates/ax25-node-fw/src/tnc_image.rs:171-195 | an image header with up to sixteen wrong bits in a row anywhere stages no image |
| ConfigStore.ConfigService.constructor | crates/ax25-node-fw/src/config_store.rs:307-323 | boot adopts the newest valid record and its generation, or starts empty at 0; what it adopts can be saved again |
| ConfigStore.ConfigService.Save | crates/ax25-node-fw/src/config_store.rs:349-391 | panics with flash untouched exactly at the last generation; else changes only the sector of the next generation's parity, and reports success and adopts the generation exactly when erase and write report none of their errors and the sector reads as a record of that generation |
| ConfigStore.OkIsTrueExactlyWhen | crates/ax25-node-fw/src/config_store.rs:383-390 | whatever silent fault, success means the complete new record exactly when the sector did not already hold another record of the same generation |
| ConfigStore.StaleRecordFoolsTheReadBack | crates/ax25-node-fw/src/config_store.rs:383-390 | a reachable run in which it did: the last save reports success, and boot loads the configuration before it |
| ConfigStore.RunIsModelled | crates/ax25-node-fw/src/config_store.rs:305-391 | every run over the bytes of the sectors is a run of the two-sector model of the same length, with the same slots, generation, reports and attempts |
| ConfigStore.SavedConfigSurvives | crates/ax25-node-fw/src/config_store.rs:296-391 | after any run over bytes, however long, boot loads the configuration of the last save that reported success or one attempted later |
| Milliohms.RoundTrip | crates/ax25-node-fw/src/config_store.rs:553-585 | the text of every 32-bit resistance reads back as it, but for 0, which is refused |
| Milliohms.FormatMilliohms | crates/ax25-node-fw/src/config_store.rs:553-563 | the loop that drops trailing zeros computes the reference text |
| Milliohms.ParsesParts | crates/ax25-node-fw/src/config_store.rs:567-585 | digits, a dot and up to three decimals, one side of which may be missing, read as that many thousandths, but for 0 and what exceeds 32 bits |
| Milliohms.NothingElseParses | crates/ax25-node-fw/src/config_store.rs:567-585 | whatever reads as a value is digits before the dot and at most three behind, not both missing |
| RouteRecord.ContentReadsBack | crates/ax25-node-fw/src/netrom_store.rs:227-252 | the routes of a record read back exactly, callsigns and aliases included |
| RouteRecord.ReadRoutesAreValid | crates/ax25-node-fw/src/netrom_store.rs:227-252 | whatever the bytes, the callsigns and aliases of routes that are read are valid |
| RouteRecord.ContentOf | crates/ax25-node-fw/src/netrom_store.rs:119-131 | the loop over the routes builds their serialised form |
| RouteRecord.QualityChangeIsNoticed | crates/ax25-node-fw/src/netrom_store.rs:119-131 | two tables that differ only in one route's quality never have the same content CRC |
| NetromStore.SavedTableReads | crates/ax25-node-fw/src/netrom_store.rs:155-254 | the sector a completed save leaves reads as the saved table and generation |
| NetromStore.RefinesAb | crates/ax25-node-fw/src/netrom_store.rs:139-197 | every run with the wear gate is a run of the plain two-sector discipline that is no longer |
| NetromStore.RoutesAreDurable | crates/ax25-node-fw/src/netrom_store.rs:139-197 | once a table has been written, boot finds it or one whose save began later |
| NetromStore.SuccessIsDurable | crates/ax25-node-fw/src/netrom_store.rs:147-196 | a save that reports success, skipped or not, leaves a table of the same content CRC for the next boot, but for an empty table, a CRC 0 right after boot, and failed saves that still landed; one that brings the node down reports nothing |
| NetromStore.FirstSaveSkippedExactlyForZero | crates/ax25-node-fw/src/netrom_store.rs:150-153 | right after boot a non-empty table is skipped exactly when its content CRC is 0 |
| NetromStore.StableTableIsWrittenOnce | crates/ax25-node-fw/src/netrom_store.rs:133-138 | a table that does not change is written at most once however often it is saved, plus once for every failed save |
| NetromStore.ZeroTableIsSkipped | crates/ax25-node-fw/src/netrom_store.rs:150-153 | there is such a table of one valid route, never written as the first after boot |
| NetromStore.RunIsModelled | crates/ax25-node-fw/src/netrom_store.rs:139-197 | every run over the bytes of the sectors is a run of the gated model of the same length, with the same slots, generation, gate, reports and attempts |
| NetromStore.WrittenRoutesSurvive | crates/ax25-node-fw/src/netrom_store.rs:139-197 | after any run over bytes in which flash did what it reported, boot finds the last table written or one whose save was attempted later |
| NetromStore.WroteIsDurableExactlyWhen | crates/ax25-node-fw/src/netrom_store.rs:187-196 | in every reachable state, behind a write that may have failed silently, a reported save is what boot finds exactly when the sector reads as a record of the new generation and that is not a stale one |
| NetromStore.WroteIsTrueExactlyWhen | crates/ax25-node-fw/src/netrom_store.rs:187-196 | in every reachable state, whatever silent fault, a reported save of a table is what boot finds exactly when the table was already the service's own record and the sector to be written held no stale one; otherwise some such fault makes it false |
| NetromStore.NothingWritten | crates/ax25-node-fw/src/netrom_store.rs:187-196 | an input on which a write is reported with nothing in flash, and on which the table is then not saved again until a reboot |
| NetromStore.SilentLossForgetsAll | crates/ax25-node-fw/src/netrom_store.rs:161-196 | the save after a silent loss erases the only good record: a power cut in it leaves nothing, although two saves had reported success |
| NetromStore.RoutingStore.SaveRoutes | crates/ax25-node-fw/src/netrom_store.rs:139-197 | skips an empty table and one of unchanged content CRC; else panics with flash untouched exactly at the last generation, and otherwise changes the next generation's sector and adopts generation and CRC exactly unless erase or write reports an error |
| NetromStore.RoutingStore.LoadRoutes | crates/ax25-node-fw/src/netrom_store.rs:258-271 | the routes and the generation of the newest valid record, or none and 0 |
| TncImage.NothingStagedBeforeTheHeader | crates/ax25-node-fw/src/tnc_image.rs:78-128 | from the end of the first erase up to the header write nothing is staged, nothing outside the region changes and no sector is erased twice, whichever flash operation fails or is cut short |
| TncImage.StagedIsComplete | crates/ax25-node-fw/src/tnc_image.rs:130-166 | whatever fails or is cut short in the commit, the header write included if its page then reads as no image or as the whole header: nothing is staged, or this image is and every byte written is in flash |
| TncImage.FailedCommitCanStage | crates/ax25-node-fw/src/tnc_image.rs:161-165 | a header write that fails behind its last byte stages the complete image although the commit reports failure |
| TncImage.UploadIsStored | crates/ax25-node-fw/src/tnc_image.rs:78-212 | if every write and the commit succeed, flash holds exactly the bytes written, padded to a page, the image is staged as described, it verifies exactly if its CRC is that of the bytes, and every sector of the data was erased once, in order |
| TncImage.SectorsErasedOnce | crates/ax25-node-fw/src/tnc_image.rs:110-128 | after any successful writes, before the commit, every sector opened so far was erased once, in order |
| TncImage.HeaderReadsBack | crates/ax25-node-fw/src/tnc_image.rs:147-195 | a header reads back as the image it was written for, name and target included |
| TncImage.FirstErase | crates/ax25-node-fw/src/tnc_image.rs:78-93 | the first erase empties the header sector, or failing leaves it in any state, or refused leaves it alone; the rest of flash stays |
| TncImage.CommitAfterFailedWrite | crates/ax25-node-fw/src/tnc_image.rs:131-166 | after a failed write a commit whose header write succeeds reports success exactly when the page buffer is empty |
| TncImage.FailedWriters | crates/ax25-node-fw/src/tnc_image.rs:94-128 | a failed writer has an empty page buffer, after a flash fault, or has run out of room |
| TncImage.FailedUploadCanBeStaged | crates/ax25-node-fw/src/tnc_image.rs:131-166 | an upload whose only page met a busy flash, and whose write said so, still commits to a staged image with none of its bytes stored |
| TncWriter.ImageWriter.constructor | crates/ax25-node-fw/src/tnc_image.rs:81-87 | behind the erased header sector the next page is the first of the data, and nothing waits |
| TncWriter.ImageWriter.Start | crates/ax25-node-fw/src/tnc_image.rs:78-91 | erases the header sector, and yields a writer exactly unless flash was busy or the erase failed |
| TncWriter.ImageWriter.FlushPage | crates/ax25-node-fw/src/tnc_image.rs:110-128 | one page goes to flash, its sector erased first if it opens one, and the buffer is cleared whatever the flash did; without room nothing is written |
| TncWriter.ImageWriter.WriteBytes | crates/ax25-node-fw/src/tnc_image.rs:94-108 | the buffering loop computes the reference writer |
| TncWriter.ImageWriter.CommitImage | crates/ax25-node-fw/src/tnc_image.rs:131-166 | the last page and then the header, as the reference commit |
| TncWriter.FilterName | crates/ax25-node-fw/src/tnc_image.rs:143-146 | the stored name is the first forty printable bytes of the file name |
| TncWriter.Verify | crates/ax25-node-fw/src/tnc_image.rs:199-212 | true exactly when the CRC of the stored bytes is the header's |
| KeptRoutes.BestRouteExcluding | crates/ax25-node-core/src/netrom/routing/table.rs:848-856 | the first route that does not lead back; none exactly when all do |
| KeptRoutes.BestIsFirst | crates/ax25-node-core/src/netrom/routing/table.rs:848-856 | the best route is one all routes before which lead back, and that does not |
| KeptRoutes.SelectInp3NextHop | crates/ax25-node-core/src/netrom/forwarding.rs:181-204 | a measured route that does not lead back and that no other such route beats in time, then hops, then callsign; none exactly when there is none |
| KeptRoutes.FastestIsNotBehind | crates/ax25-node-core/src/netrom/forwarding.rs:181-204 | no measured route has less time than the chosen one, fewer hops in the same time, or a smaller callsign in both |
| KeptRoutes.FastestIsUnique | crates/ax25-node-core/src/netrom/forwarding.rs:181-204 | that choice does not depend on the order of the routes |
| KeptRoutes.SelectRouteExcluding | crates/ax25-node-core/src/netrom/routing/table.rs:875-905 | the route whose share the flow hash's residue falls into, never of quality 0 and never back; none exactly when no route is eligible |
| KeptRoutes.OneOwner | crates/ax25-node-core/src/netrom/routing/table.rs:890-905 | every residue falls into one route's share only |
| KeptRoutes.SharesAreQualities | crates/ax25-node-core/src/netrom/forwarding.rs:262-292 | of the residues below the total each route gets exactly its quality in number, the excluded one none |
| Datagrams.EncodeInto | crates/ax25-node-core/src/netrom/wire/packet.rs:34-43 | writes headers and payload to the front of a buffer, or fails exactly for one that is too small and leaves it alone |
| Datagrams.RoundTrip | crates/ax25-node-core/src/netrom/wire/packet.rs:34-60 | every valid datagram decodes to itself |
| Datagrams.DecodedIsValid | crates/ax25-node-core/src/netrom/wire/packet.rs:48-60 | whatever decodes is a valid datagram, and encodes to a form that decodes to it again |
| Forwarding.ComputeFlowHash | crates/ax25-node-core/src/netrom/forwarding.rs:146-158 | the loop computes FNV-1a over the origin and the circuit's index and id |
| Forwarding.FlowKeysDiffer | crates/ax25-node-core/src/netrom/forwarding.rs:147-150 | two circuits have the same flow key exactly when origin, index and id are the same |
| Forwarding.ForwardedExactlyWhen | crates/ax25-node-core/src/netrom/forwarding.rs:85-140 | a datagram is forwarded exactly if it has two hops of life left, did not originate here and a next hop is found; then not back, with less life and at most the cap |
| Forwarding.FlowIsPinned | crates/ax25-node-core/src/netrom/forwarding.rs:119-131 | datagrams of one circuit to one destination all take the same next hop while the tables stay |
| TableView.TablesHonour | crates/ax25-node-core/src/netrom/routing/mod.rs:66-92 | no query of a table of kept routes ever answers with the neighbour to exclude |
| TableView.ForwardedOverTable | crates/ax25-node-core/src/netrom/forwarding.rs:85-140 | over such a table a datagram is forwarded exactly if it has two hops of life left, did not originate here and some kept route is usable: measured and not back, or not back, or not back and of a quality above 0 |
| TransitOverTable.TransitTakes | crates/ax25-node-core/src/netrom/forwarding.rs:85-140 | a datagram for another node that fits the send buffer goes out exactly under that condition, one hop of life less and within the node's limit, to a fastest measured route if preferred and there is one, else per flow to the route whose share holds the residue of FNV-1a of origin, index and id, else to the first route that does not lead back |
| TransitOverTable.OwnDatagramGoes | crates/ax25-node-core/src/netrom/connector.rs:437-475 | what the node itself sends goes to the destination over an interlink, else to the first kept route's neighbour, else to a destination heard directly, else nowhere |
| TransitOverTable.FnvIsPublished | crates/ax25-node-core/src/netrom/forwarding.rs:146-158 | the hash has the published FNV-1a values of "a" and "foobar" |
| TableView.TableRelaysAreGood | crates/ax25-node-core/src/netrom/connector.rs:339-375 | in a network of such nodes every journey is connected and every hop of it good |
| Forwarding.RelaysAreBounded | crates/ax25-node-core/src/netrom/forwarding.rs:94-103 | with any tables, looping and changing, a datagram is relayed at most min(t - 1, max(1, cap)) times |
| Forwarding.RelaysBoundedByTtl | crates/ax25-node-core/src/netrom/forwarding.rs:94-103 | without a common cap, at most t - 1 times |
| Forwarding.RelaysAreGood | crates/ax25-node-core/src/netrom/connector.rs:339-375 | no relay is by the origin or straight back, each starts where the last ended, and origin, destination, transport header and payload never change |
| Forwarding.BoundIsReached | crates/ax25-node-core/src/netrom/forwarding.rs:85-140 | round a ring of three nodes with honest tables the bound is reached |
| Connector.NetRomConnector.constructor | crates/ax25-node-core/src/netrom/connector.rs:154-170 | forwarding is on only with the service as a whole |
| Connector.NetRomConnector.OnInterlinkData | crates/ax25-node-core/src/netrom/connector.rs:305-331 | a disabled node does nothing; else a datagram for this node goes to its circuits, one for another is relayed if this node forwards, nothing else happens with it, and the interlinks are those before, its sender and the next hop |
| Connector.NetRomConnector.ForwardDatagram | crates/ax25-node-core/src/netrom/connector.rs:339-375 | one relay exactly as decided, to a neighbour that is then an interlink, or nothing |
| Connector.NetRomConnector.PumpOutbound | crates/ax25-node-core/src/netrom/connector.rs:437-450 | each of the circuits' datagrams goes to its own next hop in order; one without a way or too long is dropped |
| Connector.NetRomConnector.EnsureInterlink | crates/ax25-node-core/src/netrom/connector.rs:403-407 | the neighbour is an interlink afterwards, none is listed twice, none is lost |
| Connector.TransitIsOneRelay | crates/ax25-node-core/src/netrom/connector.rs:339-375 | one datagram in makes at most one relay out, which the next node reads as the same datagram with less time to live |
| Connector.TransitIsRelayed | crates/ax25-node-core/src/netrom/connector.rs:354-375 | what the send buffer lets out is the relay the network results speak of |
| Connector.OversizeIsLost | crates/ax25-node-core/src/netrom/connector.rs:358-374 | what comes in and is decided to be forwarded goes out with the same length and payload octets, or is lost without a trace exactly when it is longer than 256 octets |
| Ring.FixedRing.Push | crates/ax25-node-core/src/radio/rssi_tagging.rs:355-363 | the ring holds the last elements pushed, as many as it has room for, oldest first |
| Ring.FixedRing.DropOldest | crates/ax25-node-core/src/radio/rssi_tagging.rs:136-139 | exactly the oldest element goes |
| RssiLevels.KeptIsLongestSuffix | crates/ax25-node-core/src/radio/rssi_tagging.rs:131-139 | with times that never go back the ring is exactly the longest suffix of all samples of at most 256 inside twice the lookback |
| RssiLevels.KeptExactly | crates/ax25-node-core/src/radio/rssi_tagging.rs:131-139 | so a sample is kept exactly if fewer than 256 came after it and it is no older than twice the lookback before the last one |
| RssiLevels.WhatMovesTheFloor | crates/ax25-node-core/src/radio/rssi_tagging.rs:141-162 | with carrier sense a busy sample leaves the floor alone and an idle one always counts; without, the first is the floor and one that stands the threshold above it leaves it alone |
| NoiseFloor.StepStaysBetween | crates/ax25-node-core/src/radio/rssi_tagging.rs:154-159 | a step keeps the floor between where it was and the level it moves to |
| NoiseFloor.BetweenExactlyUpToOne | crates/ax25-node-core/src/radio/rssi_tagging.rs:154-159 | it does so always exactly for coefficients from 0 to 1, whatever the signs of numerator and denominator |
| NoiseFloor.ProductsFitExactly | crates/ax25-node-core/src/radio/rssi_tagging.rs:155-157 | between 16-bit levels the 32-bit product of a step never overflows exactly for numerators of at most 32768 |
| NoiseFloor.MovesExactlyWhenFar | crates/ax25-node-core/src/radio/rssi_tagging.rs:154-159 | with the default coefficient the floor moves exactly when it is more than four tenths of a dB off |
| NoiseFloor.FloorSettles | crates/ax25-node-core/src/radio/rssi_tagging.rs:154-159 | a constant idle level is reached to within four tenths of a dB, after at most as many samples as the first error has tenths, and stays reached |
| RssiLevels.FloorStaysAmongIdle | crates/ax25-node-core/src/radio/rssi_tagging.rs:141-161 | the floor never leaves a range that holds all idle samples heard |
| RssiLevels.FloorFitsItsWidth | crates/ax25-node-core/src/radio/rssi_tagging.rs:151-161 | with such a numerator, a coefficient up to 1 and 16-bit levels, neither product nor cast of any step of any history loses anything |
| RssiLevels.SummaryOfAnyOrder | crates/ax25-node-core/src/radio/rssi_tagging.rs:330-351 | median, least, greatest and count are those of the values in any ascending arrangement |
| RssiLevels.SummaryBounds | crates/ax25-node-core/src/radio/rssi_tagging.rs:330-351 | no value lies outside least and greatest, and all three statistics are values that occur |
| RssiTagger.Tagger.RecordSample | crates/ax25-node-core/src/radio/rssi_tagging.rs:131-162 | ring and floor are what the whole history of samples makes them |
| RssiTagger.Tagger.CarrierEdge | crates/ax25-node-core/src/radio/rssi_tagging.rs:167-178 | a rise opens a fresh window; a fall closes the open one into the last eight |
| RssiTagger.Tagger.FindWindow | crates/ax25-node-core/src/radio/rssi_tagging.rs:285-303 | the open window if it had risen, else the last closed one that contains the arrival, else none |
| RssiTagger.Tagger.ClaimWindow | crates/ax25-node-core/src/radio/rssi_tagging.rs:307-326 | only the chosen window's frame count goes up, by one until it is full |
| RssiLevels.ClaimsCount | crates/ax25-node-core/src/radio/rssi_tagging.rs:307-326 | after any number of claims a window has counted them all, up to 65535 |
| RssiLevels.LevelsAreThose | crates/ax25-node-core/src/radio/rssi_tagging.rs:330-351 | the levels collected are those of exactly the samples in the time span and over the bar, each as often as it was taken |
| RssiTagger.Tagger.Attribute | crates/ax25-node-core/src/radio/rssi_tagging.rs:190-279 | count, least, greatest and middle are those of exactly the levels taken from the window's rise to its fall or the arrival, all three occur, and ratio and floor add up to the middle; rise, airtime and pre-data time add up to the arrival, present exactly for the first frame of known airtime; only that window is claimed. Without one, the same of the samples of the lookback that stand out, or only the airtime |
| CapabilityCache.StaleIsMiss | crates/ax25-node-core/src/sdl/capability.rs:95-127 | a record thirty days old plans exactly like none; a younger one decides each dimension it knows |
| CapabilityCache.LearnedAgrees | crates/ax25-node-core/src/sdl/capability.rs:135-175 | a record learned from any dials holds, per dimension, the observation of the latest dial that probed it, or nothing if none did |
| CapabilityCache.CacheAgreesWithHistory | crates/ax25-node-core/src/sdl/capability.rs:135-238 | so does every surviving record, of the dials since it was inserted |
| CapabilityCache.PeerCapabilityCache.PlanDial | crates/ax25-node-core/src/sdl/capability.rs:95-127 | a record of that port and peer younger than thirty days decides each dimension it knows; otherwise the dial is extended exactly for a user and sends the exchange before connecting |
| CapabilityCache.PeerCapabilityCache.RecordOutcome | crates/ax25-node-core/src/sdl/capability.rs:135-175 | changes only that peer's record, in the probed dimensions only; a new peer in a full cache displaces one least recently probed |
| CapabilityCache.PeerCapabilityCache.Victim | crates/ax25-node-core/src/sdl/capability.rs:226-237 | the last slot among those probed least recently |
| CapabilityCache.PeerCapabilityCache.Forget | crates/ax25-node-core/src/sdl/capability.rs:178-185 | removes exactly that peer and says whether it was there |
| MonitorLog.TildeMarksCut | crates/ax25-node-core/src/monitor.rs:126-128 | the tilde at the end of a full text marks exactly the cut ones, unless a tilde was written there |
| MonitorLog.TruncatingWriter.WriteStr | crates/ax25-node-core/src/monitor.rs:179-189 | keeps the printable form of as much as fits, and remembers exactly whether that was all |
| MonitorLog.Render | crates/ax25-node-core/src/monitor.rs:117-129 | an entry's text is all that was written, in whatever pieces, or what fits with a tilde at the end |
| MonitorLog.SinceIsExact | crates/ax25-node-core/src/monitor.rs:161-167 | the entries after a number are all and only those numbered above it among the last the ring has room for |
| MonitorLog.Log.PushWith | crates/ax25-node-core/src/monitor.rs:109-145 | the entry gets the next number, and the ring goes on holding the last entries of an unbounded log, which begins again at 1 when the number wraps |
| MonitorLog.Log.OldestSeq | crates/ax25-node-core/src/monitor.rs:148-158 | the number of the oldest entry still held, none exactly for an empty log |
| MonitorLog.Log.EntriesSince | crates/ax25-node-core/src/monitor.rs:161-167 | yields exactly those entries, oldest first, except at the last number before the wrap, where it yields nothing |
| NetromStore.QualityChangeIsWritten | crates/ax25-node-fw/src/netrom_store.rs:150-153 | a table that differs from the last one written only in one route's quality passes the gate |
| NetromStore.RoutingStore.constructor | crates/ax25-node-fw/src/config_store.rs:314-321 | until routes are loaded the generation is 0, and the gate starts at CRC 0 |
| RssiLevels.LongestIsUnique | crates/ax25-node-core/src/radio/rssi_tagging.rs:131-139 | there is only one such suffix |
| RssiTagger.Tagger.constructor | crates/ax25-node-core/src/radio/rssi_tagging.rs:107-120 | no samples, no windows and no floor at first |
| Bridge.WireSink.constructor | crates/ax25-node-core/src/sdl/bridge.rs:106-117 | a sink starts at modulo 8 with nothing sent, raised or pending |
| Bridge.WireSink.SendUpward | crates/ax25-node-core/src/sdl/bridge.rs:276-278 | signals for the upper layer are kept in order |
| Bridge.WireSink.SendInternal | crates/ax25-node-core/src/sdl/bridge.rs:287-291 | a negotiation request, and no other signal, is remembered |
| AckCorrelator.Correlator.constructor | crates/ax25-node-core/src/kiss/ackmode.rs:177-182 | empty, with no tag given out |
| AckCorrelator.Correlator.Contains | crates/ax25-node-core/src/kiss/ackmode.rs:311-315 | true exactly for a pending tag |
| KissDecoder.Decoder.WithMaxFrameLen | crates/ax25-node-core/src/kiss/decoder.rs:62-77 | a fresh decoder; a bound of 0 means the default |
| KissDecoder.Decoder.Reset | crates/ax25-node-core/src/kiss/decoder.rs:131-137 | back to a fresh decoder of the same bound; the drop count stays |
| SerialModem.SerialKissModem.constructor | crates/ax25-node-core/src/kiss/serial.rs:91-100 | nothing read, sent or pending, with a decoder of the default bound |
| SerialModem.SerialKissModem.SendKiss | crates/ax25-node-core/src/kiss/serial.rs:179-192 | the same for any command on port 0, too large exactly for a payload over 514 bytes |
| Crc.Crc16.Finish | crates/ax25-node-core/src/crc.rs:58-60 | the complement of the register |
| Connector.NetRomConnector.SetPreferInp3Routes | crates/ax25-node-core/src/netrom/connector.rs:183-185 | only the preference changes |
| Connector.NetRomConnector.TakeInterlinkSends | crates/ax25-node-core/src/netrom/connector.rs:386-388 | hands out everything queued once, in order |
| CapabilityCache.PeerCapabilityCache.constructor | crates/ax25-node-core/src/sdl/capability.rs:84-88 | an empty cache |
| CapabilityCache.PeerCapabilityCache.Lookup | crates/ax25-node-core/src/sdl/capability.rs:203-213 | the record of that port and peer, if there is one |
| MonitorLog.Log.constructor | crates/ax25-node-core/src/monitor.rs:99-104 | an empty log |

## Left out

- The generated state tables of the session and their figure chains, timers, XID negotiation and the N(R) error recovery branch: `SelectiveRepeat` takes its steps from the guards and the frame actions alone.
- Length of the session's queues and the release of spare buffer capacity in the KISS decoder: no observable effect.
- `factory_reset` and `erase` of the stores as steps of a run: they erase both sectors one after the other.
- Torn flash: that a sector caught in the middle reads as invalid, as before, or as the complete record (`Readable`), and a header page as no image or as the whole header (`HeaderLeaves`), are hypotheses, not properties of flash or of the CRC.
- A flash write that fails without saying so while an image is uploaded: against it the source has only the CRC that `TncWriter.Verify` checks.
- Replaying restored routes through the routing table, which keeps at most eleven of them per neighbour.
- Alias octets above 0x7F in a routing record, which the store itself never writes.
- 64-bit overflow of microsecond times and 16-bit overflow of level differences in the signal-strength tagger, and for coefficients outside those of `FloorFitsItsWidth` the checked 32-bit product of a step of the noise floor and the cast of the result to 16 bits: levels and times are unbounded there.
- DamagedRecords.DamagedConfigIsInvalid: a burst that reaches the two length bytes is not covered, because the check word is then looked for at another place; the same for the count of a routing record.
- A capability cache, monitor ring or tagger of capacity zero, which the source cannot use either.
- The monitor's text buffer is filled apart and then stored in its slot; the source fills the slot in place.
- `connect`, `write`, `disconnect` and `tick` of the connector, and the circuits behind it: only what they hand over and want sent is seen.
- Connector.NetRomConnector.OnInterlinkData: the events of the circuits and the connections they accept are not part of its result, because the circuits are seen only through the datagrams they are handed and want sent.
- The ageing and ranking of the routing table, the quality arithmetic and the INP3 engine: `KeptRoutes` takes the kept routes of a destination as given.
- `LineReader` and the packing of firmware records into lines.
- Reading text fields other than the shunt resistance in the configuration console.
- Session.SessionContext.SendIFrame: a pending frame whose N(S) or N(R) an earlier action of the same chain set to something other than V(S) and V(R) is not modelled, because the chains are generated tables; the advance of V(S) and the cleared acknowledgement that the chain does next are part of the method.
- The rest of the firmware: tasks, sockets, radio and display drivers, web pages, MQTT and over-the-air updates.
