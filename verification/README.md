# An IPMI client and its controllers, verified

This project models the parts of the `ipmi-rs` client that talk to a management controller in
several steps, and proves what they keep over whole runs. The controller is an environment: at every
request it may do anything that its contract does not forbid. Each environment class has switches.
Without them it may answer anything at all (a result "against any controller"). An *honest* one never
tells an untruth about what it stores, but may change its contents, refuse and fail whenever it likes. A
*quiet* or *faultless* one also stands still or answers everything it can. Every result names the
switches that it needs, so one method carries its guarantees for hostile, honest and quiet controllers
side by side.

| files | what they model |
|---|---|
| `Ipmi.dfy`, `Checksums.dfy` | wire types, completion codes, the modulo-256 checksum |
| `SelLog.dfy`, `Sel.dfy` | the System Event Log under concurrent deletion and appending, and its traversal |
| `SelPoller.dfy` | successive scans of the log and their differences |
| `SdrStore.dfy`, `Sdr.dfy` | a Sensor Data Record store that changes while it is read, and the chunked traversal |
| `SerialFrame.dfy`, `SerialMessage.dfy`, `SerialCorrelation.dfy`, `Serial.dfy` | framing, IPMB packets, which request a reply is taken for, and the connection |
| `FruDevice.dfy`, `Fru.dfy` | a FRU device behind a session with limited sequence numbers; image transfers |
| `FruImage.dfy`, `KontronChange.dfy`, `Kontron.dfy`, `KontronBuffer.dfy` | image layout, in-place edits, checked application and restoration, buffer negotiation with rollback |
| `SystemInfo.dfy`, `SystemInfoGuard.dfy`, `SystemInfoWriters.dfy` | System Info strings, the guarded write, and any number of writers at once |
| `Dcmi.dfy` | DCMI strings and paged lists |

How the classes are specified: the part of `Valid()` that needs no heap is a predicate on values, and
the lemmas are about these predicates; methods tie their new state to them. Ghost fields record what was
handed out or sent (`Sel.Trail`, `SerialConnection.requests`, `FruDevice.Session`).

## What is proved, in short

- **Event log.** If other parties delete and append between any two requests, a traversal that ends
  without an error has handed out, once each and in log order, every record that was there all the time,
  across up to two rescans. Against any controller it stays within its budget of reads, never repeats a
  record and, once finished, sends nothing. An honest controller is never accused of breaking the protocol.
- **Polling.** Every batch is an exact patch, so the baseline with all batches applied is the latest scan. A
  scan accepted because the counts agree need not be the log, and it is the log exactly if no record was
  added behind its end.
- **Sensor records.** With reservations, every record handed out is the stored one at the moment the
  last request was answered, through any shrinking of chunks and three renewals. Without them it can be torn.
- **Serial line.** Any list of payloads survives any junk that leaves the decoder waiting. A packet passes
  the IPMB check exactly if it is the reply packet for its body. An answer belongs to the last request exactly
  if no outstanding older reply can be confused with it. That always holds without bridging. With it, the
  only replies left over are those to messages that a bridge refused, so it is enough not to send the same
  kind of message again a multiple of 64 requests later; there is a run in which that goes wrong.
- **Kontron.** Edits change the texts and the checksums and nothing else. Whatever write fails, no byte
  outside the two areas is touched and the reserved sequence numbers cover everything that is still sent. A
  restoration reserves for a plain read-back only: on a session that counts, it can report success only on
  devices that accept full 16-byte reads. The buffer rollback restores exactly what was sent, in reverse
  order, within 20 (or 4) sequence numbers.
- **System Info.** Splitting, echoing, decoding and assembling is the identity. In every interleaving
  of any number of writers with lost and late messages, no foreign block lands inside a transaction, and a
  reported success means that the string could be read back. Both need the messages of one writer to keep
  their order.

## Where the code and its documentation part

- The poller checks a scan by comparing counts (`ipmi-rs/src/events.rs`, lines 169-177).
  `SelPoller.EqualCountsCanHideAChange` is a log on which the counts agree although the scan lacks a record.
- The serial connection documents one outstanding request and no retransmission. A late reply to a refused
  bridged request is not excluded by that; see `SerialCorrelation.RefusedMessageIsMistaken`.
- `restore_kontron_fru_backup` does not measure what a read of the image costs, unlike
  `apply_kontron_fru_change`; see `Kontron.Restore` and `Kontron.PlainReadIff`.
- Temperatures are paged from number one and sensor records from number zero
  (`ipmi-rs-core/src/dcmi.rs`, lines 985-1045); `Dcmi.ReadList` takes the first number as a parameter and
  needs the controller to count in the same way.

## Model

| member | source | states |
|---|---|---|
| Sel.Traverse | ipmi-rs/src/sel.rs:173-269 | a whole traversal: distinct entries within limit and read budget against any controller; nothing that stayed was missed and log order under honest deletion and appending; the log itself if it stands still and fits |
| Sel.SelIter.Next | ipmi-rs/src/sel.rs:176-269 | one call: fused after end or error, new entry each time, each error only for its reason, no accusation of an honest controller, end only if the controller said so |
| Sel.SelIter.ReadEntry | ipmi-rs/src/sel.rs:153-170 | at most two renewals, each read charged to the budget and sent under the reservation held |
| Sel.SelIter.TryEntry | ipmi-rs/src/sel.rs:120-134 | one charged request, stopped by deadline or cancellation only if bounded |
| Sel.SelIter.Reserve | ipmi-rs/src/sel.rs:144-147 | on success the reservation is the one last granted |
| Sel.SelIter.GetInfo | ipmi-rs/src/sel.rs:149-151 | asks for the state of the log without touching the read budget |
| Sel.SelIter.Open | ipmi-rs/src/sel.rs:180-196 | the lazy first request: end exactly on an empty log, a reservation where the log takes them |
| Sel.SelIter.Reopen | ipmi-rs/src/sel.rs:213-236 | after a record is gone: end, error or one of two rescans; a log without reservations drops the old one |
| Sel.SelIter.Rescan | ipmi-rs/src/sel.rs:213-239 | a rescan keeps everything handed out faithful to the log and forgets only what this pass scanned |
| Sel.SelIter.Accept | ipmi-rs/src/sel.rs:243-267 | stops exactly on a protocol violation, which an honest controller never commits; hands out exactly the entries not seen before |
| Sel.SelIter.Visit | ipmi-rs/src/sel.rs:199-268 | one round of the loop keeps the invariant and uses up budget unless it ends |
| Sel.TruthfulReplyAdvances | ipmi-rs/src/sel.rs:243-264 | a truthful reply passes every check and moves the pass past everything older |
| Sel.TruthfulReplyAccepted | ipmi-rs/src/sel.rs:243-267 | a truthful reply keeps the whole traversal faithful to the log |
| Sel.FaithSurvivesChange | ipmi-rs/src/sel.rs:60-64 | deletions and additions by others do not disturb a live traversal |
| Sel.EndReached | ipmi-rs/src/sel.rs:201-204 | with the last pointer read, everything below the position reached was handed out |
| Sel.NothingWasMissed | ipmi-rs/src/sel.rs:60-64 | at the end, what was there at the start and is there still was handed out |
| Sel.SteadyReplyAccepted | ipmi-rs/src/sel.rs:264-267 | on a log that stands still each read adds exactly one position |
| Sel.SteadyCanGoOn | ipmi-rs/src/sel.rs:84-90 | on a log that stands still neither limit stops the traversal before its end |
| Sel.LogFitsIdentifiers | ipmi-rs/src/sel.rs:89-90 | sixteen-bit identifiers name at most 65,534 records |
| Sel.ChainLinks | ipmi-rs/src/sel.rs:243-264 | what a chain of reads is: each asks for the pointer of the one before |
| Sel.PassIdsHasEach | ipmi-rs/src/sel.rs:261-263 | the scanned set holds every identifier of the pass |
| Sel.IdsMeaning | ipmi-rs/src/sel.rs:265-267 | what distinct entries means, index by index |
| Sel.LogOrderMeaning | ipmi-rs/src/sel.rs:60-64 | what log order means: strictly increasing positions of records with these bytes |
| SelLog.ProperMeansHeld | ipmi-rs/src/sel.rs:161-165 | every entry read carries the reservation held at that time |
| SelPoller.BatchIsExactPatch | ipmi-rs/src/events.rs:188-207 | old contents without the missing and overlaid with the new are the new contents |
| SelPoller.ChangesAt | ipmi-rs/src/events.rs:203-207 | an identifier is reported exactly if it is new or has other bytes, and with its new bytes |
| SelPoller.MissingAreExact | ipmi-rs/src/events.rs:197-202 | the missing identifiers are exactly those of the old scan that are absent now |
| SelPoller.SilenceIsSafe | ipmi-rs/src/events.rs:220-223 | a batch without entries and without lost continuity means unchanged contents |
| SelPoller.LossIsReported | ipmi-rs/src/events.rs:197-223 | a record replaced or removed is reported as new or as missing with continuity lost |
| SelPoller.WrappedIsReported | ipmi-rs/src/events.rs:208-219 | a batch that says the identifiers wrapped reports an entry with a smaller identifier than the last known; if that one is gone, exactly then |
| SelPoller.ScanIsTheLogIff | ipmi-rs/src/events.rs:169-177 | an accepted scan is the log exactly if nothing was added behind its end |
| SelPoller.EqualCountsCanHideAChange | ipmi-rs/src/events.rs:169-177 | a log and an accepted scan of it with equal counts that differ |
| SelPoller.PositionAfter | ipmi-rs/src/events.rs:210-214 | the position behind the first entry with the identifier, zero exactly if there is none |
| SelPoller.Scan | ipmi-rs/src/events.rs:144-179 | distinct identifiers, as many as counted; against an honest controller every record older than the end of the scan that is still there |
| SelPoller.SelPoller.Create | ipmi-rs/src/events.rs:113-129 | the baseline is one scan, and a wrong limit sends nothing |
| SelPoller.SelPoller.PollOnce | ipmi-rs/src/events.rs:182-234 | a batch patches the old scan into the new; a failure leaves the baseline; all batches applied to the first baseline give the latest scan |
| SelPoller.SelPoller.WaitNext | ipmi-rs/src/events.rs:238-262 | the batch returned patches what the caller knew, although quiet scans were dropped in between |
| Sdr.Traverse | ipmi-rs/src/lib.rs:483-511 | at most 65,535 records and an error only last against any controller, at most five shrinks; a proper store that stands still is handed out whole, in chain order |
| Sdr.FallibleSdrIter.Next | ipmi-rs/src/lib.rs:486-510 | no identifier is asked for twice, fused after end or error; with a reservation the record is the stored one at the moment of the last answer |
| Sdr.FallibleSdrIter.ReadRecord | ipmi-rs/src/lib.rs:455-480 | at most three restarts after a lost reservation, and the record is whole whichever attempt it comes from |
| Sdr.FallibleSdrIter.ReadRecordOnce | ipmi-rs/src/lib.rs:424-453 | header and body come from one stored record, under its own identifier unless it is the first |
| Sdr.FallibleSdrIter.ReadBytes | ipmi-rs/src/lib.rs:356-422 | exactly the stored bytes from start to start plus length, all from the record as it is at the end; terminates by bytes left and read limit |
| Sdr.FallibleSdrIter.ReadChunk | ipmi-rs/src/lib.rs:372-419 | exactly the requested bytes, or a strictly lower limit in 1 to 32, or an error |
| Sdr.FallibleSdrIter.Initialize | ipmi-rs/src/lib.rs:311-354 | the source is chosen once, and a reservation is taken exactly where it is supported and there is something to read |
| Sdr.FallibleSdrIter.Reserve | ipmi-rs/src/lib.rs:301-309 | on success the reservation is the good one of the store that is read |
| Sdr.HeaderAndBody | ipmi-rs/src/lib.rs:438-447 | a header and a body with the same pointer make up one stored record, even when the body is read under the identifier that the header names |
| Sdr.WithoutReservationRecordsTear | ipmi-rs/src/lib.rs:424-453 | without a reservation, two truthful answers that pass every check make a record that was never stored |
| Sdr.HalvingsGrow | ipmi-rs/src/lib.rs:391-401 | halving the bytes just requested never allows more halvings than halving the limit |
| Sdr.StepLeadsOn | ipmi-rs/src/lib.rs:434-437 | on a store that stands still the next pointer is new and leads to the next record, or is the last |
| Sdr.StepDone | ipmi-rs/src/lib.rs:503-507 | reading it brings the traversal one record further in chain order |
| SerialFrame.EncodeWire | ipmi-rs/src/serial.rs:376-409 | the loop produces the encoding |
| SerialFrame.FrameIsRead | ipmi-rs/src/serial.rs:243-319 | whatever the decoder was in the middle of, it decodes the complete frame that follows |
| SerialFrame.StreamRoundTrip | ipmi-rs/src/serial.rs:243-319 | any list of payloads of at most 256 bytes, with any survivable junk between, is received as it was sent |
| SerialFrame.JunkDoesNotMatter | ipmi-rs/src/serial.rs:255-269 | junk after which the decoder waits does not spoil the next frame |
| SerialFrame.NoiseIsSurvivedIff | ipmi-rs/src/serial.rs:255-265 | noise without a start byte is survived exactly up to 512 bytes |
| SerialFrame.CutOffFrameIsSurvived | ipmi-rs/src/serial.rs:266-270 | an interrupted frame is survived wherever it was cut off |
| SerialFrame.CleanStreamIsSurvivable | ipmi-rs/src/serial.rs:396-408 | frames may follow each other directly, line ends included |
| SerialFrame.HexRoundTrip | ipmi-rs/src/serial.rs:295-312 | hexadecimal text of a payload parses back to it |
| Checksums.ChecksumIsUnique | ipmi-rs/src/serial.rs:348-350 | exactly one last byte makes the sum come out |
| Checksums.OneByteShows | ipmi-rs/src/serial.rs:348-350 | one changed byte changes the sum modulo 256 |
| SerialMessage.AcceptedIffReply | ipmi-rs/src/serial.rs:352-374 | a packet is accepted with a body exactly if it is the reply packet for that nonempty body |
| SerialMessage.OneChangedByteIsRejected | ipmi-rs/src/serial.rs:361-374 | an accepted packet with any one byte changed is rejected |
| SerialMessage.MatchedIffConfusable | ipmi-rs/src/serial.rs:321-337 | a reply to one request is taken for a reply to another exactly if header fields agree, in either mode |
| SerialMessage.DataLimitIsExact | ipmi-rs/src/serial.rs:441-449 | the four data limits are exactly the room left in a 40-byte payload |
| Serial.PlannedRequestFits | ipmi-rs/src/serial.rs:416-498 | every request that is not refused fits 40 bytes in all four cases |
| Serial.SerialConnection.Send | ipmi-rs/src/serial.rs:416-534 | success writes exactly the encoding; an interrupted write is a prefix of it and makes the connection uncertain; nothing is written while uncertain or pending |
| Serial.SerialConnection.WriteAll | ipmi-rs/src/serial.rs:505-533 | what was written is a prefix of the message, all of it on success |
| Serial.SerialConnection.Recv | ipmi-rs/src/serial.rs:536-570 | the answer is reached through the frames received by one of four routes; any failure makes the connection uncertain |
| Serial.SerialConnection.ReceiveMatching | ipmi-rs/src/serial.rs:321-345 | the first matching frame of at most 32, and the bytes consumed are exactly these frames |
| Serial.SerialConnection.ReadFrame | ipmi-rs/src/serial.rs:243-319 | the frame is what the decoder machine makes of exactly the bytes consumed |
| Serial.SerialConnection.NextByte | ipmi-rs/src/serial.rs:219-241 | one byte before the deadline, or an error and no byte |
| Serial.SerialConnection.SendRecv | ipmi-rs/src/serial.rs:572-575 | an answer to the request just sent, or an error; once uncertain, nothing is written |
| Serial.SerialConnection.SendRecvDeadline | ipmi-rs/src/serial.rs:577-597 | the same within a deadline, which is forgotten afterwards on every path |
| Serial.ReceiveAll | ipmi-rs/src/serial.rs:321-345 | frames of two stretches of bytes are the frames of the whole |
| SerialCorrelation.AnswerIsOwn | ipmi-rs/src/serial.rs:536-570 | unless an outstanding reply can be mistaken, the answer consists of replies to the last request |
| SerialCorrelation.StaleAnswerIsPossible | ipmi-rs/src/serial.rs:536-570 | otherwise an old reply can be taken for the answer |
| SerialCorrelation.AnswersAreOwnIff | ipmi-rs/src/serial.rs:536-570 | every possible answer is a reply to the last request exactly if no outstanding reply can be mistaken |
| SerialCorrelation.OnlyAFullTurnEndangers | ipmi-rs/src/serial.rs:455-456 | only a reply to a request a multiple of 64 older can be mistaken |
| SerialCorrelation.CarefulRunIsCorrelated | ipmi-rs/src/serial.rs:416-570 | if no earlier message of the same kind was refused a multiple of 64 requests before, every answer in a run of any length belongs to its own request |
| SerialCorrelation.UnrefusedRunIsCareful | ipmi-rs/src/serial.rs:541-544 | that is so as long as no bridge refuses a message |
| SerialCorrelation.DirectRunIsCorrelated | ipmi-rs/src/serial.rs:416-570 | requests without a bridge are always answered by their own reply |
| SerialCorrelation.OnlyRefusedStayOpen | ipmi-rs/src/serial.rs:536-570 | after such a run every hop has replied, except the far end of refused messages |
| SerialCorrelation.AnswerUsesItsHops | ipmi-rs/src/serial.rs:540-568 | an answer uses up all replies to its request, except the far end's after a refusal |
| SerialCorrelation.RefusedMessageIsMistaken | ipmi-rs/src/serial.rs:541-546 | a run of 65 requests in which the reply to the refused first one is taken for the answer to the last |
| FruDevice.ValidIffInBounds | ipmi-rs-core/src/storage/fru/commands.rs:50-63 | a transfer is valid exactly if it lies in the image, is 1 to 255 bytes long and starts and ends on access units |
| Fru.ReadImage | ipmi-rs/src/fru.rs:96-128 | exactly the stored image, however chunks shrink; the exact number of commands; success if the device answers what it can |
| Fru.ReadChunks | ipmi-rs/src/fru.rs:104-127 | the loop ends by bytes left and chunk size and makes only transfers inside the image on whole access units |
| Fru.ReadNext | ipmi-rs/src/fru.rs:105-125 | one chunk with its exact count, or a smaller chunk size for the named codes above one unit, or an error |
| Fru.UnshrunkSteps | ipmi-rs/src/fru.rs:103-125 | a read takes as few commands as possible exactly if the device accepts a full chunk |
| Fru.WriteImage | ipmi-rs/src/fru.rs:143-189 | nothing invalid is sent, no chunk is sent twice, and on failure the confirmed prefix is new and everything behind the failed chunk is old |
| Fru.WriteChunk | ipmi-rs/src/fru.rs:169-187 | one write, confirmed only by its exact count |
| FruImage.AreasAreSound | ipmi-rs/src/kontron_workflow.rs:176-195 | the areas of a parsed image are inside it, apart from each other, and sum to zero |
| FruImage.ParsedAreasAreFound | ipmi-rs/src/kontron_workflow.rs:176-183 | finding the areas never fails on an image that parses |
| FruImage.LimitIsNearest | ipmi-rs-core/src/storage/fru/inventory.rs:409-417 | an area ends before the next one starts |
| KontronChange.SetChecksum | ipmi-rs/src/kontron_workflow.rs:197-202 | only the last byte of the area changes, to the checksum of the others |
| KontronChange.ChecksummedSums | ipmi-rs/src/kontron_workflow.rs:197-202 | afterwards the area sums to zero |
| KontronChange.FindText | ipmi-rs/src/kontron_workflow.rs:210-227 | the walk over the fields finds the text of the wanted length or nothing |
| KontronChange.ReplaceSerial | ipmi-rs/src/kontron_workflow.rs:204-230 | in place, exactly if the text fits; otherwise the image is untouched |
| KontronChange.EditIsLocal | ipmi-rs/src/kontron_workflow.rs:228-230 | an edit changes the text and the checksum byte of its area only, and the area sums to zero |
| KontronChange.FieldReadsOnlyTheArea | ipmi-rs/src/kontron_workflow.rs:210-220 | where a field is depends on the bytes of its own area before it only |
| KontronChange.SerialChangeIsProper | ipmi-rs/src/kontron_workflow.rs:326-336 | both edits together: both serial numbers in place and still found, both sums zero, nothing else changed |
| KontronChange.PrepareSerial | ipmi-rs/src/kontron_workflow.rs:315-339 | a proposal that parses with the same areas and differs in the two texts and checksums only; fails for a field exactly if its text does not fit |
| KontronChange.PrepareDate | ipmi-rs/src/kontron_workflow.rs:341-358 | a proposal that differs in the three date bytes and one checksum only |
| KontronChange.KeptLayoutParses | ipmi-rs/src/kontron_workflow.rs:337-338 | the proposal can fail to parse only for what is in its fields |
| Kontron.SerialChangeIsOk | ipmi-rs/src/kontron_workflow.rs:289-339 | a prepared change differs from the backup inside the two areas only |
| Kontron.Apply | ipmi-rs/src/kontron_workflow.rs:367-420 | nothing written unless device and image are those prepared for; after the second reservation no request lacks sequence numbers whichever write fails, and on a device that takes full chunks none does before it; the reservation is released on every path |
| Kontron.Preflight | ipmi-rs/src/kontron_workflow.rs:383-411 | every check before the first write, and an allowance for the final read that is never too small |
| Kontron.ReadbackIsCovered | ipmi-rs/src/kontron_workflow.rs:396-408 | what one read has cost covers another on a device with the same limits, polling included |
| Kontron.EnoughReserved | ipmi-rs/src/kontron_workflow.rs:409-418 | requests within the reservation are never starved |
| Kontron.ReserveBudget | ipmi-rs/src/kontron_workflow.rs:233-248 | reserves exactly what is needed, or fails and changes nothing |
| Kontron.WriteArea | ipmi-rs/src/kontron_workflow.rs:475-509 | one area, chunk by chunk, unless it is as desired already |
| Kontron.WriteAreas | ipmi-rs/src/kontron_workflow.rs:468-519 | under any failures: confirmed chunks, one uncertain chunk, old bytes; board before product; success only if all is as desired and parses |
| Kontron.NothingElseIsTouched | ipmi-rs/src/kontron_workflow.rs:468-519 | no byte outside the two areas changes, and every byte is old or as desired |
| Kontron.Restore | ipmi-rs/src/kontron_workflow.rs:427-466 | writes only if everything outside the areas still matches; covered exactly on devices that take full chunks, otherwise never reported as successful on a counting session |
| Kontron.PlainReadIff | ipmi-rs/src/kontron_workflow.rs:453-456 | the read that a restoration reserves for is enough exactly if the device takes full chunks |
| KontronBuffer.SetLargeBuffer | ipmi-rs/src/kontron_workflow.rs:556-586 | no request starves once the negotiation has begun, the reservation is given back, and exactly what was sent is set back on failure |
| KontronBuffer.Configure | ipmi-rs/src/kontron_workflow.rs:588-678 | at most 20 sequence numbers, or 4 locally, for every schedule of failures |
| KontronBuffer.NegotiateAll | ipmi-rs/src/kontron_workflow.rs:634-676 | the channels set back are those whose size was sent, in reverse order, each confirmed or reported |
| KontronBuffer.RestoreChannels | ipmi-rs/src/kontron_workflow.rs:656-670 | tries every channel whatever fails, and reports exactly the failures |
| KontronBuffer.NeededIsTight | ipmi-rs/src/kontron_workflow.rs:561-562 | the reservation is not larger than the worst case |
| KontronBuffer.SendOem | ipmi-rs/src/oem.rs:119-142 | the command is sent exactly if the destination's identity allows it, at two requests |
| SystemInfo.ToWrites | ipmi-rs-core/src/app/system_info.rs:433-451 | the sets of a string, 17 bytes each; no constructor refuses |
| SystemInfo.SetSelectorsFit | ipmi-rs-core/src/app/system_info.rs:494-512 | a string of at most 255 bytes has at most 17 sets |
| SystemInfo.Share | ipmi-rs-core/src/app/system_info.rs:415-419 | the bytes of each set: never negative, never empty after the first, and together all of the string |
| SystemInfo.EchoedSetDecodes | ipmi-rs-core/src/app/system_info.rs:232-307 | a set read back as written decodes without fault and begins with its piece |
| SystemInfo.Assemble | ipmi-rs-core/src/app/system_info.rs:388-427 | the loop finds the first faulty block or joins all of them |
| SystemInfo.FaultlessIsLongEnough | ipmi-rs-core/src/app/system_info.rs:409-425 | no error is reported exactly if no block is faulty |
| SystemInfo.RoundTrip | ipmi-rs-core/src/app/system_info.rs:388-451 | splitting, echoing, decoding and assembling a valid string gives it back |
| SystemInfoGuard.WriteGuarded | ipmi-rs-core/src/app/system_info.rs:620-653 | sends what the writer machine sends; success exactly if all was acknowledged; the failed block is the first that failed |
| SystemInfoGuard.MessagesAreOrderly | ipmi-rs-core/src/app/system_info.rs:610-619 | at most one begin, each block once in order, commit only after all, Complete once after every acknowledged begin |
| SystemInfoWriters.LockExcludes | ipmi-rs-core/src/app/system_info.rs:610-653 | in every run of any number of writers, no other writer's block lands between a grant and its Complete |
| SystemInfoWriters.NoForeignBlock | ipmi-rs-core/src/app/system_info.rs:610-619 | the same, of any exclusive history |
| SystemInfoWriters.RunKeepsInv | ipmi-rs-core/src/app/system_info.rs:620-653 | every reachable state: messages on the way, the lock and the store fit together |
| SystemInfoWriters.StepKeepsInv | ipmi-rs-core/src/app/system_info.rs:620-653 | every single step, loss and late delivery included, keeps it so |
| SystemInfoWriters.SuccessReadsBack | ipmi-rs-core/src/app/system_info.rs:620-653 | a writer that reports success left sets that read back and assemble to its string |
| SystemInfoWriters.OvertakingBreaksTheLock | ipmi-rs-core/src/app/system_info.rs:610-619 | if messages of one writer can overtake each other, a late block lands in a foreign transaction |
| Dcmi.NewGetString | ipmi-rs-core/src/dcmi.rs:792-804 | a read is accepted exactly if it is one chunk inside the string |
| Dcmi.NewSetString | ipmi-rs-core/src/dcmi.rs:862-874 | a write is accepted exactly if it is one chunk inside the string |
| Dcmi.ReadString | ipmi-rs-core/src/dcmi.rs:902-926 | at most five requests against any controller, all well-formed; the stored string from an honest one |
| Dcmi.AtMostFive | ipmi-rs-core/src/dcmi.rs:898-901 | no total length needs more than five requests |
| Dcmi.WriteString | ipmi-rs-core/src/dcmi.rs:933-959 | at most four chunks, none repeated; on failure the confirmed bytes are stored and the failed chunk may be |
| Dcmi.WriteThenRead | ipmi-rs-core/src/dcmi.rs:902-959 | any string of at most 64 bytes is read as it was written |
| Dcmi.ReadList | ipmi-rs-core/src/dcmi.rs:985-1045 | at most 256 requests whatever the page sizes; the whole list in order from an honest controller that counts from the same number |

## Left out

- Dcmi.ReadList: one model for temperatures and sensor records; the decoding of the entries is not modelled.
- Serial.SerialConnection.Recv: which receive error is reported is not stated, only that any error makes the connection uncertain.
- SerialCorrelation.CarefulRunIsCorrelated: a frame that was corrupted is taken not to match; Terminal Mode has no checksum that would ensure it.
- SystemInfoWriters.SuccessReadsBack: the string is read back from what the store held when Complete took effect; a later writer may replace it.
- Kontron.Apply: who the device is, is one yes or no answer of the controller; the fields of Get Device ID are not modelled.
- Fru.WriteImage: the image check beyond header and areas is a parameter.
- Clocks: time advances by an arbitrary positive amount with each port call or wait; a cancellation or a deadline is a free choice at each check of the event-log workflows.
- Record parsing (event, sensor and FRU fields), UTF-8 validity: parameters that accept or reject bytes.
- Machine integers: counts and lengths are unbounded, and every value that goes into a byte or a 16-bit field is proved to fit.
- The RMCP, kernel and USB transports, including how replies are matched to sequence numbers there; only the counting and reserving of sequence numbers is modelled.
- `pef_write_guarded`: the same lock protocol with fewer steps, and an easier member.
- `kontron_set_next_boot`, firmware images, SPD pages: easier loops and sums of kinds already covered.
- Fixed-layout command encoders and decoders: one length check each.
