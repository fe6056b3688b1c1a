# Verified model of the OpenOT carriage layer

This project models the carriage layer of OpenOT in Dafny: a single-writer, drop-oldest byte ring and everything that
has to stay true around it. The write history (which record was placed at which absolute offset) is the abstract state;
every field, byte and counter is shown to be a function of it.

| file | contents |
|---|---|
| `Bytes`, `Crc`, `Remainder`, `Wire`, `Codec`, `Format` | little-endian fields, CRC-32C (section 12.1 of RFC 3720) and the division it is, the record codec and its inverse, the format by its byte offsets |
| `Layout`, `Image`, `Reads`, `Ring` | placement, eviction, physical bytes, and the sequential ring with its four ways of reading |
| `StoreLog`, `Trace` | the producer's stores as one log with release stamps, and what any reader can make of them |
| `Reader`, `Control`, `Snapshot`, `Poll`, `Fences`, `Torn` | the reader's loads, the fenced walk, the seqlocked control block, the polling consumer, why both fences are needed, and the one failure that reaches a caller |
| `Producer`, `Agreement` | the concurrent producer, and its agreement with the sequential ring |
| `Intervals`, `Accounting`, `Loss`, `Consumer` | interval union, loss accounting and the consumers that drive it |
| `EpochLog`, `EpochSteps`, `Epoch`, `EpochResolver` | sequence assignment, transitions and the epoch resolver |
| `EndToEnd`, `Conformance`, `Watch` | whole runs; the sidecar oracle and the batch observer; the reader's loop that polls, observes and accounts |
| `Registry`, `FieldTypes`, `Definition`, `SlotGrammar`, `Schema`, `Labels`, `Resolver`, `Provenance` | registry lookups, definition tables, the slot grammar, the schema validator, labels, record resolution, and which definition a record is resolved against |

How the model is set up:

- **Memory.** The producer's stores and fences form one log. A load is satisfied at a time an arbitrary schedule proposes,
  but never before the reader's view; a relaxed byte store carries the stamp of the writer's last release fence, and an
  acquire fence moves the view to the stamps read. An arbitrary schedule covers every stale or new value; a schedule that
  never goes back covers every sequentially consistent interleaving. One walk is proved for both. Coherence between two
  loads of one location is not imposed, so that the model allows more than hardware does.
- **Source form.** The ring, the stores, the producers, the consumers, the tracker and the resolver are classes whose
  methods update their fields; loops of the source are loops with invariants. Each is proved against a function or a
  predicate over histories, and the laws are lemmas about those.
- **Numbers.** Offsets, sequence numbers and counters are unbounded where the code assumes that 64 bits do not overflow;
  the 32-bit lock word wraps around, and the 32-bit dropped count truncates, as in the code.
- **Capacity and use.** The epoch producer's log guarantees are stated for rings of at least 80 bytes (the largest
  lifecycle record) and for data under non-zero sources and non-lifecycle event ids; for anything else its methods still
  state what they write and what they leave alone.
- **Code over comments.** The comments on transitions in `epoch.rs` speak of each source's first sequence in
  `DefinitionChanged`; the code writes only the two hashes and the epoch id, and so does the model.
- **Errors of a sound ring.** A poll of a sound ring can still fail with a boundary crossing, when the producer overtakes
  the reader between the two bytes of a length (`TornReads.ReadTorn`). The check for a wrap marker at physical offset
  zero never fires (`Reader.NoMarkerAtStart`).

## Model

| member | source | states |
|---|---|---|
| `Crc.ComputeCrc32c` | crates/carriage/src/crc.rs:12-22 | The nested byte and bit loops compute the register of the reflected Castagnoli polynomial, for every input. |
| `Remainder.CrcIsRemainder` | crates/carriage/src/crc.rs:3-22 | For every message the checksum is the one number whose complement is the remainder over GF(2) of the message times x^32, its first 32 bits complemented, by the Castagnoli generator given by its exponents; with quotient and uniqueness. |
| `Remainder.CrcOfNothing` | crates/carriage/src/crc.rs:12-22 | The checksum of the empty message is zero. |
| `Crc.WindowInjective` | crates/carriage/src/crc.rs:12-22 | On windows of at most four bytes the register is injective: equal registers after equal starts mean equal windows. |
| `Crc.SuffixInjective` | crates/carriage/src/crc.rs:12-22 | Absorbing any suffix is injective on the register, so a difference never cancels later. |
| `Crc.BurstDetected` | crates/carriage/src/crc.rs:12-22 | Two messages that differ only within four consecutive bytes have different checksums, whatever surrounds the window. |
| `Wire.SlotsEncodedLen` | crates/carriage/src/wire.rs:117-127 | The length pass returns the length of all encoded slots, or the error of the first oversize slot. |
| `Wire.EncodeSlotsInto` | crates/carriage/src/wire.rs:60-71 | The writing pass appends exactly the concatenation of the padded slots. |
| `Wire.Encode` | crates/carriage/src/wire.rs:117-155 | Returns the wire bytes of every encodable record; otherwise the first oversize slot, or else the record length error. |
| `Wire.ValidateSlots` | crates/carriage/src/wire.rs:268-298 | The slot loop reports the first slot or padding defect of the body, or none. |
| `Wire.ValidateRecord` | crates/carriage/src/wire.rs:222-299 | The validating pass agrees with the declarative decoder on every byte string. |
| `Wire.CollectSlots` | crates/carriage/src/wire.rs:311-327 | The second loop, run on validated bytes, collects exactly the slots that the parser finds. |
| `Wire.DecodeRecord` | crates/carriage/src/wire.rs:301-341 | Validate-then-collect equals the declarative decoder on every byte string. |
| `Format.LittleEndian` | crates/carriage/src/wire.rs:136-150 | Byte i of an encoded number has the weight 256^i. |
| `Format.SlotBytes` | crates/carriage/src/wire.rs:60-71 | Key, type, length, payload and zeros up to the next multiple of four, each at its offset. |
| `Format.SlotsInARow` | crates/carriage/src/wire.rs:117-155 | The slots follow each other without anything in between, each at a multiple of four. |
| `Format.RecordBytes` | crates/carriage/src/wire.rs:117-155 | Every field of an encoded record at its byte offset, and the checksum of everything before it at the end. |
| `Format.EncodeErrors` | crates/carriage/src/wire.rs:117-135 | An encoding error names the first slot with more than 255 bytes, else the length of the record. |
| `Format.EnvelopeErrors` | crates/carriage/src/wire.rs:222-266 | Each error of the envelope by its cause, in the order of the checks. |
| `Format.PrefixTruncated` | crates/carriage/src/wire.rs:222-246 | Every proper beginning of an accepted record is reported as cut off, with the length that is missing. |
| `Format.SlotErrors` | crates/carriage/src/wire.rs:268-298 | A slot is refused for lack of room, or for its first padding byte that is not zero, each at its offset. |
| `Format.DefectBehind` | crates/carriage/src/wire.rs:268-298 | Sound slots in front of a defect do not hide it. |
| `Codec.DecodeOfEncoding` | crates/carriage/src/wire.rs:117-155 | Decoding an encoding, whatever follows it, returns the record with only the CRC flag normalised and consumes exactly the encoding. |
| `Codec.EncodingOfDecode` | crates/carriage/src/wire.rs:301-341 | Re-encoding any accepted byte string with its own CRC flag reproduces exactly the bytes consumed. |
| `Codec.AcceptedAreEncodings` | crates/carriage/src/wire.rs:222-299 | A byte string is accepted whole if and only if it is the encoding of some record. |
| `Codec.EncodingInjective` | crates/carriage/src/wire.rs:117-155 | Records with the same encoding are the same up to the CRC flag. |
| `Codec.BurstRejected` | crates/carriage/src/wire.rs:247-266 | Altering at most four consecutive bytes between offset 8 and the trailer makes the decoder report a CRC mismatch, with the stored and the computed checksum. |
| `Layout.NextStartFits` | crates/carriage/src/ring.rs:192-212 | The placement rule never lets a record cross the physical end; a gap always runs to the next multiple of the capacity. |
| `Layout.NextStartLeast` | crates/carriage/src/ring.rs:192-212 | A record is placed at the first offset at or after the head where it does not cross the physical end, and nowhere else. |
| `Layout.LaidIsFirstFit` | crates/carriage/src/ring.rs:192-212 | A history is laid out by the placement rule if and only if every record lies at the first fit behind the one before it. |
| `Layout.RetainedExactly` | crates/carriage/src/ring.rs:382-399 | Exactly the records that start within the last capacity bytes before the head are retained, and the newest always is. |
| `Layout.EvictedGrows` | crates/carriage/src/ring.rs:382-399 | Eviction is permanent, and popping from the front finds the new boundary. |
| `Layout.MultipleIsStart` | crates/carriage/src/ring.rs:196-212 | Every multiple of the capacity below the head is the start of a record. |
| `Image.RetainedIntact` | crates/carriage/src/ring.rs:192-229 | After any history the physical bytes of every retained record are its exact encoding, side by side. |
| `Image.ImageMarker` | crates/carriage/src/ring.rs:206-214 | The wrap marker of a gap stays in place as long as its offset is within the last capacity bytes. |
| `Ring.RingBuffer.constructor` | crates/carriage/src/ring.rs:95-106 | A new ring is the ring of the empty history. |
| `Ring.RingBuffer.FromCaptured` | crates/carriage/src/ring.rs:114-148 | A captured image is refused when empty or when its live window is impossible, and kept byte for byte otherwise. |
| `Ring.RingBuffer.TakeProducerLossRanges` | crates/carriage/src/ring.rs:184-186 | Hands out the pending ranges and keeps taken plus pending equal to the evicted records. |
| `Ring.RingBuffer.EvictBeforeClobber` | crates/carriage/src/ring.rs:382-399 | Pops exactly the records below the coming floor, remembers each as lost, and sets the oldest offset. |
| `Ring.RingBuffer.RecordProducerLoss` | crates/carriage/src/ring.rs:401-416 | The pending ranges stand for exactly one key more, at the end. |
| `Ring.AddLossExpands` | crates/carriage/src/ring.rs:401-416 | Merging a key into the ranges makes them stand for exactly one key more, at the end, and leaves no two neighbouring ranges that could be joined. |
| `Ring.RingBuffer.Store` | crates/carriage/src/ring.rs:206-222 | The wrap marker and the record bytes change exactly the image positions they should. |
| `Ring.RingBuffer.WriteRecord` | crates/carriage/src/ring.rs:192-229 | Accepts exactly the encodable records that fit, places them at the first fit behind the head, returns their span, and leaves the ring that of the longer history; every other record is refused with its error and no change. |
| `Ring.RingBuffer.ReadFrom` | crates/carriage/src/ring.rs:235-263 | The index read returns the retained records from the cursor on, the head, and whether the cursor was lapped. |
| `Ring.RingBuffer.ReadRecordAt` | crates/carriage/src/ring.rs:327-370 | Of any bytes: the record that decodes from exactly its own bytes, or what is wrong there. |
| `Ring.RingBuffer.ReadRawWindow` | crates/carriage/src/ring.rs:299-380 | Of any bytes, a batch is what a walk of skips and records from the cursor past the head finds, and an error says where and why the walk could not go on. On bytes that show a history, from any past head, it succeeds with the very batch of the index read. |
| `Ring.RingBuffer.ReadRawFrom` | crates/carriage/src/ring.rs:270-279 | The same through the ring's own control fields. |
| `Ring.RingBuffer.ReadRawFromSnapshot` | crates/carriage/src/ring.rs:281-297 | The same through a control snapshot; a snapshot of another capacity is refused. |
| `Reads.LappedMeans` | crates/carriage/src/ring.rs:299-312 | A reader of the first k records is told it was lapped when a record it had not read is gone, or when the oldest record is its next one but lies behind a gap; never otherwise. |
| `Ring.RingGuarantees` | crates/carriage/src/ring.rs:192-229 | After any writes: head - oldest is at most the capacity, indexed records are intact and in one piece, evicted and indexed records make up the history, the loss ranges expand to exactly the evicted keys, as many as the lost count, without neighbours that could be joined, and the wrap count is the number of gaps. |
| `Ring.ReadEveryWay` | crates/carriage/src/ring.rs:114-380 | From any past head, reading by index, by raw walk, by snapshot and from a captured image gives the same batch. |
| `Trace.Settled` | crates/carriage/src/concurrent.rs:436-480 | After every completed append head, oldest, lost count and lock word are exactly those of the history written so far. |
| `Trace.Forward` | crates/carriage/src/concurrent.rs:436-480 | The published head and the oldest offset never move back. |
| `Trace.PublishedByte` | crates/carriage/src/concurrent.rs:460-480 | A byte of a published record, loaded at any later time, is the byte written, or carries the stamp of a fence behind which the oldest offset had passed the record. |
| `Trace.PublishedMarker` | crates/carriage/src/concurrent.rs:444-446 | The same for the marker of a gap. |
| `Fences.FencesSuffice` | crates/carriage/src/concurrent.rs:288-303 | With both fences every allowed reading of a published record that passes the recheck has read its own bytes. |
| `Fences.AcquireFenceNeeded` | crates/carriage/src/concurrent.rs:294-303 | Without the reader's acquire fence: for any two different records that fill the ring there is an allowed reading that passes the recheck and decodes the second at the offset of the first. |
| `Fences.ReleaseFenceNeeded` | crates/carriage/src/concurrent.rs:460-480 | The same without the writer's release fences, although the reader has its fence. |
| `Reader.LoadRun` | crates/carriage/src/concurrent.rs:288-291 | Any number of relaxed loads of a published record returns its own bytes, or leaves a pending stamp that tells of the overwrite. |
| `Reader.ReadCandidate` | crates/carriage/src/concurrent.rs:260-313 | Under every allowed stale or new load, what passes the fenced recheck and decodes is exactly the record published at that offset; in a sequential run every failure means the oldest offset has passed it. |
| `Reader.NoMarkerAtStart` | crates/carriage/src/concurrent.rs:250-258 | From the first publication on, physical offset zero always shows a sync byte: the walk's check for a wrap marker there never fires, in any run. |
| `Reader.ReadLength` | crates/carriage/src/concurrent.rs:260-286 | Reports a boundary crossing exactly when the bytes that were loaded leave no room for a header or make a length beyond the end; in a sequential run every failure means the oldest offset has passed the record. |
| `Reader.Walk` | crates/carriage/src/concurrent.rs:236-328 | Every record of an accepted batch is genuine under every allowed load, and no load can make the walk report a stray wrap marker. In a sequential run an accepted batch is exactly the published window, torn first bytes and spurious skips included, and every error means that oldest has moved above the start of the walk. |
| `TornReads.ReadTorn` | crates/carriage/src/concurrent.rs:273-286 | A boundary crossing does reach the caller: for any two records of which the low length byte of the first and the high one of the second exceed the capacity, there is a sequential run in which the reader reports it. |
| `Control.EncodeControl` | crates/carriage/src/control.rs:73-95 | Field by field into a zeroed array gives the image of the snapshot. |
| `Control.ControlBytes` | crates/carriage/src/control.rs:73-95 | Every field of the control block at its byte offset. |
| `Control.SnapshotErrors` | crates/carriage/src/control.rs:98-155 | Each refusal of a block by its cause, in the order of the checks. |
| `Control.AcceptedSnapshots` | crates/carriage/src/control.rs:98-155 | A snapshot is accepted if and only if both lock words are the same even number and the block is its image under that number. |
| `Snapshots.EvenLock` | crates/open-ot-shm/src/lib.rs:304-317 | An even lock word means no append is in progress and counts the completed ones. |
| `Snapshots.SameLock` | crates/open-ot-shm/src/lib.rs:319-342 | Equal even 32-bit lock words around fewer than 2^31 finished appends mean that nothing changed in between. |
| `Snapshots.OwnedSnapshot` | crates/carriage/src/concurrent.rs:199-214 | The in-process snapshot holds values each of which was current, with a head no older than what the reader had seen. |
| `Snapshots.SharedSnapshot` | crates/open-ot-shm/src/lib.rs:319-342 | A snapshot returned Ok holds a head, an oldest offset and a lost count that were all current together after some whole number of appends, if fewer than 2^31 appends finish during the attempt; an error means that the producer was at work. |
| `Poll.ReadRawFromStore` | crates/carriage/src/concurrent.rs:221-328 | Snapshot and walk together: genuine records under every load; in sequential runs exactly the published records with start in [max(cursor, oldest), head) for a head and an oldest offset loaded one after the other during the call; any other failure than a control one means the walk was overtaken. |
| `Poll.ConcurrentRawConsumer.constructor` | crates/carriage/src/concurrent.rs:509-517 | A new consumer stands at offset zero with nothing delivered. |
| `Poll.ConcurrentRawConsumer.Poll` | crates/carriage/src/concurrent.rs:526-568 | One poll step: appends only published records behind everything delivered before, moves the cursor and counts the outcome exactly. In sequential runs a delivered batch is exactly the window of a snapshot taken during the call, nothing behind the cursor is missed but what was overwritten, every other outcome means an overwrite after that snapshot or, for a control error, a producer at work, and the only error of the walk left to the caller is a boundary crossing. |
| `Poll.PollMany` | crates/carriage/src/concurrent.rs:526-568 | Any number of polls: each is a poll step from where the last one ended, and what was delivered are their batches. The starts of delivered records strictly increase, so nothing is delivered twice, although the cursor itself may step back; in sequential runs every record behind the cursor was delivered or overwritten. |
| `Producer.ConcurrentProducer.NextStartAbs` | crates/carriage/src/concurrent.rs:372-380 | Predicts the start of the next record. |
| `Producer.ConcurrentProducer.EvictBeforeClobber` | crates/carriage/src/concurrent.rs:460-480 | Issues exactly the loss count, the oldest store and the fence of the coming append, and keeps the retained spans. |
| `Producer.ConcurrentProducer.AppendBytesCore` | crates/carriage/src/concurrent.rs:436-458 | Issues exactly the stores of one append, in protocol order, so that the log stays the trace of the history. |
| `Producer.ConcurrentProducer.WriteRecord` | crates/carriage/src/concurrent.rs:386-397 | Publishes exactly the encodable records that fit; refused ones change nothing. |
| `Producer.ConcurrentProducer.AppendEncoded` | crates/carriage/src/concurrent.rs:403-434 | Accepts a slice if and only if it is the CRC encoding of some record that fits the ring; otherwise nothing changes and the error is the first check that fails. |
| `Producer.Classify` | crates/carriage/src/concurrent.rs:403-423 | Length, CRC flag and validation single out exactly the CRC encodings. |
| `Producer.TraceImage` | crates/carriage/src/concurrent.rs:436-458 | After each append the bytes in memory are the image of the history. |
| `Producer.PublishedState` | crates/carriage/src/concurrent.rs:436-480 | Bytes, head, oldest and lost count in the store are the functions of the history that the sequential ring shows. |
| `Agreement.WriteEveryWay` | crates/carriage/src/concurrent.rs:386-458 | For every record sequence the sequential ring, write_record and append_encoded accept exactly the encodable records that fit, end with the history of those, and show identical bytes, head, oldest and lost count. |
| `Conformance.BuildSidecar` | crates/conformance/src/lib.rs:251-288 | Builds if and only if capacity and lengths are valid and keys distinct, and otherwise says what is wrong with the first record that cannot be placed; from lengths and keys alone it predicts the start of every record of any laid-out history. |
| `Conformance.BatchObserver.ObserveOracle` | crates/conformance/src/lib.rs:292-325 | Objects to a record that is unexpected, misplaced or out of order, and to nothing else; silent if and only if it is expected, in place and in order. |
| `Conformance.BatchObserver.ObserveSequence` | crates/conformance/src/lib.rs:376-409 | Objects exactly to a repeated key or a number below the next of its source. |
| `Conformance.BatchObserver.ObserveBatch` | crates/conformance/src/lib.rs:362-369 | The observer is silent if and only if everything it saw was expected, in place, in order and increasing per source. |
| `Conformance.GenuineIsFaultFree` | crates/conformance/src/lib.rs:362-409 | Whatever a reader delivers of the published records, in order, is fault-free. |
| `Watching.WatchPolls` | crates/live-harness/src/main.rs:131-158 | The reader's loop as a whole: sidecar oracle, concurrent polls, observer and loss accounting. Each poll is a poll step, only a failed one ends the loop, the observer holds an oracle that predicts the whole gap-free history and raises no violation under any allowed load. Of a log without loss reports, delivered + lost is one more than the largest number delivered; in sequential runs it is the number produced by the cursor wherever the newest record is not overwritten. |
| `Intervals.UnionUnique` | crates/carriage/src/loss.rs:126-180 | The interval union of a set of ranges is unique: same events, same bounds, same flags. |
| `Intervals.MergeSorted` | crates/carriage/src/loss.rs:153-168 | A sorted bundle around the inserted event collapses to one interval: its exact union, synthetic only if all of it is. |
| `Intervals.InsertUnion` | crates/carriage/src/loss.rs:140-168 | Inserting a range into a union gives the union with that range: disjoint, non-adjacent, covering, counted and flagged. |
| `Loss.LossTracker.InsertLossEvent` | crates/carriage/src/loss.rs:140-168 | Retain, sort and merge keep the events the interval union of everything inserted. |
| `Loss.ReportOf` | crates/carriage/src/loss.rs:126-168 | Inserting ranges in any order and reporting yields the sorted union of the set of ranges. |
| `Loss.OrderIndependent` | crates/carriage/src/loss.rs:126-168 | Two reports of the same set of ranges are the same list, whatever the insertion order. |
| `Intervals.ReportLexicographic` | crates/carriage/src/loss.rs:126-138 | Reports are in lexicographic order of buffer, run, source, first and last number. |
| `Accounting.ParseSourceHighWater` | crates/carriage/src/loss.rs:250-262 | Finds a produced count if and only if some slot marks the record's own sequence number. |
| `Accounting.DroppedMeans` | crates/carriage/src/loss.rs:209-248 | A record reports a range if and only if it is a RecordsDropped whose last well-formed count, first and last number are those of the range and agree; it is synthetic if and only if the flag is set. |
| `Accounting.NextIsPastLargest` | crates/carriage/src/loss.rs:101-104 | The next expected number is one more than the largest seen in the stream, and that one was delivered. |
| `Accounting.NextAtMost` | crates/carriage/src/loss.rs:68-109 | The next expected number is the least above all numbers of the stream. |
| `Accounting.DeliveredMeans` | crates/carriage/src/loss.rs:68-109 | A number counts as delivered if and only if a record carried it when all earlier numbers of its stream were lower. |
| `Accounting.InsertedPoints` | crates/carriage/src/loss.rs:68-109 | The inserted ranges cover exactly the numbers skipped below the next expected one and whatever was reported as dropped. |
| `Loss.LossTracker.Account` | crates/carriage/src/loss.rs:68-109 | Accounting one record takes the tracker of a sequence to the tracker of the longer sequence, duplicate and backward numbers included. |
| `Loss.LossTracker.DeliveredCount` | crates/carriage/src/loss.rs:111-116 | The number of distinct sequence numbers delivered. |
| `Loss.LossTracker.Lost` | crates/carriage/src/loss.rs:118-124 | The summed counts are the number of lost sequence numbers. |
| `Loss.LossTracker.LossEvents` | crates/carriage/src/loss.rs:126-138 | The report is sorted and still the union of everything inserted. |
| `Loss.LostSize` | crates/carriage/src/loss.rs:118-124 | Counts of disjoint intervals sum to the cardinality of their union. |
| `Loss.Conservation` | crates/carriage/src/loss.rs:68-124 | Delivered and lost cover everything below the next expected number; they partition it, and the counts add up to it, if and only if every dropped range stays below it and avoids delivered numbers. |
| `Loss.SyntheticMeans` | crates/carriage/src/loss.rs:68-109 | A loss interval is authoritative if and only if it holds a number skipped directly before a record that checkpoints its own number, or one that a report without the synthetic flag names. |
| `Loss.AllInferred` | crates/carriage/src/loss.rs:88-99 | Without checkpoints and reports every loss is marked as inferred. |
| `Loss.NoReports` | crates/carriage/src/loss.rs:68-109 | Without an accepted RecordsDropped the partition is unconditional. |
| `Loss.ReportRoundTrip` | crates/carriage/src/loss.rs:183-248 | A reported range parses back as itself if and only if its count fits 32 bits; a longer one parses to nothing. |
| `Epoch.EpochProducer.constructor` | crates/carriage/src/epoch.rs:47-60 | A new producer continues the empty log. |
| `Epoch.EpochProducer.EmitData` | crates/carriage/src/epoch.rs:103-117 | Refused during a transition; otherwise the record carries the next number of its source, used up even when the ring refuses it. |
| `Epoch.EpochProducer.CheckpointAll` | crates/carriage/src/epoch.rs:150-168 | Exactly one checkpoint per active source in ascending order, each with its own number as payload; it fails only below 56 bytes, and then writes nothing. |
| `Epoch.EpochProducer.CheckpointHighWater` | crates/carriage/src/epoch.rs:146-169 | The same outside a transition; refused within one. |
| `Epoch.EpochProducer.BeginEpochTransition` | crates/carriage/src/epoch.rs:122-140 | Writes LoggerStopped and all checkpoints and then sets the pending transition; a second begin is refused, and a small ring stops after what fits. |
| `Epoch.EpochProducer.EmitDefinitionChanged` | crates/carriage/src/epoch.rs:174-189 | Once per transition; succeeds if and only if the ring holds 80 bytes, else the transition is lost. |
| `Epoch.EpochProducer.FinishDefinitionChange` | crates/carriage/src/epoch.rs:193-211 | Same run, counters kept, announced epoch and hashes in force from the LoggerStarted on; a refused call changes nothing. |
| `Epoch.EpochProducer.FinishColdStart` | crates/carriage/src/epoch.rs:213-232 | Next run, all counters restarted, announced epoch and hashes in force; a refused call changes nothing. |
| `EndToEnd.GoodLog` | crates/carriage/src/epoch.rs:103-251 | In every run sequence numbers of each (run, source) are 0, 1, 2, ... without gaps, every transition is bracketed, run and epoch change only at a LoggerStarted, and the definition hashes and first offset in force are those that the last completed transition announced. |
| `EndToEnd.CompletedTransition` | crates/carriage/src/epoch.rs:122-232 | After LoggerStopped come one checkpoint per active source in ascending order with its own number as payload, DefinitionChanged, LoggerStarted, and nothing in between; the announced epoch is in force from there. |
| `Provenance.RightDefinition` | crates/definition/src/resolver.rs:255-275 | Of a producer's own log, a record is resolved against the current definition if and only if no transition was completed after it; the hash asked for is the new or the old one of the last announcement. |
| `EpochResolution.EpochResolver.Observe` | crates/carriage/src/epoch.rs:306-337 | A resolver that knows a log up to a record and observes it knows the log one further; any other record changes exactly the pending epoch, the run default and the boundary list it should. |
| `EpochResolution.EpochResolver.Resolve` | crates/carriage/src/epoch.rs:340-354 | Returns the epoch of the newest boundary at or below the offset, else the default of the run: the epoch in force when the record was written, after a complete feed or after a completely observed transition of its run. |
| `EpochResolution.ChangedEpochMeans` | crates/carriage/src/epoch.rs:357-365 | A record announces an epoch if and only if its last well-formed epoch slot carries it. |
| `EpochResolution.ColdStartMeans` | crates/carriage/src/epoch.rs:367-378 | A start is cold if and only if its first one-byte flag is not zero. |
| `EpochResolution.NewestBoundary` | crates/carriage/src/epoch.rs:340-354 | The newest learned boundary at a record carries the epoch in force there. |
| `EndToEnd.ResolveLog` | crates/carriage/src/epoch.rs:306-354 | Fed the whole log and seeded with the initial run and epoch, the resolver is right about every record; fed a suffix, about every record behind a fully observed DefinitionChanged/LoggerStarted pair of its run. |
| `Consumers.Consumer.AccountBatch` | crates/carriage/src/consumer.rs:139-144 | Accounts every record of the batch in order and moves the cursor to its end. |
| `Consumers.Consumer.PollRaw` | crates/carriage/src/consumer.rs:122-126 | A consumer that follows a ring gets everything new that is retained, by the raw walk. |
| `Consumers.Consumer.PollSnapshot` | crates/carriage/src/consumer.rs:129-137 | The same through a control snapshot. |
| `Consumers.Consumer.PollIndex` | crates/carriage/src/consumer.rs:46-58 | The same through the index. |
| `Consumers.PollCatchesUp` | crates/carriage/src/consumer.rs:122-144 | After a poll everything retained has been accounted, however much was written in between. |
| `EndToEnd.Reconciled` | crates/carriage/src/consumer.rs:122-144 | For every stream, delivered + lost is one more than the largest number delivered. |
| `EndToEnd.Balanced` | crates/carriage/src/consumer.rs:122-144 | Whatever is accounted of a log without loss reports, in whatever order: delivered + lost is one more than the largest number delivered. |
| `EndToEnd.ReconciledWithProduced` | crates/carriage/src/loss.rs:68-109 | If the newest record of a stream was still retained when last polled, delivered + lost is the number produced. |
| `EndToEnd.Produce` | crates/carriage/src/epoch.rs:103-232 | Each producer command writes what it should under the number that is due, given the pending transition, or nothing, and leaves the next numbers as they should be. |
| `EndToEnd.Run` | crates/carriage/src/epoch.rs:103-232 | Every script of emits, checkpoints, warm and cold transitions and raw polls takes its effect on log, definition in force and accounts command by command; at the end every stream reconciles, with the number produced wherever the newest record was retained when last polled. |
| `EndToEnd.GapFreeDistinct` | crates/conformance/src/lib.rs:251-288 | A gap-free log has distinct record keys and increasing sources, as the oracle and observer need. |
| `SlotGrammar.GrammarChecked` | crates/definition/src/schema.rs:465-555 | Fitting declared slots in order of their declarations with counts in bounds, then extensions, is the same as one block per declared slot in declared order followed by extensions. |
| `SlotGrammar.ValueIdAt` | crates/definition/src/schema.rs:593-612 | The value id of a record is that of its first well-formed value id slot. |
| `SlotGrammar.TypeOfValueAt` | crates/definition/src/schema.rs:612-620 | The type of a value is that of the first datum with its id. |
| `Schema.ValidateEventDefinition` | crates/definition/src/schema.rs:345-373 | Accepts exactly the event definitions with distinct keys, strictly ascending order classes, sound bounds and registry types; a refusal is the defect of the first slot declaration that is not sound. |
| `Schema.ValidateDefinition` | crates/definition/src/schema.rs:236-246 | Accepts exactly the definitions with distinct event ids, well-formed events and canonical procedural state machines; a refusal is the defect of the first unsound event, else of the first machine that is not canonical. |
| `Schema.ValidateStateMachines` | crates/definition/src/schema.rs:295-337 | Accepts exactly the machines whose states are all canonical for their procedural model; a refusal names the first machine that is not, and its model, its enum set or its first foreign state. |
| `Schema.DefinitionDefectOnce` | crates/definition/src/schema.rs:236-373 | There is only one defect that a definition can be refused for. |
| `Schema.MaxOccursDefect` | crates/definition/src/schema.rs:375-394 | No defect if and only if the occurrence bounds are sound. |
| `Schema.SlotTypeDefect` | crates/definition/src/schema.rs:396-463 | No defect if and only if the declared type agrees with the registry; a defect means that the key has no type there, that the declared type is unknown, or that it is not the registry's. |
| `Schema.SlotChecked` | crates/definition/src/schema.rs:557-659 | The three per-slot checks together are the declared type, the value type and the width. |
| `Schema.SlotViolationMeans` | crates/definition/src/schema.rs:557-659 | What is reported of a declared slot, with actual and expected type or width: the declared type, else the datum's type, else the width. |
| `Schema.ScanSlots` | crates/definition/src/schema.rs:476-510 | The scan accepts declared slots that fit, followed by ascending vendor keys, and records counts, positions and classes; a refusal is the violation of the first slot that is wrong. |
| `Schema.CheckContiguous` | crates/definition/src/schema.rs:512-516 | Passes exactly when every key is contiguous, and names the least key that is not; a split block means that the slots are out of order. |
| `Schema.ContiguousMeans` | crates/definition/src/schema.rs:672-676 | Positions are contiguous if and only if they are consecutive numbers. |
| `Schema.CheckOrder` | crates/definition/src/schema.rs:518-531 | Passes exactly the slots in order of their declarations, and names the first that is not. |
| `Schema.CheckCounts` | crates/definition/src/schema.rs:533-552 | Passes exactly the counts within the declared bounds, and names the first declaration whose count is not. |
| `Schema.ValidateRecordSlots` | crates/definition/src/schema.rs:465-555 | For a well-formed event: accepts exactly the slot lists that are one block per declared slot in declared order, followed by undeclared vendor keys in strictly ascending order; a refusal names the first wrong slot, else the least scattered key, else the first slot out of order, else the first wrong count. |
| `Schema.ExplainedOnce` | crates/definition/src/schema.rs:465-555 | There is only one violation that a list of slots can be refused for. |
| `Schema.ValidateRecord` | crates/definition/src/schema.rs:249-293 | Valid if and only if the definition is sound and the record conforms, with the keys of its trailing undeclared slots, and then every previous and new value has the type of the datum referred to; otherwise a placeholder with the envelope, every raw slot and the definition's defect, the first limit broken or the slots' one violation. |
| `Resolver.DecodeLossless` | crates/definition/src/resolver.rs:496-518 | Decoding loses nothing but the particular non-zero byte of a Boolean. |
| `Resolver.DecodeTyped` | crates/definition/src/resolver.rs:496-518 | Each type tag has its own kind of value and its own width; unsigned values are those of the little-endian payload, signed ones its two's complement, in range. |
| `Resolver.ExtensionKept` | crates/definition/src/resolver.rs:460-488 | An extension keeps its key, tag and raw payload, has a type name if its type is known, and is decoded exactly when type, width and text allow; the decoded value gives the payload back, a Boolean apart. |
| `Labels.ReadContext` | crates/definition/src/resolver.rs:530-553 | One pass over the slots finds, for each kind of id, its last well-formed slot. |
| `Labels.ContextMeans` | crates/definition/src/resolver.rs:530-553 | Each id of the context is that of the last slot with its key and its width. |
| `Labels.NamedExactly` | crates/definition/src/resolver.rs:556-621 | A decoded value is replaced by a name exactly where the definition gives one: that of the first entry with this id, of the record's own condition for an operand, of its own machine for a state; otherwise the field keeps its value under the registry's name and type. |
| `Labels.EnumLabelReads` | crates/definition/src/resolver.rs:623-652 | A field is labelled exactly with what the registry tables, the severity bands or the enum set of the record's machine read for its 16-bit value. |
| `Labels.UnitLabelReads` | crates/definition/src/resolver.rs:654-683 | A field shows exactly the symbol of the first unit with the id that it names itself or that its datum has. |
| `FieldTypes.CaseIgnored` | crates/definition/src/schema.rs:298-305 | Model names count as the same if and only if they differ in nothing but the case of ASCII letters. |
| `FieldTypes.NamedFields` | crates/carriage/src/registry.rs:552-802 | Exactly the keys that the registry lists have a name, each its own. |
| `Labels.RegistryWidths` | crates/carriage/src/registry.rs:552-802 | The registry gives every key that context, labels and names depend on the width they are read with. |
| `Labels.RegistryTypes` | crates/carriage/src/registry.rs:552-802 | The slots that producers and loss reports write have the types the registry gives to their keys. |
| `Resolver.EveryKeyPlaced` | crates/definition/src/resolver.rs:388-458 | Every slot with a non-zero key is in exactly one of the two lists, once. |
| `Resolver.FieldsInOrder` | crates/definition/src/resolver.rs:388-458 | The fields keep the order of the slots. |
| `Resolver.ExtensionsInOrder` | crates/definition/src/resolver.rs:388-458 | So do the extensions. |
| `Resolver.ResolveSlots` | crates/definition/src/resolver.rs:388-458 | On validated slots no payload-width conversion can fail; fields, with their names, labels and units, and extensions hold the slots one by one and in order; the only obstacle left is invalid UTF-8, and the first such field is named. |
| `Resolver.ResolveRecord` | crates/definition/src/resolver.rs:255-345 | Resolves exactly the records that a trusted definition of their epoch can answer for, naming event and source as it does; a placeholder keeps all raw slots and states the first thing that went wrong. |

## Left out

- Memory mapping, files, raw pointers and process plumbing of `open-ot-shm`: the store is abstract locations with load and store steps.
- Weak-memory behaviour of the shared-memory seqlock and of the batch-level final check: both are stated for sequentially consistent interleavings; the view model covers per-record acceptance.
- The release fence inside `begin_control_update` of the shared store: only sequential runs of that store are modelled, where it changes nothing.
- The unfenced mode, the recheck stall and the live runner: experiment plumbing.
- 64-bit overflow of offsets, sequence numbers, clocks and run ids: assumed not to happen, as stated in the contracts that need it.
- Watching.WatchPolls: the number of polls is a parameter; the deadline and the done file that end the loop are left out.
- EndToEnd.Run: stops a script early when the 64-bit clock or run id would be used up.
- Ring.RingBuffer.FromCaptured: a captured view is only read, so nothing is said about writing to it.
- Snapshots.OwnedSnapshot: promises no coherence between its three words, because the in-process store does not either.
- UTF-8 validity and the definition hash are parameters: any predicate and any function.
- Floating-point interpretation: REAL and LREAL keep their bits.
- The embedded-offset oracle, report files and command-line parsing of the conformance crate; capture and vector fixtures; the document crate: no hard property of their own.
