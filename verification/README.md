# Omni-reducer: a verified model

Omni-reducer moves an uploaded chunk through a coordinator that buffers it in a write-ahead
log, a master that splits files into chunks and collects the chunk results, and workers that
map, partition, sort, group and reduce. This project models that data path and proves what the
parts promise one another.

| file | models |
|---|---|
| `RingMachine.dfy` | the lock-free ring buffer as a step machine: any number of threads, every atomic access one step |
| `RingInvariant.dfy` | every step keeps the protocol's invariant |
| `RingSafety.dfy`, `RingRefinement.dfy`, `RingProgress.dfy` | what holds over its runs |
| `RingCalls.dfy` | what the callers see: each call told from the events, from the value asked for to the answer |
| `Words.dfy`, `Modular.dfy` | the bit operations behind the ring's capacity and slot index, and 64-bit counter differences |
| `RingBuffer.dfy` | the same ring as an object over arrays, for callers that hold the log mutex |
| `WalCodec.dfy` | the record format of a `.dlog` file and of the uploaded-handles file, the replay reader and the upload decoder |
| `Names.dfy` | the decimal names of log files and result keys |
| `HandleGen.dfy` | `GenerateHandle` under any interleaving and any clock |
| `DurableModel.dfy` | the durable buffer as a state machine: memory and disk kept apart, crashes between file operations |
| `DurableSteps.dfy` | what one event does to one handle, and the history of the handle table over a run |
| `DurableSafety.dfy`, `DispatchLease.dfy`, `DurableBytes.dfy` | what holds over its runs |
| `DurableRestart.dfy` | what a restart does not keep apart: repeated entries, repeated deliveries, repeated ids |
| `DurableBuffer.dfy` | the durable buffer as an object; each method is proved to take the step of the state machine |
| `Worker.dfy`, `Pipeline.dfy` | one chunk's map-reduce, as values and as goroutines over bounded channels |
| `Chunks.dfy` | how the master cuts a file and how a worker reads its piece |
| `Master.dfy`, `MasterRuns.dfy` | the master's tables as an object whose methods take the protocol's steps, and the protocol over runs of starts, retries and late results |
| `JobOutput.dfy` | a whole job: the file tiled, each piece mapped and reduced, the outputs joined |
| `Scheduler.dfy` | the dashboard's longest-first, least-loaded chunk assignment |
| `Sorting.dfy`, `Permutations.dfy`, `Strings.dfy`, `Types.dfy`, `Wrappers.dfy` | shared pieces |

A run is a sequence of events; a statement about every sequence of events is a statement about
every interleaving, every arrival order or every placing of a crash. State machines carry
history fields (`accepted`, `taken`, `issued`, `written`) that no step reads.

Things the code does not do, each with an input and its exact condition:

- **A ring of one slot.** `nextPowerOfTwo` allows capacity 1, but then "published" (`index + 1`)
  and "released for the next lap" (`index + capacity`) are the same number.
  `RingSafety.SingleSlotOverwrites` gives the run in which a second push destroys the first
  value, `SingleSlotPopSpins` shows that a pop then never returns, and `SafeIffTwoSlots` proves
  that every run is safe exactly when the capacity is at least two.
- **Each byte once, across restarts.** Recovery pushes replayed records back into the ring and
  leaves the log as it is. `DurableRestart.WrittenTwice` is a run whose log then decodes to the
  data twice; `FlushAfterRestartIff`, `RestartRing` and `RingAfterRestart` say exactly when, and
  for which entries.
- **The registry guard across restarts.** The comments at `mrp/durable_buffer.go:153-157` and
  `:402-408` rely on the registry entry to keep a log that is still on disk from being
  delivered again. Within one process the entry does outlive the log
  (`DurableSafety.RegistryOutlivesLogs`) as long as the prune does not lag behind the scan by
  more than the TTL exceeds the deletion time; the clamp of the TTL alone is not enough.
  `DurableRestart.EvictedWithoutItsLog` is a run, one tick of lag at equal durations being
  enough, and `DurableSafety.PruneOrphansIff` the condition. Across a restart the load drops
  entries past the default TTL before the scan has run. `DurableRestart.DeliveredAgain` is a
  run, `RedeliveredAfterCrashIff` the condition.
- **Ids across restarts.** Replay raises the id counter only for handles it delivers.
  `DurableRestart.IdIssuedTwice` issues an id whose old handle is still in the registry, and
  `IdIssuedAgainIff` says which ids are issued again. The master keys its results by id alone:
  `MasterRuns.OtherHandlesChunk` collates a new handle with an old one's chunk, and
  `OwnSnapshotIff` says when a collation is a handle's own.
- **Writes until the mark.** An entry accepted after the flush whose log is uploaded and before
  the mark ends in a log that nothing reads: `DurableRestart.LateEntryStranded` is a run,
  `DurableBytes.UploadMissesIff` and `StrandedIff` the conditions.
- **Complete handles.** A handle counts as complete once its Eof is accepted, even if older
  entries of it were dropped. `DurableBytes.CompleteWithoutItsStart` is a run,
  `UploadIsCompleteIff` the condition.
- **Counting chunk results.** The master compares how many results it holds with how many it
  expects, not which. `MasterRuns.EnoughResultsCompleteIff` proves that the count is enough
  exactly when every index is in range; `OutOfRangeStandsIn` is a run in which an index out of
  range collates a job without one of its chunks.

`dafny verify dfyconfig.toml` checks everything.

## Model

| member | source | states |
|---|---|---|
| RingMachine.IndexIsRemainder | mrp/ringbuffer.go:83-87 | the slot function used in the machine is the remainder of the ticket by the capacity |
| RingInvariant.RunInv | mrp/ringbuffer.go:81-134 | every interleaving keeps the protocol's invariant: head <= tail <= head + cap, what each slot's sequence number shows in each phase of a lap, who owns each claimed ticket, and what each thread may still rely on |
| RingSafety.EveryRunSafe | mrp/ringbuffer.go:81-134 | with two slots or more, in every run of any number of threads: counters stay within a lap, two threads between CAS and sequence store never share a slot, and every completed pop returned the value accepted under its ticket |
| RingSafety.QuiescentPopsArePrefix | mrp/ringbuffer.go:16-21 | with no pop under way, the popped values in head order are a prefix of the pushed values in tail order: no loss, duplication or tearing |
| RingRefinement.EveryRunRefinesBoundedFifo | mrp/ringbuffer.go:81-134 | every run refines a FIFO queue of at most cap values, the winning CAS being the linearization point |
| RingRefinement.PopAnswersItsTicket | mrp/ringbuffer.go:110-134 | a pop answers with the value its own CAS took off the queue |
| RingCalls.PushCarriesItsValue | mrp/ringbuffer.go:81-104 | in every run a thread inside Push carries the value its call was made with, however many CASes it lost |
| RingCalls.TailTakesTheAskedValue | mrp/ringbuffer.go:92-98 | an event raises the tail exactly when it appends to the accepted values, by one, and then it appends the value the call of its thread asked for |
| RingCalls.PushAnswersItsCall | mrp/ringbuffer.go:81-104 | a Push answered true exactly when its call appended the value asked for once and nothing else, and false exactly when it appended nothing; it removed nothing |
| RingCalls.PopAnswersItsCall | mrp/ringbuffer.go:110-134 | a Pop answered a value exactly when its call removed that value and nothing else, and none exactly when it removed nothing; it appended nothing |
| RingProgress.PushFailsIff | mrp/ringbuffer.go:85-103 | a thread inside Push gives up exactly when, at its sequence load, the tail has not moved and the ticket one lap before is unreleased; a lost CAS never gives up |
| RingProgress.PopFailsIff | mrp/ringbuffer.go:114-133 | a thread inside Pop gives up exactly when, at its sequence load, the head has not moved and its ticket is not yet published |
| RingProgress.RetryMeansProgress | mrp/ringbuffer.go:92-103 | an attempt starts over only if another thread moved the counter past the loaded value |
| RingProgress.SomeThreadProgresses | mrp/ringbuffer.go:16-21 | from any reachable state, among any 7n + 1 calls and steps of n threads some thread wins a CAS or some call returns |
| RingProgress.LockFree | mrp/ringbuffer.go:16-21 | from any reachable state, among any 7n + (7n + 1)n + 1 calls and steps of n threads some call returns, whatever the interleaving and however often threads call again |
| RingSafety.SingleSlotOverwrites | mrp/ringbuffer.go:164-167 | with one slot, two pushes in a row both succeed and the first value is gone |
| RingSafety.SingleSlotPopSpins | mrp/ringbuffer.go:110-134 | after that a pop never returns, however long its thread runs |
| RingSafety.SafeIffTwoSlots | mrp/ringbuffer.go:164-167 | every run is safe if and only if the capacity is at least two |
| Words.NextPowerOfTwo | mrp/ringbuffer.go:164-176 | the smearing loop returns the least power of two not below its argument for every argument up to 2^63, and wraps to 0 above |
| Words.MaskIsRemainder | mrp/ringbuffer.go:83-87 | for a power-of-two capacity, masking with capacity - 1 is the remainder |
| Words.WrappedDifference | mrp/ringbuffer.go:89-90 | the signed difference of two wrapping 64-bit counters is their true difference while they are less than 2^63 apart |
| Ring.RingBuffer.NewRingBuffer | mrp/ringbuffer.go:50-61 | a fresh ring is empty, its capacity at least the requested one and less than twice it; 0 and 1 give one slot |
| Ring.RingBuffer.Push | mrp/ringbuffer.go:81-104 | under the mutex Push fails exactly when the ring is full, and otherwise appends |
| Ring.RingBuffer.Pop | mrp/ringbuffer.go:110-134 | under the mutex Pop fails exactly when the ring is empty, and otherwise removes the oldest value |
| Ring.RingBuffer.Drain | mrp/ringbuffer.go:138-149 | takes the oldest min(length, room) values in order, and leaves the rest of the destination alone |
| Ring.RingBuffer.Len | mrp/ringbuffer.go:154-161 | the number of queued values |
| WalCodec.BuildLogContent | mrp/durable_buffer.go:252-272 | writes a record field by field: little-endian id, timestamp and 32-bit length, data, end flag |
| WalCodec.LittleEndianDigit | mrp/durable_buffer.go:252-272 | byte i of an encoded integer is n / 256^i mod 256 |
| WalCodec.RecordLayout | mrp/durable_buffer.go:252-272 | the bytes of a record: id, timestamp in two's complement and the low 32 bits of the length, each lowest byte first, then the data and a last byte that is 1 or 0 |
| WalCodec.ReadLayout | mrp/durable_buffer.go:532-562 | whatever the bytes, the record read from them is the one they lay out; any last byte but 0 is an Eof |
| WalCodec.ReplayRoundTripIff | mrp/durable_buffer.go:543-562 | replay over the encoding of a record list gives that list exactly when every length fits in 32 bits |
| WalCodec.DecodeRoundTrip | mrp/coordinator.go:485-526 | decoding the encoding of a record list gives the concatenated data |
| WalCodec.ParseAppend | mrp/durable_buffer.go:543-562 | whole records before any bytes are read back, and both readers go on behind them as if nothing had come before |
| WalCodec.ReadRecord | mrp/coordinator.go:492-525 | the five reads of one record, with the field the file stops in, compute the record parser |
| WalCodec.DecodeDlogFileContent | mrp/coordinator.go:485-526 | the loop computes the recursive decoder and reports the field a cut record stops in |
| WalCodec.CutFile | mrp/durable_buffer.go:543-553 | a file cut at any byte: replay visits exactly the whole records before the cut; the upload decoder succeeds exactly when the cut is at a record boundary, with the data of those records, and otherwise names the field the cut falls in |
| WalCodec.RegistryRoundTrip | mrp/durable_buffer.go:788-805 | reading the encoding of a list of registry entries gives that list |
| WalCodec.MarkLayout | mrp/durable_buffer.go:841-843 | the 24 bytes of a registry entry: id, timestamp and upload time, each lowest byte first |
| WalCodec.CutRegistry | mrp/durable_buffer.go:792-800 | a registry file cut at any byte gives back exactly its whole entries |
| Names.FileNameRoundTrip | mrp/durable_buffer.go:891-913 | parsing the formatted log file name of a handle gives the handle back, negative timestamps included |
| Names.ExtensionIff | mrp/durable_buffer.go:579-581 | a directory entry counts as a log file exactly when its name ends in `.dlog` |
| Names.FileNameInjective | mrp/durable_buffer.go:248-250 | two handles share a log file exactly when they are the same, so grouping by file name is grouping by handle |
| Names.KeyPrefixIff | mrp/master.go:497-503 | a result key starts with "id:" exactly when it belongs to that id |
| Names.DecimalIsShortest | mrp/master.go:474 | the digits of a number have no leading 0, and a negative one is a minus before its absolute value |
| Names.ResultKeyInjective | mrp/master.go:474 | two results share a key exactly when id and chunk index agree |
| HandleGen.ExecInv | mrp/durable_buffer.go:212-225 | every step keeps ids and timestamps apart; lastTimestamp never falls and strictly rises with each winning CAS |
| HandleGen.HandlesUnique | mrp/durable_buffer.go:212-225 | in every interleaving, with clocks that stall or go back, all ids are new and distinct, all timestamps distinct and strictly rising, and each call returns a handle that was issued |
| HandleGen.StampIsReadingOrNext | mrp/durable_buffer.go:212-225 | in every interleaving a winning CAS issues the id its call drew with the call's own clock reading, if that is above the last timestamp, and with one above the last timestamp otherwise; nothing else issues a handle |
| DurableModel.AppendParses | mrp/durable_buffer.go:300-320 | appending a handle's records to its log appends exactly them to what replay reads from it |
| DurableModel.FlushParses | mrp/durable_buffer.go:329-353 | a flush appends to what replay reads from a handle's log exactly the handle's unexpired entries, in order |
| DurableModel.ExecKeepsGood | mrp/durable_buffer.go:245-577 | every step and every crash leaves each log a non-empty list of whole records of its own handle, and the ring within its capacity with ids that were given out |
| DurableSteps.WriteEffect | mrp/durable_buffer.go:438-475 | a write is refused as invalid exactly for id 0, an id not given out, or an age past the expiry; it is accepted exactly when valid and not met by a full ring that rejects; refused it changes nothing, accepted it puts its entry last, over the oldest one of a full ring |
| DurableSteps.HandlesStep | mrp/durable_buffer.go:477-487 | one event without a crash: an accepted entry lists its handle, an Eof completes it, only a mark that names the handle removes it |
| DurableSteps.UploadedStep | mrp/durable_buffer.go:383-436 | one event: a mark enters its handles with its time, a deletion cycle evicts exactly those whose log its scan removes or that its prune finds past the TTL |
| DurableSteps.ProcessingStep | mrp/durable_buffer.go:366-381 | one event: a dispatch leases exactly the uploaded handles without a lease within the TTL; a lease ends by a release, by a cleanup past the TTL or with an evicted entry, and by nothing else |
| DurableSteps.SavedStep | mrp/durable_buffer.go:811-857 | a cleanup, a mark and a deletion cycle leave on disk exactly the registry's entries within the TTL at the time of the save; no other event writes it |
| DurableSteps.FlushStep | mrp/durable_buffer.go:329-353 | a flush empties the ring and appends to each log, in one write, all of its handle's entries while the handle is valid and not expired, and none otherwise |
| DurableSteps.FilesStep | mrp/durable_buffer.go:383-436 | outside a flush a log is never written; it goes exactly by a removal that works, of a marked handle or of one the deletion scan picks |
| DurableSteps.TTLStep | mrp/durable_buffer.go:761-769 | the TTL is the wanted one when that is positive and not below the deletion time, the deletion time when positive and below it, and the default otherwise |
| DurableSteps.CrashDisk | mrp/durable_buffer.go:695-710 | the disk after each modelled crash point, handle by handle: which appends, removals and saves were done |
| DurableSteps.RestartStart | mrp/durable_buffer.go:146-178 | a new process knows exactly the saved entries within the default TTL, holds no lease and drops the oldest on overflow |
| DurableSteps.HandlesHistory | mrp/durable_buffer.go:477-487 | over any run of one process a handle is listed exactly when it was at the start or an entry of it was accepted, with no later mark of it, and listed as complete exactly when it was at the start or an Eof of it was accepted, with no later mark of it |
| DurableSteps.ExpiredStaysOut | mrp/durable_buffer.go:238-240 | over any run of one process from the moment a handle has expired, no entry of it enters the ring, nothing is written to its log, and it is neither listed nor completed anew |
| DurableSafety.NothingLostBeforePersisted | mrp/durable_buffer.go:695-710 | over any run, with a crash before or after any append or removal, a log keeps all its records as long as its handle was never saved as uploaded |
| DurableSafety.RestartRebuildsHandles | mrp/durable_buffer.go:601-652 | a restart rebuilds handles to exactly the not-uploaded handles with a whole record in their log, torn last record or not, complete exactly when an Eof record is on disk, with nextHandle above every one |
| DurableSafety.TornFileOwnRecords | mrp/durable_buffer.go:543-553 | a log cut at any byte still reads as a prefix of its handle's own records, so the restart result covers it |
| DurableSafety.EveryCrashRecovers | mrp/durable_buffer.go:490-577 | the same after any run and any crash point |
| DurableSafety.EveryTornCrashRecovers | mrp/durable_buffer.go:296-318 | the same when the crash tears any of a flush's appends at any byte, and no record on disk before the flush is lost |
| DurableSafety.RegistryStep | mrp/durable_buffer.go:383-436 | every step of one process, deletion cycles with three clock readings included, keeps the registry entry of a marked handle whose log is still there |
| DurableSafety.RegistryOutlivesLogs | mrp/durable_buffer.go:862-884 | at every moment of one process, a handle marked uploaded whose log is still on disk and unwritten since is still in the registry, if each prune lags its scan by no more than the TTL exceeds the deletion time and the removal does not fail in the cycle that evicts |
| DurableSafety.RestartEstablishesRegistry | mrp/durable_buffer.go:146-178 | a new process starts with that invariant, whatever registry it loaded |
| DurableSafety.PruneOrphansIff | mrp/durable_buffer.go:383-436 | a deletion cycle evicts an entry whose log stays exactly when the prune finds the mark past its TTL and the scan found the log too young or failed to remove it |
| DurableRestart.EvictedWithoutItsLog | mrp/durable_buffer.go:153-161 | for every configuration the clamp allows, a run without a crash, and without a removal failing in the scan, in which the entry goes, the log stays, and a restart delivers the handle again |
| DurableRestart.RedeliveredAfterCrashIff | mrp/durable_buffer.go:774-806 | at any crash point, a log left on disk is delivered again exactly when its mark is not in the saved registry or is past the default TTL at the restart |
| DurableRestart.DeliveredAgain | mrp/durable_buffer.go:402-408 | a run in which a completed handle, marked and saved, comes back after a restart because its removal failed and the TTL passed |
| DurableRestart.RestartRing | mrp/durable_buffer.go:621-638 | the recovered ring holds exactly the first capacity replayed records that are not uploaded |
| DurableRestart.RingAfterRestart | mrp/durable_buffer.go:438-475 | until the first flush, under drop-oldest, the ring is the last capacity of the recovered and the accepted entries |
| DurableRestart.FlushAfterRestartIff | mrp/durable_buffer.go:601-652 | the first flush after a restart, whatever was written in between, leaves a log alone exactly when its handle has expired or none of its entries is in the ring, and otherwise appends those entries, recovered ones once more |
| DurableRestart.WrittenTwice | mrp/durable_buffer.go:621-638 | write, flush, crash, flush: the log decodes to the data twice |
| DurableRestart.IdIssuedAgainIff | mrp/durable_buffer.go:564-618 | an id is issued after a restart exactly when every not-uploaded handle on disk has an id more than one below it |
| DurableRestart.IdIssuedTwice | mrp/durable_buffer.go:564-566 | a run in which a new handle gets the id of one that is still in the registry |
| DispatchLease.NoEarlyRedispatch | mrp/durable_buffer.go:712-755 | between two returns of one handle, over any run with a clock that does not go back, more than the processing TTL passed or the handle was released or evicted or the process restarted |
| DispatchLease.RedispatchIff | mrp/durable_buffer.go:712-749 | of a call and the next one, with nothing in between to end the lease, the second returns a handle the first returned exactly when it is still uploaded and more than the processing TTL passed |
| DispatchLease.ReleasedUntilDispatched | mrp/coordinator.go:240-257 | after a completed job's release, over any run without a dispatch, the handle can be handed out again exactly when it is in the registry |
| DurableBytes.BytesInEqualBytesOut | mrp/durable_buffer.go:245-353 | over any run of a process in which a handle is not uploaded, deletion scans included, its decoded log followed by its entries in the ring is what it started with and the accepted data, in order, less exactly what overflow dropped and expiry skipped |
| DurableBytes.UploadIsCompleteIff | mrp/coordinator.go:363-367 | after a flush the log holds everything accepted for a handle exactly when no overflow met an oldest entry of its own and no flush met its entries past the expiry; then a handle listed as complete has its Eof on disk |
| DurableBytes.UploadAfterRestartIff | mrp/coordinator.go:363-367 | the same for every process from its restart on |
| DurableBytes.CompleteWithoutItsStart | mrp/durable_buffer.go:461-479 | three writes into a ring of two: the handle is listed as complete and its log decodes without the first write |
| DurableBytes.UploadMissesIff | mrp/coordinator.go:376-430 | from the uploaded flush to the mark, the upload is all the process can still bring to disk exactly when nothing of the handle was accepted in between |
| DurableBytes.StrandedIff | mrp/durable_buffer.go:695-710 | after a mark and its removal, the next flush writes a log again exactly when the ring held unexpired entries of the handle; the handle is then uploaded, not listed, and not delivered by a restart within the TTL |
| DurableRestart.LateEntryStranded | mrp/coordinator.go:376-430 | a run in which an entry written between the uploaded flush and the mark ends in such a log |
| DurableBytes.LosslessFlushIsExact | mrp/durable_buffer.go:329-353 | refusing on overflow and flushing before expiry, after a flush the decoded log is what it and the ring held at the start followed by precisely the accepted bytes |
| DurableBytes.DropOldestKeepsLast | mrp/durable_buffer.go:438-475 | over any run without a drain, a restart or a switch to refusing, the ring holds exactly the last capacity entries of its start and the accepted writes |
| DurableBuffer.SafeLogDeletionDuration | mrp/durable_buffer.go:53-64 | the scaled sum, negative durations included, cut towards zero: never nearer to zero than the sum, and twice it for a factor below 1 |
| DurableBuffer.Configure | mrp/durable_buffer.go:132-161 | defaults and clamps: deletion covers two expiry and cleanup cycles and the uploaded TTL covers deletion, each no longer than asked for or needed |
| DurableBuffer.LoadUploadedHandles | mrp/durable_buffer.go:774-806 | loads from any bytes the whole entries within the TTL, the last of a handle winning; from a saved registry exactly its entries within the TTL |
| DurableBuffer.EncodeFresh | mrp/durable_buffer.go:829-845 | the bytes a save writes read back as exactly the entries within the TTL, each handle once |
| DurableBuffer.Buffer.NewDurableBuffer | mrp/durable_buffer.go:125-181 | clamps the durations, and starts in the state machine's restart state, registry bytes and log bytes decoded |
| DurableBuffer.Buffer.RecoverFromLog | mrp/durable_buffer.go:601-652 | the replay loop over the files computes the recovery of the state machine |
| DurableBuffer.Buffer.RecoverFile | mrp/durable_buffer.go:543-572 | reading one file record by record recovers what the whole file parses to, whatever files follow |
| DurableBuffer.Buffer.RecoverRecord | mrp/durable_buffer.go:564-649 | one replayed record: skipped if uploaded, else raises nextHandle, is pushed if one of the attempts finds room, and is noted in handles |
| DurableBuffer.Buffer.GenerateHandle | mrp/durable_buffer.go:212-225 | by one caller: the next id, and the clock's reading as timestamp, or one above the last timestamp if the clock is not past that |
| DurableBuffer.Buffer.SetOverflowPolicy | mrp/durable_buffer.go:199-204 | takes the policy step; an unknown policy means drop-oldest |
| DurableBuffer.Buffer.SetUploadedHandleTTL | mrp/durable_buffer.go:761-769 | takes the TTL step: the wanted TTL when positive and not below the deletion time, else the deletion time or the default, whichever the clamp gives |
| DurableBuffer.Buffer.Write | mrp/durable_buffer.go:438-488 | takes the write step; answers invalid exactly for id 0, an id not given out or an expired handle, full exactly when otherwise valid and a ring at capacity rejects, and then leaves everything as it was |
| DurableBuffer.Buffer.PushEntry | mrp/durable_buffer.go:449-475 | fails exactly when the ring is full under reject; under drop-oldest drops exactly the oldest entry when full |
| DurableBuffer.Buffer.SyncLogToFile | mrp/durable_buffer.go:329-353 | takes the flush step: empties the ring and appends what has not expired |
| DurableBuffer.Buffer.SyncContentsToFile | mrp/durable_buffer.go:245-321 | appends to each handle's log, in one append, the encodings of its unexpired entries in order, and touches no other log |
| DurableBuffer.Buffer.PruneProcessingHandles | mrp/durable_buffer.go:366-381 | takes the lease-pruning step: exactly the leases within the TTL stay |
| DurableBuffer.Buffer.SaveUploadedHandles | mrp/durable_buffer.go:811-857 | the saved bytes decode to exactly the in-memory entries within the TTL |
| DurableBuffer.Buffer.DoCleanup | mrp/durable_buffer.go:355-364 | takes the cleanup step: flush, prune, save |
| DurableBuffer.Buffer.MarkHandlesUploaded | mrp/durable_buffer.go:695-710 | takes the mark step: mark all, save, and only then remove logs, any of whose removals may fail; the handle table loses exactly the marked handles |
| DurableBuffer.Buffer.ScanLogs | mrp/durable_buffer.go:390-434 | removes exactly the uploaded handles' logs past the deletion time whose removal works, with their entries |
| DurableBuffer.Buffer.PerformLogDeletion | mrp/durable_buffer.go:383-436 | takes the deletion step: the scan, then the prune, then the save, each at its own clock reading |
| DurableBuffer.Buffer.PruneUploadedHandles | mrp/durable_buffer.go:862-884 | evicts exactly the entries past the TTL, with their leases, and saves |
| DurableBuffer.Buffer.GetCompletedHandleForRetransmission | mrp/durable_buffer.go:667-693 | lists exactly the complete handles, sorted by id then timestamp, none twice |
| DurableBuffer.Buffer.GetUploadedHandles | mrp/durable_buffer.go:712-751 | lists exactly the uploaded handles that are not leased, sorted, none twice, and leases each |
| DurableBuffer.Buffer.ReleaseProcessingHandle | mrp/durable_buffer.go:753-755 | takes the release step and nothing else |
| Worker.ArrangeImmediate | mrp/worker.go:540-547 | each bucket holds exactly the entries hashed to it, in order |
| Worker.BucketAppend | mrp/worker.go:540-547 | a bucket keeps the order of its entries |
| Worker.BucketOne | mrp/worker.go:540-547 | an entry goes to the bucket of its key's hash and to no other |
| Worker.ArrivedIsRearranged | mrp/worker.go:411-432 | for every hash, number of partitions and arrival order, what the reducer reads is a rearrangement of the map output |
| Worker.ReduceSorted | mrp/worker.go:436-450 | the nested grouping loop writes one line for each run of equal keys |
| Worker.RenderLines | mrp/worker.go:436-450 | no pairs give no text, one pair gives its key, a space, its value and a newline, and the text of a list is that of its parts; it ends in a newline unless empty |
| Strings.LessIff | mrp/worker.go:434 | the order of the sort: a proper prefix is less, and else the smaller character where two keys first differ decides |
| Worker.GroupsIsGroupBy | mrp/worker.go:436-450 | runs of equal keys of a key-sorted sequence are a group-by: each key once, ascending, reduced on exactly its values |
| Worker.GroupByIsGroupBy | mrp/worker.go:434-450 | the direct definition, collecting each distinct key's values, is a group-by too |
| Worker.GroupByUnique | mrp/worker.go:434-450 | for a reducer that ignores the order of its values there is only one group-by |
| Worker.PipelineIsGroupBy | mrp/worker.go:255-300 | for every hash, partition count, arrival order and outcome of an unstable sort by key, the pairs are a group-by of the map output, and the direct one for an order-insensitive reducer |
| Worker.RunMapReducePipeline | mrp/worker.go:247-300 | succeeds exactly when every writer and the reducer do, and then writes the rendering of that group-by |
| Worker.FieldsDivide | mrp/worker.go:550-550 | the words of a text: a space divides the words before it from those behind it |
| Worker.FieldsOfWord | mrp/worker.go:550-550 | a text without a space is one word |
| Worker.DefaultMap | mrp/worker.go:549-556 | every word of the text once with value "1", in order |
| Worker.WordCount | mrp/worker.go:549-560 | with the default map and reduce the output lists exactly each word of the text with its exact count |
| Pipeline.WritersNeverBlock | mrp/worker.go:273-284 | in every interleaving a writer can send at once and never meets a closed channel |
| Pipeline.NoDeadlock | mrp/worker.go:258-300 | until the pipeline has returned some goroutine can move, whatever writers and reducer fail |
| Pipeline.EveryRunFinishes | mrp/worker.go:258-300 | every run makes at most 2n + 7 moves, and has returned after that many |
| Pipeline.NilErrorMeansAllConsumed | mrp/worker.go:290-300 | a nil error means that every partition was sent, and read exactly once |
| Pipeline.NilErrorIffNoFailure | mrp/worker.go:290-300 | a run that has returned returned a nil error exactly when no event failed a writer and none failed the reducer |
| Pipeline.ReturnedRunIsThePipeline | mrp/worker.go:258-300 | a returned run is a call of the pipeline method: nil error exactly when every writer sent its file and the reducer did not fail, and the reducer then received exactly the files sent |
| Pipeline.SomeRunSucceeds | mrp/worker.go:258-300 | for every number of partitions some run without failures ends with a nil error |
| Pipeline.CompletedRunIsGroupBy | mrp/worker.go:258-300 | the arrival order of any run without error gives a group-by of the map output |
| Chunks.BuildChunks | mrp/master.go:401-433 | chunk i has index i, offset i * M and size M, cut at the end of the file and 0 behind it, one for each of the counted chunks; a whole-file chunk for a non-positive count or an empty file |
| Chunks.ChunksCover | mrp/master.go:411-432 | the first n chunks have sizes that sum to, and inline reads that concatenate to, exactly the first min(n * M, length) bytes |
| Chunks.ChunksTileIff | mrp/worker.go:350-365 | the inline reads of the list give back the content exactly when count * M >= length, zero-size trailing chunks included, or the list is the whole-file chunk; with enough chunks the sizes sum to the length |
| Chunks.ChunksContiguous | mrp/master.go:411-432 | chunks never overlap and each starts where the one before ends |
| Master.PrefixSelects | mrp/master.go:497-503 | the prefix test selects exactly the id's own results |
| Master.CountIsIndices | mrp/master.go:497-503 | the keys counted for an id are as many as its distinct chunk indices, whatever was retried |
| Master.Collate | mrp/master.go:542-563 | sorts the snapshot by chunk index; the combined output holds each output whole, at the sum of the lengths before it, with one newline behind each that lacks one and nothing else |
| Master.CombineHoldsEach | mrp/master.go:546-555 | the same of the combined output of any list of chunks |
| Master.CombineConcatenates | mrp/master.go:546-555 | when every output ends in a newline, the combined output is their concatenation |
| Master.Server.CountReceived | mrp/master.go:497-503 | the counting loop counts the id's keys |
| Master.Server.Snapshot | mrp/master.go:527-539 | the snapshot holds each of the id's results once |
| Master.Server.StoreAndCount | mrp/master.go:483-540 | takes the protocol's submission step, and tells untracked, waiting and complete apart by the number of distinct chunk indices against the expected count |
| Master.Server.RPCSubmitMapReduceResult | mrp/master.go:469-622 | takes the protocol's submission step and, when enough results are held, its collation step: a writable result file lists exactly the id's results in index order and the job is dropped from the table, a failed write leaves job and files as they were |
| Master.Server.RPCStartMapReduce | mrp/master.go:195-335 | without metadata, chunks or workers nothing changes; else takes the protocol's start step, undone when every dispatch failed; the reply tells all cases apart, with the number of failures |
| Master.Server.Tally | mrp/master.go:299-308 | counts the failed dispatches, and finds none succeeded or none failed exactly when that is so |
| MasterRuns.EveryResultComplete | mrp/master.go:469-622 | in every run of starts, partial dispatches, retries, reordered and duplicated submissions, every result written has the chunks 0..n-1 in order and one canonical output |
| MasterRuns.EveryFileCanonical | mrp/master.go:557-609 | every result file a server holds after such a run has the chunks 0..n-1 in order and the canonical output of its id |
| MasterRuns.CompleteListing | mrp/master.go:542-555 | however the sort lists a complete snapshot, its combined output is the canonical one |
| MasterRuns.JobsStep | mrp/master.go:310-318 | a job is in the table from its start until nothing could be dispatched or a result of its id is written; no submission and no failed write removes it |
| MasterRuns.LateSubmissionIsUntracked | mrp/master.go:483-495 | after a written result and before the next start of its id, no submission of the id collates, whatever else happens: it is stored and nothing more |
| MasterRuns.SnapshotsConserved | mrp/master.go:505-609 | over any run, the snapshots under way, written and dropped by failed writes are exactly those at the start and those taken by a tracked submission that found enough distinct indices |
| MasterRuns.EnoughResultsCompleteIff | mrp/master.go:505-510 | holding as many results as expected, they are exactly the chunks 0..n-1 if and only if no index is out of range |
| MasterRuns.OutOfRangeStandsIn | mrp/master.go:505-510 | a run in which an index out of range completes a job that lacks a chunk |
| MasterRuns.OwnSnapshotIff | mrp/master.go:527-539 | a collation holds only its own handle's results exactly when the table holds no result of another handle under the id |
| MasterRuns.OtherHandlesChunk | mrp/master.go:474-484 | a run in which a second handle of one id collates on its first submission with the first handle's other chunk |
| JobOutput.EveryJobIsDirect | mrp/master.go:401-563 | after any run of the protocol, every result file's combined output is the concatenation of the rendered group-bys of the inline reads of the tiled file, in order, a newline for each empty one, for every hash, arrival order, unstable sort and order-insensitive reducer; the reads are the whole file exactly when there are enough chunks |
| MasterRuns.CollatesOnceFrom | mrp/master.go:497-540 | while a job is under way, a run in which each chunk submits at most once collates once if it completes the table and never otherwise |
| MasterRuns.ExactlyOneCollation | mrp/master.go:233-239 | a job started once on a table without its results, each chunk submitted once in any order among anything for other ids: exactly one submission collates |
| MasterRuns.RestartCollatesAtOnce | mrp/master.go:484-510 | the table is never cleared: a restarted job collates, completely, on its first submission |
| Scheduler.SimulateMapPhase | dashboard/api/main.go:353-380 | the assignment loops, crashes included, leave the loads of the greedy rule on the sorted chunks' costs and count each worker's tasks, and the duration is the longest load |
| Scheduler.FindLeastLoaded | dashboard/api/main.go:357-363 | the first worker of least load |
| Scheduler.AddCost | dashboard/api/main.go:362-371 | a chunk adds its time to its worker's load, and if it crashes the recovery and its time once more; no other load changes |
| Scheduler.CrashesAddUp | dashboard/api/main.go:362-371 | whatever the assignment, a worker's load is the time of its chunks and, for each that crashed, the recovery and the time again |
| Scheduler.LoadsSumToTotal | dashboard/api/main.go:355-364 | whatever the assignment, the loads sum to the total chunk time |
| Scheduler.GreedyBalance | dashboard/api/main.go:355-364 | no two workers ever differ by more than the longest chunk |
| Scheduler.GreedyAverageBound | dashboard/api/main.go:355-380 | no load exceeds total/m + (1 - 1/m) times the longest chunk |
| Scheduler.GreedyWithinTwice | dashboard/api/main.go:355-380 | in any chunk order, no load exceeds (2 - 1/m) times the makespan of any assignment |
| Scheduler.LongestFirstWithinFourThirds | dashboard/api/main.go:344-380 | longest chunk first, no load exceeds (4/3 - 1/(3m)) times the makespan of any assignment |
| Scheduler.ReorderKeepsLoads | dashboard/api/main.go:344-351 | sorting the chunks changes the loads of no assignment |
| Scheduler.DurationWithinFourThirds | dashboard/api/main.go:344-380 | without crashes the simulated map duration is within (4/3 - 1/(3m)) of the best assignment of the chunks in their own order |
| Scheduler.DurationWithinTwice | dashboard/api/main.go:353-380 | with crashes it is within (2 - 1/m) of the best assignment of the same costs |

## Left out

- RingSafety.EveryRunSafe: tickets are unbounded numbers, so a thread asleep for 2^64 pushes, whose stale ticket would come round again, is not modelled; Words.WrappedDifference covers the 64-bit comparison itself.
- Ring.RingBuffer.Push: for rings of two slots or more; what one slot does is in RingSafety.SingleSlotOverwrites.
- Ring.RingBuffer.Pop: for rings of two slots or more; on one slot it may never return, as RingSafety.SingleSlotPopSpins shows.
- Ring.RingBuffer.Drain: for rings of two slots or more, since it calls Pop.
- DurableBuffer.Buffer.NewDurableBuffer: requires a requested capacity other than 1, because a one-slot ring fails as RingSafety.SafeIffTwoSlots says, and at most 2^63, above which the rounding wraps to 0; the log directory's default name, the logger and the monitor's goroutine have no counterpart, and a buffer opened without recovery mode is not modelled.
- DurableBuffer.Buffer.Write: one step, although the source updates the handle table after releasing the mutex, so concurrent end and non-end writes of one handle are excluded; recovery is one step too, so the flag that switches the expiry test off while it runs has no effect here.
- DurableBuffer.Buffer.SyncLogToFile: one step with one clock reading, although the source appends after releasing the mutex and reads the clock for each entry; two flushes at once are excluded that way.
- DurableBuffer.Buffer.DoCleanup: one clock reading for flush, prune and save, where the source reads three.
- DurableBuffer.Buffer.MarkHandlesUploaded: one clock reading for the mark and the save, where the source reads two.
- DurableBuffer.Buffer.GetUploadedHandles: one step, so the check-then-store race between two callers on an expired lease is excluded.
- DurableBuffer.SafeLogDeletionDuration: over reals, so the rounding of a 64-bit float is not modelled, and neither is the overflow of durations and timestamps anywhere.
- DurableSafety.NothingLostBeforePersisted: a crash inside one append is not in the runs, because what a later append does behind a torn record is not modelled; DurableSafety.EveryTornCrashRecovers says what a run followed by one such crash leaves.
- DurableSafety.EveryCrashRecovers: crashes between file operations; DurableSafety.EveryTornCrashRecovers covers a crash inside the appends.
- DurableSteps.HandlesHistory: within one process; DurableSafety.RestartRebuildsHandles says with which table the next one starts.
- DurableSteps.ExpiredStaysOut: within one process and for a clock that does not go back; recovery puts replayed entries of expired handles into the ring, and the next flush drops them.
- DurableRestart.IdIssuedAgainIff: recovery is one step, while the source lets calls in during replay, so an id issued before replay has raised the counter is not covered.
- DurableSafety.RegistryOutlivesLogs: within one process; DurableRestart.RedeliveredAfterCrashIff covers restarts.
- DurableBytes.BytesInEqualBytesOut: within one process; DurableRestart.FlushAfterRestartIff says what the next one adds.
- MasterRuns.EveryResultComplete: assumes one chunk count an id, indices in range and deterministic chunk outputs; the source keys results by id alone, and MasterRuns.OutOfRangeStandsIn shows why the range is needed.
- Master.Server.RPCSubmitMapReduceResult: one submission at a time; the run model in MasterRuns lets other events fall between a submission and its collation. The notification of the coordinator is not modelled.
- Master.Server.RPCStartMapReduce: the chunk list, the number of workers and the dispatches' outcomes are parameters.
- Chunks.BuildChunks: lengths and counts are unbounded integers, and the file system's answer is a parameter.
- Names.FileNameRoundTrip: the scan takes digits and signs; the leading blanks and other spellings that Sscanf also takes never occur in a formatted name.
- Scheduler.SimulateMapPhase: times are reals, which chunks crash and for how long is a parameter, and the per-worker crash counter is not modelled.
- Worker.RunMapReducePipeline: partition files are read back as written, the hash is any function to natural numbers, and the arrival order is a parameter that Pipeline.CompletedRunIsGroupBy takes from the goroutines.
- Worker.DefaultMap: which characters are white space is a parameter, not the Unicode class.
- File-system failures other than crashes between operations and failed removals are not modelled.
- Listeners, dialling, heartbeats, pings, logging, tickers and environment parsing only transport the steps modelled here.
- The distributed file system client and the branch of `readChunkData` that uses it are foreign code.
- Plugin loading and the plugins' own text handling are not modelled; a plugin is any map output and any reducer.
- Sharing of a `Content`'s byte slice between caller and ring is not modelled: data are values.
- `mrp/utils.go` (map, filter and for-each over slices) is written out in the loops that use it, and the dashboard's charts, random jitter and web page show numbers without feeding any back into the jobs.
