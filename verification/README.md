# Retrosampler: a verified model

Retrosampler keeps every trace fragment on disk for a window, and publishes and
emits a trace once a keep verdict for it arrives, before or after its fragments.
This project models its core in Dafny and proves what that core promises. It
needs nothing but Dafny 4.11: `dafny verify dfyconfig.toml`.

## What is modelled

- **Decision and flush machine** (`ShardModel`, `ShardRun`, `ShardWorker`,
  `Flusher`). The worker and the flusher are classes changed in place; each method
  is proved against a step function, and the properties of whole runs
  (`ShardQueue`, `ShardDeadlines`, `ShardDecisions`, `ShardEviction`,
  `ShardDelivery`, `ShardLedger`, `ShardProgress`, `ShardProvenance`,
  `ShardOutcomes`, `ShardSettles`) are proved by induction over every sequence of
  events. The clock, read errors, corrupt fragments, room in the flush channel, the
  bus's answer, the consumer's answer, the order in which retries come back and what
  the watermark sacrifices are arbitrary. `ShardStore` ties the worker's stored
  fragments to the buffer below. A shard sees only its own traces, so one shard with
  its part of the flusher's batches is the whole of what one trace can meet.
- **Hand-off and shutdown** (`Handoff`, `HandoffProof`, `HandoffShutdown`, `HandoffProgress`). An
  interleaved step system with a program counter per producer call, worker and
  Shutdown call; every atomic operation, channel operation and buffer write is a
  step of its own. An event is named by the call that made it.
- **Decided set** (`Probing`, `DecidedSet`) and **index** (`IndexArena`, `Index`):
  open addressing for an arbitrary hash, refined to an insertion-ordered list and
  to a map from trace to list of locations.
- **Segment log** (`Bytes`, `Segment`, `SegmentExact`, `SegmentWriter`, `BufferLog`, `Buffer`,
  `Recovery`, `Retention`): files are byte sequences, the checksum is an arbitrary
  function, a removal may fail at any time. The buffer refines the plain list of
  retained fragments, also across a restart with the active file cut at any byte.
- **Disk ladder** (`Watermark`, `DiskLadder`): one shard's rung on its buffer, and
  the interleaved ticks of all shards on the shared total.
- **Encoder and fragmenter** (`Wire`, `Values`, `Spans`, `SpanGroups`, `Encoder`,
  `SpanDecode`, `FragmentDecode`, `Faults`, `Spoiled`, `Fragmenter`): the two passes, a
  reference decoder that merges repeated messages and ignores unknown fields of spans,
  what an unwritten value does to it, and the grouping of a batch. Detection and
  baseline are arbitrary functions. `Item` trees stand between the passes: the size
  pass computes a tree's size, the write pass appends its encoding, the decoder
  reads it back.
- **Durable publish** (`DurablePublish`): the chunk loops under arbitrary
  acknowledgements and an arbitrary moment at which the context dies.

## Where the code falls short of a promise

- Deadlines in the decided set are said to be monotone (`internal/shards/decided.go:45-49`).
  Only stamps ahead of the clock are pulled back, so they need not be.
  `EvictionExactIffInOrder` gives the exact condition over runs, `StaleStampOverstays`
  a run; what does hold for every stamp is `NoOverstay`.
- An empty bytes value is sized as two bytes and written as none.
  `ValueTwoPass`, `RoundTripIff`, `GroupTwoPass` and `FragmentRoundTripIff` give the
  exact conditions.
- A keep whose deadline is the zero instant is parked with the fallback deadline,
  zero meaning "none" (`KeepParksItsDeadlineIff`, `ZeroDeadlineDrifts`);
  `DeadlinesNeverDrift` excludes exactly local keeps dated there.
- All shards can be at nothingReclaimable at once, but only while some shard is
  inside a tick (`AllStuckInsideATick`, `AllStuckOnlyInsideATick`); between ticks it
  cannot happen (`NeverAllStuckBetweenTicks`).

## Model

| member | source | states |
|---|---|---|
| `ShardDelivery.AtLeastOnce` | internal/shards/worker.go:209-422 | In every run in which shutdown has not begun, each fragment on disk of a decided trace was accepted downstream, is in a job in the channel or with the flusher, is owed a flush by the parked map or by a retry on its way back, or was dropped and counted |
| `ShardDelivery.NumbersAreUnique` | internal/shards/worker.go:209-223 | In every run stored fragments carry strictly increasing numbers, so what is accounted for by number is that fragment and no other |
| `ShardDelivery.TickCovers` | internal/shards/worker.go:105-112 | Expiry, eviction, sweep and drain together lose track of no fragment that stays on disk |
| `ShardDelivery.KeepCovers` | internal/shards/worker.go:230-249 | A deciding keep leaves every fragment of its trace answered for |
| `ShardOutcomes.AcceptedExactly` | flusher.go:207-235 | Over every run, a fragment number is accepted if and only if some handled job carried it, it decoded, the job held a span, its publish had not failed, and the next consumer accepted |
| `ShardOutcomes.DroppedExactly` | flusher.go:207-235 | Over every run, a fragment number is dropped if and only if some handled job carried it and it was undecodable, the job held no span, or the refusal was permanent; a retryable refusal drops nothing |
| `ShardOutcomes.LostWasCorrupt` | internal/shards/worker.go:272-276 | Over every run, a fragment is written off as corrupt only if an attempt that read to the end called it so |
| `ShardOutcomes.HarmlessRunsLoseNothing` | flusher.go:207-235 | In a run without corrupt, undecodable, empty or permanently refused fragments, before shutdown, each fragment on disk of a decided trace has been accepted or is still in a job, owed a flush or on its way back |
| `ShardOutcomes.ConsumeSettles` | flusher.go:207-235 | Where consuming one job leaves each of its fragments, and that its trace is handed back exactly on a retryable refusal of something that held a span |
| `ShardProvenance.OnlyKeptTracesTravel` | internal/shards/worker.go:209-249 | In every run, whatever is parked, in the channel, with the flusher or on its way back belongs to a trace that an earlier keep of the run decided; what is to be broadcast carries a reason such a keep gave |
| `ShardProvenance.AcceptedWasKept` | internal/shards/worker.go:209-249 | Every fragment the next consumer accepts is one that arrived, of a trace that a keep of the run decided |
| `ShardProvenance.JobsCarryTheirOwn` | internal/shards/worker.go:268-289 | In every run, a job carries only fragments that arrived for its own trace |
| `ShardProvenance.NothingWithoutKeeps` | internal/shards/worker.go:215-217 | A run without keeps parks, sends, hands back, accepts and drops nothing |
| `ShardSettles.CanSettle` | flusher.go:162-235 | From every reachable state, answers that succeed lead to a state in which nothing is parked, in the channel, with the flusher or on its way back: no state is a dead end |
| `ShardSettles.SettledFragments` | flusher.go:162-235 | Once that state is reached, before shutdown, every fragment on disk of a decided trace has been accepted, or had been written off before |
| `ShardSettles.VerdictIsBroadcast` | internal/shards/worker.go:246-248 | A trace decided by one local keep, before that keep's deadline and before shutdown, is acknowledged by the bus exactly once when the work is settled |
| `ShardLedger.PublishesAreLinear` | internal/shards/worker.go:230-299 | Over every run, acknowledged plus abandoned plus outstanding publishes of a trace never exceed the local keeps that decided it, with equality when it was decided at most once and shutdown has not begun |
| `ShardOutcomes.PublishKeptUntilDeadline` | internal/shards/worker.go:357-371 | Until a tick at or past the deadline of a local keep that decided the trace, and before shutdown, a trace decided at most once has acknowledgements plus outstanding publishes equal to its local decisions: no publish is given up early |
| `ShardOutcomes.GivenUpOnlyLate` | internal/shards/worker.go:357-371 | A publish is abandoned only by a tick whose time is at or after the deadline of an earlier local keep that decided the trace |
| `ShardOutcomes.StepPublishes` | internal/shards/worker.go:357-371 | One step abandons a publish exactly if it is a tick that finds it parked with a deadline at or before now, and acknowledges one exactly if the bus answered without reporting it failed |
| `ShardOutcomes.AcksExactly` | flusher.go:175-187 | Over every run, acknowledged publishes of a trace are exactly the bus answers whose batch owed one and did not report it failed |
| `ShardLedger.BusCannotRebroadcast` | internal/shards/worker.go:236-245 | A trace that only bus or baseline keeps decide never has a publish outstanding or acknowledged, whatever the bus repeats or reorders |
| `ShardLedger.RunBalanced` | flusher.go:162-201 | In every run each owed publish is in exactly one account: parked, in a job, held, returning, acknowledged, abandoned, merged, folded into another of its batch, or refused at shutdown |
| `ShardLedger.PublishBalanced` | flusher.go:162-187 | One answer of the bus accounts for every publish of the batch: one acknowledgement per trace, the others folded in, the failed still owed |
| `ShardLedger.HandleBalanced` | flusher.go:188-231 | A failed publish travels back whole; a refused consume travels back without its publish |
| `ShardDecisions.OncePerWindow` | internal/shards/worker.go:230-235 | Two keeps that each decide the same trace are separated by a tick no earlier than the first one's clamped stamp plus the window |
| `ShardDecisions.EntryStays` | internal/shards/decided.go:184-193 | Over any run, no decision is evicted before its own deadline |
| `ShardDecisions.NoOverstay` | internal/shards/worker.go:196-201 | With a clock that never runs backwards, a trace kept at clock reading c is not decided after any tick at c plus the window or later unless a later keep decided it anew, whatever stamps producers supplied and however often the keep was repeated |
| `ShardDecisions.KeepsAreCounted` | internal/shards/worker.go:230-245 | Handled keeps equal keptLocal + keptBus + duplicateKeeps, and publishes owed equal the local decisions of the run |
| `ShardDecisions.DeadlinesNeverDrift` | internal/shards/worker.go:329-348 | In every run a parked intent has a deadline exactly while it owes a publish, and the deadline of every publish in transit is the clamped stamp plus window of a local keep that decided its trace |
| `ShardDecisions.NoneOverdueAfterTick` | internal/shards/worker.go:357-371 | After every tick of every run no parked publish has a deadline at or before the tick's time, as long as the window is positive and the clock does not run back during the pass |
| `ShardDecisions.KeepParksItsDeadlineIff` | internal/shards/worker.go:334-341 | A local keep that cannot be sent parks with its own deadline if and only if that is not the zero instant, or the fallback is zero too |
| `ShardDecisions.ZeroDeadlineDrifts` | internal/shards/worker.go:334-341 | The excluded case happens: a local keep dated exactly at the zero instant parks with the fallback deadline instead of its own |
| `ShardDecisions.IssuedByKeep` | internal/shards/worker.go:246-248 | Every deadline on record was issued by a local keep that decided that trace |
| `ShardDeadlines.TickDated` | internal/shards/worker.go:105-112 | A tick keeps every deadline tied to the keep that issued it and leaves no parked publish overdue |
| `ShardDeadlines.HandleDated` | flusher.go:283-288 | Work handed back carries the job's own deadline |
| `ShardQueue.ParksMerge` | internal/shards/worker.go:329-348 | Any number of parks of one trace leave one entry owing the union of needs, with the first nonzero reason and the first publish's deadline, in the one place in line it took first |
| `ShardQueue.DrainShape` | internal/shards/worker.go:393-422 | One drain pass turns the line into a suffix of itself followed by its read-failed ids in order; only the intent at the new head can have met a full channel |
| `ShardQueue.OneAttemptEach` | internal/shards/worker.go:373-422 | When every intent owes a flush, a pass serves distinct traces, each with the entry the pass found, and leaves parked exactly the unreached suffix and the read-failed |
| `ShardQueue.DrainInLine` | internal/shards/worker.go:393-422 | Whatever needs the intents carry, a pass leaves every parked entry in line |
| `ShardQueue.RunTidy` | internal/shards/worker.go:329-422 | In every run every job, retry and intent owes a flush, and queue slots and parked entries correspond one to one |
| `ShardModel.Clamp` | internal/shards/worker.go:196-201 | A stamp ahead of the clock is pulled back to it and any other is unchanged |
| `ShardModel.ReadableExactly` | internal/shards/worker.go:272-276 | The fragments collected for a trace are exactly its readable ones on disk |
| `ShardProgress.RoomSends` | internal/shards/worker.go:268-289 | An attempt that can read and has room adds exactly one job, with the given id, reason, need and deadline and exactly the stored fragments of the trace that are not corrupt, in order, if a publish is owed or any is readable; otherwise it sends and parks nothing |
| `ShardProgress.OtherwiseParks` | internal/shards/worker.go:293-299 | An attempt that cannot read, or finds the channel full with something to send, sends nothing and parks the whole intent |
| `ShardProgress.DecidingKeepSends` | internal/shards/worker.go:230-249 | In every run, a keep that decides its trace, with room and no read error, has its job in the channel at once exactly if it is local or anything is readable |
| `ShardProgress.DecidingKeepParks` | internal/shards/worker.go:230-249 | In every run, a deciding keep whose attempt fails is parked with its own reason, need and deadline |
| `ShardProgress.FragmentForwarded` | internal/shards/worker.go:209-223 | An arriving fragment is sent on as a job of its own exactly if its trace is decided and there is room, parked exactly if it is decided and there is none, and otherwise only stored; one that failed to append changes nothing |
| `ShardProgress.UnhinderedTickEmptiesTheLine` | internal/shards/worker.go:105-111 | A tick that meets no full channel and no read error leaves nothing parked, and has sent one job in line order for each intent that still owed a publish or had anything readable, with that intent's reason, need and deadline |
| `ShardStore.JobCarriesCollected` | internal/shards/worker.go:272-276 | A job carries the bytes of the retained fragments of its trace that are not corrupt, in the order the buffer visits them |
| `ShardStore.ExpiryMirrors` | internal/shards/worker.go:107-107 | What the buffer drops off its front is what a tick drops from the worker's store |
| `ShardStore.AppendMirrors` | internal/shards/worker.go:211-211 | What the buffer appends is what an arriving fragment adds to the worker's store |
| `ShardWorker.Shard.Park` | internal/shards/worker.go:329-348 | The parked map and queue change in place as the abstract park does |
| `ShardWorker.Shard.Collect` | internal/buffer/buffer.go:326-363 | The loop over the stored records returns the trace's readable fragments in append order and counts those it skips, up to a read error if there is one |
| `ShardWorker.Shard.CollectOnce` | internal/shards/worker.go:268-289 | The attempt on the real fields has exactly the abstract outcome: reported as sent, full, unreadable or nothing owed; only a sent or nothing-owed attempt changes state; corrupt fragments are counted. `ShardProgress.RoomSends` says what that sends |
| `ShardWorker.Shard.CollectAndSend` | internal/shards/worker.go:293-299 | A refused or failed attempt parks what it still owes |
| `ShardWorker.Shard.ClampAt` | internal/shards/worker.go:196-201 | A stamp ahead of the clock is pulled back to it, and that is counted |
| `ShardWorker.Shard.CountKeep` | internal/shards/worker.go:236-245 | A deciding keep is counted by origin and only a local one comes to owe a broadcast |
| `ShardWorker.Shard.Decide` | internal/shards/worker.go:230-245 | The decided set gains the trace exactly if it was absent; a repeat only counts as a duplicate |
| `ShardWorker.Shard.Keep` | internal/shards/worker.go:230-249 | The whole keep step, on the real decided set, with the stamp clamped and the clamp counted |
| `ShardWorker.Shard.AppendFragment` | internal/shards/worker.go:209-223 | To disk with the clamped stamp, then forwarded or parked if the trace is decided, as the abstract step does; `ShardProgress.FragmentForwarded` and `ShardProvenance.OnlyKeptTracesTravel` say what that forwards |
| `ShardWorker.Shard.SweepEntry` | internal/shards/worker.go:358-370 | One entry loses a publish with its deadline exactly as the abstract sweep says and is deleted if it then owes nothing; `ShardOutcomes.StepPublishes` and `GivenUpOnlyLate` say when |
| `ShardWorker.Shard.SweepPending` | internal/shards/worker.go:357-371 | The loop over the map, in any order, computes the abstract sweep |
| `ShardWorker.Shard.ReplayHead` | internal/shards/worker.go:397-419 | One turn of the drain loop: a full channel leaves everything as found, else the head is disposed of |
| `ShardWorker.Shard.DrainPending` | internal/shards/worker.go:393-422 | The loop computes the abstract pass, and consumed slots never exceed the floor or half the storage afterwards |
| `ShardWorker.Shard.CompactPendq` | internal/shards/worker.go:451-463 | Compaction changes storage and not the line |
| `ShardWorker.Shard.Tick` | internal/shards/worker.go:105-112 | Expiry, eviction, sweep and drain in that order compute the abstract tick |
| `Flusher.BuildKeeps` | flusher.go:163-174 | The loop with its seen set builds the deduplicated list |
| `Flusher.KeepsNameEachTraceOnce` | flusher.go:163-174 | The bus call names every trace that owes a publish exactly once |
| `Flusher.FirstReasonWins` | flusher.go:169-173 | A broadcast carries the reason of the first job that owes a publish for its trace |
| `Flusher.Flusher.Retry` | flusher.go:283-288 | Work goes back with its reason and deadline; it is refused only once stopping |
| `Flusher.Decode` | flusher.go:213-220 | The loop splits a job's fragments into decodable and undecodable |
| `Flusher.Flusher.Consume` | flusher.go:207-235 | The loop settles the job as the abstract step does; `ShardOutcomes.ConsumeSettles`, `AcceptedExactly` and `DroppedExactly` say which answer accepts, drops or hands back |
| `Flusher.Flusher.HandleBatch` | flusher.go:188-200 | Each job in order is handed back whole if its publish failed, else consumed |
| `Flusher.Flusher.ProcessBatch` | flusher.go:162-201 | The batch loop computes the abstract answer and handling, and the two counters split the traces into published and failed |
| `Flusher.BatchIsARun` | flusher.go:162-201 | Processing a batch is one bus answer followed by one handling per job: steps of a run |
| `HandoffShutdown.ShutdownConserves` | internal/shards/shards.go:425-457 | In every interleaving, once a Shutdown call has returned, each shard has handled exactly the events whose calls returned true, each exactly once, and its queue is empty |
| `HandoffShutdown.NoSendAfterStop` | internal/shards/shards.go:425-440 | Once any stop signal is closed no call is between its intake check and its return |
| `HandoffShutdown.DoneMeansDrained` | internal/shards/worker.go:467-476 | A finished worker left nothing queued or in hand and handled everything sent to it, in order |
| `HandoffShutdown.HandledAtMostOnce` | internal/shards/worker.go:80-99 | At every moment a shard has handled a prefix of what was sent to it, each event at most once |
| `HandoffShutdown.HandoffNeverBlocks` | internal/shards/shards.go:294-301 | A producer that holds a buffer finds room in the queue, and a worker finds room in the free ring |
| `HandoffShutdown.BuffersConserved` | internal/shards/shards.go:247-260 | Each recycled buffer is free, queued, in the worker's hand, or held by exactly one call, and in one place only |
| `HandoffShutdown.StopClosedOnce` | internal/shards/shards.go:435-439 | No interleaving of Shutdown calls, timed out or retried, closes a stop signal twice |
| `HandoffShutdown.RunKeepsInv` | internal/shards/shards.go:278-457 | The protocol's invariant holds in every reachable state |
| `HandoffShutdown.NoTokens` | internal/shards/shards.go:427-434 | A zero in-flight count means no call is past its intake check |
| `HandoffProgress.ShutdownCanFinish` | internal/shards/shards.go:425-457 | From every reachable state, a Shutdown call that has not timed out can be brought to its return by steps of work already begun, whatever other Shutdown calls did |
| `HandoffProgress.CallSucceeds` | internal/shards/shards.go:278-304 | A call that finds intake on and a free buffer, and is not shed, puts its event at the end of the queue and returns true |
| `HandoffProgress.CallsReturn` | internal/shards/shards.go:278-304 | From every reachable state, all calls under way can come back, and then no token is in flight |
| `HandoffProof.WriteOk` | internal/shards/shards.go:296-299 | Filling a buffer leaves every queued event as it was |
| `HandoffProof.ProduceHolders` | internal/shards/shards.go:278-401 | Every producer step keeps buffers where their owners say |
| `HandoffProof.WorkStepHolders` | internal/shards/worker.go:80-99 | Every worker step keeps buffers where their owners say |
| `DecidedSet.DecidedSet.constructor` | internal/shards/decided.go:68-73 | A new set is empty |
| `DecidedSet.DecidedSet.FindSlot` | internal/shards/decided.go:120-143 | Finds the id's slot exactly if it is in the list, else a slot it can be inserted at |
| `DecidedSet.DecidedSet.Has` | internal/shards/decided.go:176-179 | Membership in the insertion-ordered list |
| `DecidedSet.DecidedSet.Mark` | internal/shards/decided.go:147-161 | Succeeds exactly if the id is absent, and then appends it with its deadline |
| `DecidedSet.DecidedSet.Evict` | internal/shards/decided.go:184-206 | Removes exactly the longest expired prefix of the list, across ring compaction and rebasing, and leaves the ring within twice what is live |
| `DecidedSet.DecidedSet.Compact` | internal/shards/decided.go:194-204 | Dropping the dead prefix and rebasing changes no entry and no slot reference |
| `DecidedSet.DecidedSet.Rehash` | internal/shards/decided.go:212-223 | Rebuilds the table without tombstones, under the load factor and at most twice the size that needs, with the list unchanged |
| `DecidedSet.DecidedSet.EmptySlotPresent` | internal/shards/decided.go:147-150 | An empty slot is always present, so every probe ends |
| `DecidedSet.EvictionExactIffSorted` | internal/shards/decided.go:45-49 | Eviction removes exactly the expired entries of a list at every instant if and only if deadlines are in insertion order, which the comment assumes |
| `ShardEviction.EvictionExactIffInOrder` | internal/shards/decided.go:45-49 | Over a run, eviction removes exactly the expired decisions at every moment and instant if and only if the clamped stamps of deciding keeps arrive in order, looking back over the decisions that still stand |
| `ShardEviction.StaleStampOverstays` | internal/shards/decided.go:45-49 | A run of two keeps and a tick in which they do not: an expired decision stays behind a live one |
| `Probing.ProbeEndProvesAbsence` | internal/buffer/index.go:141-165 | A probe that ends without the key proves it absent, empty slot or not |
| `Probing.InsertKeepsTable` | internal/buffer/index.go:184-206 | Inserting at the slot a probe returned keeps every key findable |
| `Probing.EraseKeepsTable` | internal/buffer/index.go:244-266 | Tombstoning a slot keeps every other key findable |
| `Index.Index.constructor` | internal/buffer/index.go:109-114 | A new index stands for the empty map |
| `Index.Index.FindSlot` | internal/buffer/index.go:141-165 | Present exactly if in the table; otherwise a usable slot, or a report that the table is completely full |
| `Index.Index.Alloc` | internal/buffer/index.go:169-180 | Yields a node on no chain, from the free list if it has one, else by growing the arena by one |
| `Index.Index.Put` | internal/buffer/index.go:184-206 | Appends the location to exactly that trace's list |
| `Index.Index.Head` | internal/buffer/index.go:209-215 | The oldest location of the trace, or -1 |
| `Index.Index.ChainStep` | internal/buffer/index.go:218-222 | Following a chain visits the trace's list in order |
| `Index.Index.FreeChain` | internal/buffer/index.go:229-237 | Every node of the chain goes to the free list and the trace leaves the map |
| `Index.Index.Sweep` | internal/buffer/index.go:244-266 | Removes only traces whose newest generation is below minGen, leaves none of them in the window it swept, makes no other trace dead, moves the cursor on by n, and compacts when the slack calls for it |
| `Index.FullPassLeavesNoneDead` | internal/buffer/index.go:244-266 | A window as wide as the table leaves no dead trace anywhere |
| `Index.SweepRound` | internal/buffer/index.go:244-266 | The cursor rotates: as many sweeps of n slots as cover the table leave exactly the traces whose newest generation is at least minGen, with their lists unchanged |
| `Index.Index.Compact` | internal/buffer/index.go:276-309 | The arena is rebuilt packed, the free list empty, the map unchanged |
| `Index.Index.CopyChain` | internal/buffer/index.go:284-305 | One chain is copied in order |
| `Index.Index.Grow` | internal/buffer/index.go:313-319 | The table ends under three quarters full and no more than twice the size that needs, the map unchanged |
| `Index.Index.Rehash` | internal/buffer/index.go:323-336 | Live slots are re-inserted without tombstones, the map unchanged |
| `IndexArena.ArenaIsDisjointUnion` | internal/buffer/index.go:169-180 | Every arena node is on exactly one chain or on the free list |
| `IndexArena.FreeStep` | internal/buffer/index.go:229-237 | Freeing a chain moves exactly its nodes to the free list |
| `Segment.PutRecordHeader` | internal/buffer/record.go:33-37 | Writes length, id and checksum in place, all 24 bytes |
| `Segment.RecordHeaderRoundTrip` | internal/buffer/record.go:33-44 | Parsing a written header gives back length, id and checksum |
| `Segment.ScanRecords` | internal/buffer/segment.go:259-286 | The loop computes the scan |
| `Segment.TornTail` | internal/buffer/segment.go:259-286 | For any records and any cut, the scan returns exactly the entries of the records that fully fit, and their total size |
| `Segment.WholeLogScans` | internal/buffer/segment.go:106-124 | An uncut log scans back to its whole directory |
| `SegmentExact.ScanIsLongestLog` | internal/buffer/segment.go:259-286 | On every byte string, the scan returns the directory and size of a log that is a prefix of it, and no longer log is one |
| `SegmentExact.FooterExactly` | internal/buffer/segment.go:195-252 | On every byte string, a footer is read if and only if the file is one that finalizing writes, and then it is that file's time range and directory |
| `Segment.FooterRoundTrip` | internal/buffer/segment.go:135-252 | Reading the footer of a finalized file gives back the time range and the directory |
| `SegmentWriter.SegmentWriter.Append` | internal/buffer/segment.go:106-124 | One record is appended at the reported offset; size and time range follow |
| `SegmentWriter.SegmentWriter.Finalize` | internal/buffer/segment.go:135-186 | The file is the records, directory and trailer; refused exactly for a negative time range |
| `SegmentWriter.SegmentWriter.Recovered` | internal/buffer/buffer.go:243-252 | If the scanned prefix is the log of some fragments, the reopened writer is valid and continues exactly that log; its new time range covers them exactly if none is stamped after the reopening clock |
| `Buffer.Buffer.Append` | internal/buffer/buffer.go:261-276 | Appends the fragment to the retained list, rolling first when needed; says exactly when it is refused; keeps an active segment of fitting records within the segment size |
| `Buffer.Buffer.Roll` | internal/buffer/buffer.go:280-319 | Finalizing and starting the next generation changes nothing retained |
| `Buffer.Buffer.Collect` | internal/buffer/buffer.go:326-363 | Visits exactly the retained fragments of the trace, in append order, with identical bytes, and never misses a reader |
| `Buffer.Buffer.ReadSpot` | internal/buffer/buffer.go:340-361 | A retained location reads back the bytes that were appended |
| `Buffer.Buffer.Expire` | internal/buffer/buffer.go:403-415 | Deletes exactly the leading finalized segments that ended before now minus the window and can be removed, and reports their bytes; rolls a stale active segment; moves the index cursor on and leaves no dead trace in the swept window |
| `Buffer.Buffer.RollIfStale` | internal/buffer/buffer.go:407-411 | A nonempty active segment that ended before the cutoff is rolled, unless its time range is negative; any other is left alone |
| `Buffer.Buffer.DeleteExpired` | internal/buffer/buffer.go:422-433 | Deletes exactly the leading segments that ended before the cutoff and can be removed, and reports their bytes |
| `Buffer.Buffer.RemoveSegment` | internal/buffer/buffer.go:439-454 | A failed removal changes nothing; a successful one drops exactly that segment's fragments and bytes |
| `Buffer.Buffer.OldestFinalized` | internal/buffer/buffer.go:458-466 | The finalized segment of the lowest generation, if there is one |
| `Buffer.Buffer.DiskBytes` | internal/buffer/buffer.go:470-472 | The running total equals the summed lengths of all segment files, the active one included |
| `Buffer.Buffer.OldestFinalizedTMax` | internal/buffer/buffer.go:477-480 | The newest stamp of the segment the watermark would sacrifice next |
| `Buffer.Buffer.ExpireOldest` | internal/buffer/buffer.go:486-495 | Drops the oldest segment exactly if there is one and its removal succeeds, and reports the bytes freed |
| `Buffer.Buffer.Close` | internal/buffer/buffer.go:501-523 | What stays on disk is every segment file, the active one without a footer |
| `Recovery.Open` | internal/buffer/buffer.go:115-171 | Refuses exactly bad options or an unreadable middle segment; runs with the given options and their defaults; on the image of a buffer it restores it |
| `Recovery.Recover` | internal/buffer/buffer.go:177-222 | Folds finalized directories and the scanned active segment into an index that stands for the same records, under the given options |
| `Recovery.ReopenActive` | internal/buffer/buffer.go:227-257 | Scans the footerless segment and continues after its valid prefix |
| `Recovery.Restart` | internal/buffer/buffer.go:115-257 | Close then Open retains the same list, in order, with the same window, checksum and segment size; with the active file cut anywhere, exactly the records beyond the cut are lost; time ranges still cover stamps when the clock has not gone back |
| `Retention.RestartThenExpire` | internal/buffer/buffer.go:115-257 | After a restart and an expiry at now, every surviving fragment stamped at or after now minus the window is still retained, in order |
| `Retention.ExpireKeeps` | internal/buffer/buffer.go:403-433 | Expiry drops nothing stamped at or after now minus the window |
| `Retention.ExpireTwice` | internal/buffer/buffer.go:403-433 | When removals succeed, two expiries at one time leave nothing in front of the first segment that ends within the window; if no segment ends within it, nothing is retained |
| `Retention.AppendClamped` | internal/shards/worker.go:209-214 | An append with the clamped stamp keeps every retained stamp at or behind a clock that does not go back |
| `Retention.KeptFragment` | internal/buffer/buffer.go:403-415 | What retention means for a single fragment: one stamped at or after the cutoff is still there |
| `Watermark.Ladder.ReportDisk` | internal/shards/worker.go:156-160 | The shard's share of the total becomes its disk use; other shares are untouched |
| `Watermark.Ladder.WatermarkRung` | internal/shards/worker.go:117-139 | Deletes nothing while the total is at or below the watermark, and its last deletion only while it was above; deletes only segments that ended before now minus the floor; keeps the report exact; its cause says why it stopped |
| `Watermark.Ladder.SacrificeOldest` | internal/shards/worker.go:121-138 | One turn deletes the oldest segment or names the reason it may not |
| `Watermark.Ladder.Tick` | internal/shards/worker.go:105-139 | Expiry, report and rung together delete only what was stamped before the floor, and at least every leading segment the window has passed and that can be removed |
| `DiskLadder.TotalIsSumOfReports` | internal/shards/worker.go:156-160 | In every interleaving the total is the sum of the shards' last reports |
| `DiskLadder.ReportIsExact` | internal/shards/worker.go:112-139 | Whatever removals do and wherever the watermark lies, from its report to the end of its tick a shard's report equals its disk use |
| `DiskLadder.NeverAllStuckBetweenTicks` | internal/shards/shards.go:221-231 | With the watermark above the active segments and removals that succeed, whenever no shard is inside a tick some shard is not at nothingReclaimable |
| `DiskLadder.AllStuckOnlyInsideATick` | internal/shards/worker.go:115-139 | All stored causes say nothingReclaimable at once only while some shard is inside a tick with its verdict still open |
| `DiskLadder.AllStuckInsideATick` | internal/shards/worker.go:115-139 | A run in which that does happen |
| `Wire.UvarintRoundTrip` | internal/fragmenter/protoenc.go:51-57 | Reading a written varint gives back the value and what follows |
| `Wire.UvarintSize` | internal/fragmenter/protoenc.go:109-116 | The counted size is the written length |
| `Wire.KeySize` | internal/fragmenter/protoenc.go:118-118 | The wire type does not change a key's length |
| `Wire.TwoPass` | internal/fragmenter/protoenc.go:154-262 | For every message tree the write pass emits exactly what the size pass computed, less the fields it leaves out, at every nesting level |
| `Wire.ParseBack` | internal/fragmenter/protoenc.go:51-107 | A message with nothing left out parses back to its fields, in order |
| `Values.I64Wire` | internal/fragmenter/protoenc.go:27-37 | The bit pattern is two's complement |
| `Values.ValueTwoPass` | internal/fragmenter/protoenc.go:154-235 | Written length plus two bytes per empty bytes value is the computed size, so they agree exactly when there is none |
| `Values.EmptyBytesDisagree` | internal/fragmenter/protoenc.go:178-179 | An empty bytes value is sized as two bytes and written as none |
| `Values.RoundTrip` | internal/fragmenter/protoenc.go:186-245 | The reference decoder recovers every value without an empty bytes value |
| `Values.RoundTripIff` | internal/fragmenter/protoenc.go:186-245 | The reference decoder recovers a value if and only if no bytes value inside it is empty |
| `Values.AttrSizes` | internal/fragmenter/protoenc.go:247-262 | Attribute lists: the computed size is the tree's size, two bytes short per empty bytes value |
| `Encoder.CountUvarint` | internal/fragmenter/protoenc.go:109-116 | The counting loop returns the written length |
| `Encoder.Enc.PutUvarint` | internal/fragmenter/protoenc.go:51-57 | The loop appends the base-128 varint |
| `Encoder.Enc.Msg` | internal/fragmenter/protoenc.go:104-107 | Appends a key and length prefix |
| `Encoder.Enc.PutStr` | internal/fragmenter/protoenc.go:61-68 | Appends a string field, or nothing for the empty string |
| `Encoder.Enc.PutVarintF` | internal/fragmenter/protoenc.go:79-85 | Appends a varint field, or nothing for zero |
| `Encoder.Enc.PutFixed64F` | internal/fragmenter/protoenc.go:87-93 | Appends a 64-bit field, or nothing for zero |
| `Encoder.Enc.PutFixed32F` | internal/fragmenter/protoenc.go:95-101 | Appends a 32-bit field, or nothing for zero |
| `Encoder.Enc.PutValue` | internal/fragmenter/protoenc.go:186-235 | Appends exactly the value's message |
| `Encoder.Enc.PutSlice` | internal/fragmenter/protoenc.go:206-216 | Sums the sizes, then writes the items behind the length prefix |
| `Encoder.Enc.PutKeyValue` | internal/fragmenter/protoenc.go:241-245 | Appends exactly the key-value message |
| `Encoder.Enc.PutAttrs` | internal/fragmenter/protoenc.go:256-262 | Appends one nested message per attribute, in order |
| `Encoder.Enc.PutEvent` | internal/fragmenter/spanenc.go:31-36 | Appends exactly the event's message |
| `Encoder.Enc.PutLink` | internal/fragmenter/spanenc.go:53-64 | Appends exactly the link's message |
| `Encoder.Enc.PutSpan` | internal/fragmenter/spanenc.go:100-132 | Appends exactly the span's message |
| `Encoder.Enc.PutResource` | internal/fragmenter/spanenc.go:139-142 | Appends exactly the resource's message |
| `Encoder.Enc.PutScope` | internal/fragmenter/spanenc.go:150-155 | Appends exactly the scope's message |
| `Encoder.Enc.PutSSRun` | internal/fragmenter/spanenc.go:213-222 | Appends one scope run: its scope, its spans in order, its schema |
| `Encoder.Enc.PutRSRun` | internal/fragmenter/spanenc.go:203-225 | Appends one resource run, split where the scope changes |
| `Encoder.Enc.PutGroup` | internal/fragmenter/spanenc.go:196-226 | Appends the whole fragment, split where the resource changes |
| `Encoder.EndOfResourceRun` | internal/fragmenter/spanenc.go:198-201 | The inner loop finds the end of the longest run |
| `Encoder.EndOfScopeRun` | internal/fragmenter/spanenc.go:207-210 | The inner loop finds the end of the longest run |
| `Spans.SpanSized` | internal/fragmenter/spanenc.go:66-132 | A span's computed size is its tree's size, two bytes short per empty bytes value |
| `Spans.EventSized` | internal/fragmenter/spanenc.go:24-36 | The same for events |
| `Spans.LinkSized` | internal/fragmenter/spanenc.go:38-64 | The same for links |
| `SpanGroups.GroupTwoPass` | internal/fragmenter/spanenc.go:182-226 | For every batch and list of references, written length plus two bytes per empty bytes value is the computed size |
| `SpanGroups.RSRunSized` | internal/fragmenter/spanenc.go:166-178 | A resource run's computed size is its tree's size |
| `SpanDecode.SpanBack` | internal/fragmenter/spanenc.go:100-132 | Decoding a written span gives the span back, field by field |
| `FragmentDecode.FragmentRoundTrip` | internal/fragmenter/spanenc.go:196-226 | Without an empty bytes value, decoding a fragment gives the referenced spans run by run, each under its own resource and scope |
| `FragmentDecode.RunsHoldSelected` | internal/fragmenter/spanenc.go:166-226 | Splitting references into resource and scope runs loses, adds and reorders nothing |
| `Spoiled.FragmentRoundTripIff` | internal/fragmenter/spanenc.go:196-226 | For every batch and list of references, the fragment decodes to the referenced spans if and only if no bytes value inside is empty |
| `Spoiled.SpanSpoiled` | internal/fragmenter/spanenc.go:100-132 | A span with an empty bytes value anywhere inside never decodes to itself, whatever follows it |
| `Spoiled.ValueSpoiled` | internal/fragmenter/protoenc.go:186-235 | A value with an empty bytes value inside never decodes to itself, as long as what follows does not start with the key of a bytes value |
| `Faults.SubFault` | internal/fragmenter/protoenc.go:104-107 | The first nested message with unwritten bytes is read at its own place, completed with bytes from behind it |
| `Fragmenter.Fragmenter.Fragment` | internal/fragmenter/fragmenter.go:59-115 | One fragment per trace in order of first appearance, with its spans in batch order, the first verdict and the baseline verdict; detection runs only on spans whose trace has no verdict and the baseline once per trace |
| `Fragmenter.Fragmenter.Add` | internal/fragmenter/fragmenter.go:80-101 | One span is chained into its group and detected unless its trace has a verdict |
| `Fragmenter.Fragmenter.Chain` | internal/fragmenter/fragmenter.go:82-96 | The new reference is linked behind the tail of its own group and no other chain changes |
| `Fragmenter.Fragmenter.Flatten` | internal/fragmenter/fragmenter.go:107-110 | Walking a chain visits the group's spans in batch order |
| `Fragmenter.Fragmenter.Emit` | internal/fragmenter/fragmenter.go:106-114 | Each group is encoded and handed over with its reason and baseline verdict |
| `Fragmenter.GroupsPartition` | internal/fragmenter/fragmenter.go:72-104 | The groups together hold every span of the batch exactly once |
| `Fragmenter.MembersExactly` | internal/fragmenter/fragmenter.go:72-104 | A group holds exactly the spans of its trace |
| `Fragmenter.FirstReasonIsFirst` | internal/fragmenter/fragmenter.go:97-101 | A group's reason is the verdict of its first span with one |
| `Fragmenter.DetectedExactly` | internal/fragmenter/fragmenter.go:97-101 | Detection runs on a span if and only if no earlier span of its trace had a verdict |
| `Fragmenter.OrderIsFirstAppearance` | internal/fragmenter/fragmenter.go:84-89 | Of two traces, the one handed over first has a span before any span of the other |
| `Fragmenter.RefsAreTheBatch` | internal/fragmenter/fragmenter.go:72-81 | Every span of the batch is visited exactly once, by resource, then scope, then span |
| `Fragmenter.OutputDecodes` | internal/fragmenter/fragmenter.go:106-114 | Each fragment decodes to exactly its trace's spans, in batch order, if and only if no bytes value inside is empty |
| `DurablePublish.Publish` | internal/bus/natsbus/natsbus.go:213-275 | For every batch, acknowledgement outcome and moment the context dies, each position is delivered or listed as failed, exactly once; says exactly when the error is nil, and that it is the last refusal of the bus whenever the bus refused a keep, the context's error otherwise |
| `DurablePublish.PublishChunk` | internal/bus/natsbus/natsbus.go:214-272 | One chunk; a dead context fails the unattempted tail of the whole batch |
| `DurablePublish.SendChunk` | internal/bus/natsbus/natsbus.go:218-232 | Sends until the context is dead and lists exactly the synchronous failures |
| `DurablePublish.JoinChunk` | internal/bus/natsbus/natsbus.go:241-258 | Lists exactly the refused and unresolved futures, reading the context at each unresolved one |
| `DurablePublish.NilIffNoneFailed` | internal/bus/natsbus/natsbus.go:233-240 | Given that completion implies resolved futures, the error is nil if and only if nothing failed |
| `DurablePublish.SilentFutureBreaksContract` | internal/bus/natsbus/natsbus.go:250-257 | Without that promise one unresolved future under a live context gives a failed keep beside a nil error |

## Left out

- ShardSettles.CanSettle: says that every obligation can be settled, not that disk, bus and consumer ever let it be.
- ShardOutcomes.GivenUpOnlyLate: excludes runs with a local keep dated exactly at the zero instant, for which `ShardDecisions.KeepParksItsDeadlineIff` is the exact statement.
- ShardDelivery.AtLeastOnce: says nothing once shutdown has begun, because hand-backs may then be refused; the fragments are still on disk.
- ShardWorker.Shard.Collect: reads the list of stored records instead of the segment buffer; `ShardStore.JobCarriesCollected` and `Buffer.Buffer.Collect` say the two agree.
- ShardWorker.Shard.Tick: does the decision half of a tick; the storage half, on the real buffer, is `Watermark.Ladder.Tick`.
- HandoffProgress.ShutdownCanFinish: says that a Shutdown call can always be brought to its end, not that it must end, which it need not while a sender stays blocked.
- HandoffProof.ProduceHolders: why a call is shed (floor, empty ring, abort) is left open, so every refusal is allowed at any time.
- Values.I64Wire: values of 64 bits; lengths and varints are unbounded numbers, so the encoder's size arithmetic does not overflow here.
- Encoder.Enc.PutGroup: references outside the batch are excluded, as the source indexes with them directly.
- Time spent blocked, wake-up order and fairness of goroutines and channels.
- The processor, configuration, telemetry, age ratios, memory budgets, slice capacities and the shrinking of backing arrays.
- NATS connection and subscription, stream setup, the core (at-most-once) publish loop and the in-process loopback bus.
- OTTL policies, detectors and baseline thresholds: arbitrary functions here.
- pdata decoding, file names, fsync, permissions and I/O errors other than failed removals, failed reads and failed appends at the worker.
- The shard routing hash: events reach some shard; which one is not modelled.
