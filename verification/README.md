# Performance-test engines of DPDK and a memory dumper, modelled in Dafny

The repository holds a copy of DPDK and a small kernel module, buster. This project models the
parts of them that are state machines or arithmetic with a promise:

- **test-compress-perf**: an input is cut into chains of segments and pushed through a compression
  device in bursts, any part of which the device may take or return; the verify test compresses,
  decompresses and compares, two others verify and then measure (`CompCommon`, `CompBurst`,
  `CompVerify`, `CompPerf`, `CompThroughput`, `CompCyclecount`, `CompRunner`, over `Mbufs` and
  `CompDevice`).
- **test-crypto-perf**: three ways to keep ops in flight and give every one back
  (`CryptoThroughput`, `CryptoLatency`, `CryptoCyclecount`, over `CryptoDevice`), and the place of
  the digest (`DigestPlacement`).
- **test-fib**: routes spread over prefix depths, random prefixes, lookup addresses and batches
  (`FibRandom`, `FibDistrib`, `FibRoutes`, `FibLookup`, `FibBatches`).
- **test-flow-perf**: streams scheduled on cores (`FlowStreams`).
- **devtools/update_version_map_abi.py**: reading and writing version maps (`MapLines`,
  `VersionMap`).
- **buster**: the run-length memory dump `log_range` (`LogRange`).

`Util`, `Orders`, `Mempools` and `Traffic` are shared: sequences and arithmetic, concatenations along
an order, the part of `rte_mempool` the programs rely on, and what the enqueue and dequeue calls of a
run ask for.

The environment is nondeterministic. A device accepts any prefix of a burst and returns any finished
ops, in order only if its `fifo` field says so; `lifo` and `swift` devices resolve the choices in one
way, for runs that are to be shown possible. Each fruitless call costs one of a finite number of
`stalls`, which is the progress assumption behind termination. The devices keep ghost logs of what
they accepted and returned and of what every call asked for, and the promises about whole runs are
about those logs. Decompression
undoes compression for every op, whatever bytes the device chooses; whether an op succeeds is a
function of its input, its buffer and the room for its output. Random numbers and the time stamp
counter are arbitrary values of their range, the counter one that does not go back. Code that
changes things step by step is modelled by classes, arrays and loops; the state is then compared
with functions and predicates about which the lemmas speak.

## What the proofs show to be false or conditional

- *Round trip.* `rte_compressdev.h` does not promise that ops come back in the order of enqueue, but
  the verify test appends outputs as they arrive. On a healthy device that compresses every chunk
  into its chain the runner succeeds exactly if the chunks are the input in the order in which the
  device returned them last. That holds for every order exactly if any two chunks of the input
  commute (`OrderMattersExactly`). `OrderSpoils` is a run that fails on a device that returns the
  newest op first. The order matters in the decompression phase only.
- *Bad status.* `main_loop` of the verify test returns 0 when an op fails for any other reason than
  lack of space: `RunDecompressOnly` returns success for every input that is no stream.
- *Measurement of decompression only.* The loops of the throughput and cyclecount tests take the
  segments of the output chain for seg_sz bytes long although they are longer. The trimming loop
  runs off the chain exactly if the content exceeds max_sgl_segs * seg_sz (`DecompressOnlyTest`;
  `RunsOff` is an input), and the content stays readable exactly if it fits the first seg_sz bytes
  (`TrimmedKeepsExactly`).
- *Decompression only with external mbufs.* `prepare_bufs` always fails, because it appends more
  bytes than the memzone segment has.
- *Digest out of place.* The options are accepted although the segment may have no room for the
  digest; all sizes fit exactly if maximum size plus digest does (`NoRoomInSegment`). The destination
  has only maximum size plus digest bytes, so with a headroom the digest ends outside the object
  exactly if headroom and data exceed the maximum size (`NoRoomInObject`).
- *Route distribution.* The total of specified routes is added modulo 2^32; the counts fit the table
  exactly if it does not wrap (`WrapPasses`, `WrapOverruns`).
- *Routes of depth 0.* Only one is written, so the table is filled exactly if at most one is asked for
  (`TwoAtZero`).
- *Streams.* No core's table is checked for room: all streams fit exactly if there are at most
  MAX_STREAMS for each worker (`TooManyStreams`).
- *Version maps.* Stable lines outside a stable section are dropped, and a major version with digits
  other than 0 to 9 passes the version pattern but is not read back as a section
  (`LostLines`, `LostSection`).
- *Memory dump.* The offset on the last run line is wrong for every range of at least one block.

## Model

| member | source | states |
|---|---|---|
| `CompVerify.VerifyTest` | dpdk/app/test-compress-perf/comp_perf_test_verify.c:27-444 | For every input, segment size, SGL limit, burst size and device: on a healthy device both loops complete exactly if the device compresses every chunk into the segments of its chain. By the device's logs all buffers are accepted in order and returned once in each phase, and the result is success exactly if the chunks in the order of the last returns are the input, as they are for certain if the device keeps the order or any two chunks commute |
| `CompVerify.VerifyCtx.Run` | dpdk/app/test-compress-perf/comp_perf_test_verify.c:389-444 | The runner: which chunks make the compression end early and how; once it completes a healthy device cannot fail the decompression; the device's log of returns is the completion orders of the two phases, and the return value says whether the chunks in the second order are the input; the chains hold their chunks again |
| `CompVerify.OrderMatters` | dpdk/app/test-compress-perf/comp_perf_test_verify.c:222-260 | Two buffers of 16 different bytes on any healthy device: the test fails exactly if the log shows them returned swapped by the decompression |
| `CompVerify.OrderSpoils` | dpdk/app/test-compress-perf/comp_perf_test_verify.c:222-260 | A device on which this run happens: every op succeeds, the newest comes back first, and the test fails |
| `CompVerify.OrderMattersExactly` | dpdk/app/test-compress-perf/comp_perf_test_verify.c:222-260 | For every input: all orders of completion compare equal exactly if any two chunks commute, as they do when there is only one |
| `Orders.OrderIrrelevant` | dpdk/app/test-compress-perf/comp_perf_test_verify.c:222-260 | A concatenation is the same in every order exactly if any two of its parts commute |
| `CompVerify.ExitDecided` | dpdk/app/test-compress-perf/comp_perf_test_verify.c:222-281 | On a healthy device the chunks decide how the compression loop ends |
| `CompVerify.VerifyCtx.CompressPhase` | dpdk/app/test-compress-perf/comp_perf_test_verify.c:401-407 | It completes on a healthy device exactly if every chunk fits; then every compressed chain decompresses to its chunk of the input; an early end has its reason in a chunk or an unhealthy device |
| `CompVerify.VerifyCtx.DecompressPhase` | dpdk/app/test-compress-perf/comp_perf_test_verify.c:409-413 | Decompressing those chains yields all chunks in the order in which the device's log shows them returned, and as many bytes as the input has |
| `CompVerify.VerifyCtx.RunDecompressOnly` | dpdk/app/test-compress-perf/comp_perf_test_verify.c:409-424 | Decompression only: on a healthy device the loop completes exactly if the input is a stream whose content fits the chain, and has then collected the content; content that does not fit is an error; an input that is no stream ends the loop without an error |
| `CompVerify.VerifyCtx.MainLoop` | dpdk/app/test-compress-perf/comp_perf_test_verify.c:49-386 | main_loop: it completes on a healthy device exactly if every op succeeds; by the device's logs each buffer is then accepted once in order and returned once, in calls that ask for the lesser of burst_sz and what is left, all ops are in the pool, and the output area holds the outputs in the order of return |
| `CompVerify.RunBursts` | dpdk/app/test-compress-perf/comp_perf_test_verify.c:131-372 | One iteration: ops, pool and device are as before it; the logs show the ids 0 to total_bufs - 1 accepted in order and each returned once; the output never overruns its area; every early end has the status of an op or an unhealthy device for its reason |
| `CompVerify.RoundsConcat` | dpdk/app/test-compress-perf/comp_perf_test_throughput.c:127-302 | Rounds over all buffers add up |
| `CompVerify.Feed` | dpdk/app/test-compress-perf/comp_perf_test_verify.c:142-285 | The enqueue loop ends with all buffers handed over, however little of each burst is taken or returned, or for a reason |
| `CompVerify.Drain` | dpdk/app/test-compress-perf/comp_perf_test_verify.c:287-368 | The draining loop ends with everything dequeued, or for a reason |
| `CompVerify.Collect` | dpdk/app/test-compress-perf/comp_perf_test_verify.c:216-283 | One dequeue: outputs are appended in the order of return, chains trimmed, ops freed; a failure means an op without output space, a silent end one that failed otherwise |
| `CompVerify.ReadBurst` | dpdk/app/test-compress-perf/comp_perf_test_verify.c:222-258 | Each returned op contributes exactly the bytes it produced, read across its segments, if all have succeeded; the loop fails on a returned op without output space and is left without an error on one that failed otherwise |
| `CompVerify.TrimBurst` | dpdk/app/test-compress-perf/comp_perf_test_verify.c:261-280 | Setting data_len along the chains makes each chain hold exactly the produced bytes |
| `CompVerify.OutputInOrder` | dpdk/app/test-compress-perf/comp_perf_test_verify.c:222-280 | Every chain is finished, and the collected output is their contents in completion order |
| `CompVerify.ChunksBack` | dpdk/app/test-compress-perf/comp_perf_test_verify.c:409-418 | Finished decompression gives back the chunks, and a permutation of them has the length of the input |
| `Orders.DistinctSum` | dpdk/app/test-compress-perf/comp_perf_test_verify.c:222-260 | Entries named once each, in any order, add up to the whole: why the output fits |
| `Orders.ConcatLength` | dpdk/app/test-compress-perf/comp_perf_test_verify.c:222-260 | The length of a concatenation from bounds on its parts |
| `CompBurst.Burst.Stage` | dpdk/app/test-compress-perf/comp_perf_test_verify.c:143-194 | Leftovers move to the front and new ops are drawn: ops[k] is set up for buffer total_enq_ops + k; the pool never runs dry |
| `CompBurst.Burst.MoveUnused` | dpdk/app/test-compress-perf/comp_perf_test_verify.c:147-156 | memmove keeps the leftovers and their order |
| `CompBurst.Burst.AllocateOps` | dpdk/app/test-compress-perf/comp_perf_test_verify.c:158-168 | Bulk allocation from the 2 * total_bufs pool succeeds |
| `CompBurst.Burst.PoolSuffices` | dpdk/app/test-compress-perf/comp_perf_test_common.c:295-301 | What is not free is staged or in the device, so there are enough free ops |
| `CompBurst.Burst.SetUpOps` | dpdk/app/test-compress-perf/comp_perf_test_verify.c:170-194 | Buffer numbers continue without gap behind the leftovers; output chains get their full length back |
| `CompBurst.Burst.Enqueue` | dpdk/app/test-compress-perf/comp_perf_test_verify.c:199-214 | The accepted prefix of the burst is in the device, the rest stays staged; if a healthy device takes none, only the stall budget shrinks |
| `CompBurst.Burst.Dequeue` | dpdk/app/test-compress-perf/comp_perf_test_verify.c:216-220 | deq_ops never overflows; returned ops are those of buffers in the device, delivered as the device promises |
| `CompBurst.Burst.Release` | dpdk/app/test-compress-perf/comp_perf_test_verify.c:281-283 | Freed ops are in the pool and in no other place |
| `CompBurst.Burst.IterationOver` | dpdk/app/test-compress-perf/comp_perf_test_verify.c:286-369 | At the end nothing is allocated, the pool is whole, the device empty, and the buffers its log shows returned are a permutation of all, the identity for an order-keeping device |
| `CompBurst.SetUpKeeps` | dpdk/app/test-compress-perf/comp_perf_test_verify.c:170-194 | Ownership is kept when an op is set up for the next buffer |
| `CompBurst.AcceptKeeps` | dpdk/app/test-compress-perf/comp_perf_test_verify.c:199-214 | Ownership is kept when the device accepts an op |
| `CompBurst.ReturnKeeps` | dpdk/app/test-compress-perf/comp_perf_test_verify.c:216-220 | Ownership is kept when the device returns ops |
| `CompBurst.ReleaseKeeps` | dpdk/app/test-compress-perf/comp_perf_test_verify.c:281-283 | Ownership is kept when returned ops are freed |
| `CompBurst.ProgressDequeue` | dpdk/app/test-compress-perf/comp_perf_test_verify.c:216-220 | Returned and outstanding buffers together stay the buffers enqueued |
| `CompDevices.CompDevice.EnqueueBurst` | dpdk/lib/compressdev/rte_compressdev.h:421-475 | Any prefix of a burst may be accepted and is logged |
| `CompDevices.CompDevice.DequeueBurst` | dpdk/lib/compressdev/rte_compressdev.h:362-420 | Any finished ops come back and are logged, each worked on exactly once, nothing else touched; the status is success exactly if the op is not refused and what it stands for fits the output chain |
| `CompCommon.MemResources.PrepareBufs` | dpdk/app/test-compress-perf/comp_perf_test_common.c:365-549 | The payloads of all input chains concatenate to the input and all segments are used up; it fails exactly when only decompressing with external mbufs; else the compressed chain holds the whole input |
| `CompCommon.MemResources.PrepareToCompress` | dpdk/app/test-compress-perf/comp_perf_test_common.c:379-549 | All chain pairs are prepared, indices and pools are never exceeded |
| `CompCommon.MemResources.PrepareChainsToDecompress` | dpdk/app/test-compress-perf/comp_perf_test_common.c:379-549 | The one chain pair when only decompressing |
| `CompCommon.FillChain` | dpdk/app/test-compress-perf/comp_perf_test_common.c:381-455 | Copying segment by segment cuts the next chunk: 1 to max_sgl_segs full segments but for the last |
| `CompCommon.BlankChain` | dpdk/app/test-compress-perf/comp_perf_test_common.c:457-543 | Output segments: it fails exactly when the length exceeds the room |
| `CompCommon.ChunksAreInput` | dpdk/app/test-compress-perf/comp_perf_test_common.c:379-455 | The chunks in order are the input |
| `CompCommon.EnoughChains` | dpdk/app/test-compress-perf/comp_perf_test_common.c:236-250 | total_bufs chains are enough for the input and none is empty |
| `CompCommon.SegUsed` | dpdk/app/test-compress-perf/comp_perf_test_common.c:236-238 | Segments are left to take exactly as long as data are left |
| `CompCommon.DecompressOnlySizes` | dpdk/app/test-compress-perf/comp_perf_test_common.c:240-248 | Decompressing only: one chain, and the input fits its segments |
| `CompCommon.FindBufSize` | dpdk/app/test-compress-perf/comp_perf_test_common.c:57-78 | The halving search ends at the top bit of the doubled size: a power of two above the input size and at most twice it, or 11/10 of it; with headroom it stays within 16 bits |
| `CompCommon.PowerAboveIsOnly` | dpdk/app/test-compress-perf/comp_perf_test_common.c:57-78 | There is only one power of two above a size and at most twice it |
| `CompCommon.MemResources.constructor` | dpdk/app/test-compress-perf/comp_perf_test_common.c:225-363 | Pools, arrays and data areas are as large as the sizing arithmetic says |
| `CompCommon.PowersBelow` | dpdk/app/test-compress-perf/comp_perf_test_common.c:72-77 | No power of two lies between the values the branch distinguishes |
| `Mbufs.TrimChain` | dpdk/app/test-compress-perf/comp_perf_test_verify.c:262-281 | The trimming loop equals the recursive cut of the lengths; it runs off the chain exactly if the produced bytes exceed its segments at the size the loop takes them to have |
| `Mbufs.TrimmedKeepsData` | dpdk/app/test-compress-perf/comp_perf_test_verify.c:262-281 | Cutting the lengths of a full chain keeps its first bytes readable in place |
| `Mbufs.TrimmedKeepsExactly` | dpdk/app/test-compress-perf/comp_perf_test_throughput.c:228-239 | Cut by a smaller size than the segments have, the content survives exactly if it fits the first cut |
| `Mbufs.ScatterReadsBack` | dpdk/app/test-compress-perf/comp_perf_test_verify.c:222-260 | Bytes written along a chain are read back from it |
| `Mbufs.PktReadIsPrefix` | dpdk/app/test-compress-perf/comp_perf_test_verify.c:244-256 | rte_pktmbuf_read of n bytes gives the first n bytes, whether in one segment or gathered |
| `Mbufs.ResetChain` | dpdk/app/test-compress-perf/comp_perf_test_verify.c:176-190 | Resetting restores the full lengths |
| `CompPerf.Iterate` | dpdk/app/test-compress-perf/comp_perf_test_throughput.c:127-302 | One iteration of either loop (cyclecount lines 251-448), also in segments larger than out_seg_sz: the logs show ids 0 to total_bufs - 1 accepted in order and each returned once, the pool is whole; the last iteration leaves every chain cut to what its op produced, or ends for a stated reason |
| `CompPerf.Iterations` | dpdk/app/test-compress-perf/comp_perf_test_throughput.c:127-302 | On a healthy device the iterations complete exactly if every op succeeds and its output fits the chain at out_seg_sz bytes a segment; by its logs the device has then accepted all buffers in order and returned each once in every iteration, call by call in bursts of burst_sz |
| `CompThroughput.MainLoop` | dpdk/app/test-compress-perf/comp_perf_test_throughput.c:50-326 | The same from the chains and sizes that main_loop chooses for a direction; by the log of its calls every enqueue asks for the lesser of burst_sz and the buffers left, every dequeue for burst_sz |
| `CompCyclecount.OpSetup` | dpdk/app/test-compress-perf/comp_perf_test_cyclecount.c:62-150 | Every output chain is reset and all ops are back in the pool |
| `CompCyclecount.SetUpBurst` | dpdk/app/test-compress-perf/comp_perf_test_cyclecount.c:84-140 | A burst of different ops is set up for consecutive buffers, whose chains are reset, and is given back |
| `CompCyclecount.MainLoop` | dpdk/app/test-compress-perf/comp_perf_test_cyclecount.c:152-464 | As the throughput loop, after the set-up phase; a dequeue behind an enqueue asks for all ops in use, as a uint16_t, and in the draining loop for burst_sz |
| `CompPerf.Give` | dpdk/app/test-compress-perf/comp_perf_test_throughput.c:137-208 | The front half of a round in both loops |
| `CompPerf.TakeBack` | dpdk/app/test-compress-perf/comp_perf_test_throughput.c:210-246 | The back half: returned ops are freed; in the last iteration their chains are cut, and an early end means an op that failed or one whose output exceeds its chain at out_seg_sz bytes a segment |
| `CompPerf.CheckOne` | dpdk/app/test-compress-perf/comp_perf_test_throughput.c:217-239 | Status check and trimming of one op, with the reason for each way it can end |
| `CompPerf.DrainAll` | dpdk/app/test-compress-perf/comp_perf_test_throughput.c:250-301 | The draining loop ends with everything dequeued, or for a reason |
| `CompPerf.Finish` | dpdk/app/test-compress-perf/comp_perf_test_throughput.c:249-302 | After it the pool is whole, the device empty, every buffer was returned once by its log, and after the last iteration every op has succeeded and every chain is cut |
| `CompRunner.PerfTest` | dpdk/app/test-compress-perf/comp_perf_test_throughput.c:328-403 | The runner from the options, for both tests: on a healthy device that compresses every chunk into its chain it succeeds if the order is kept or does not matter; then the chains hold the input again, the compressed ones stand for it, and by the device's logs all buffers were accepted in order and each returned once in 1 + 2 * num_iter rounds for each direction. Every call is logged with what it asks for: the lesser of burst_sz and the buffers left, and what the dequeue calls of the two tests ask for; the first measured one asks for the lesser of burst_sz and all buffers |
| `Traffic.BurstFacts` | dpdk/app/test-compress-perf/comp_perf_test_throughput.c:137-213 | What the calls of rounds in bursts ask for: a burst or, less than it, what is left of the round; each enqueue call is followed by a dequeue call |
| `Traffic.RoundsBehindRounds` | dpdk/app/test-compress-perf/comp_perf_test_throughput.c:127-302 | Rounds behind whole rounds are rounds again, so the loops add up call by call |
| `CompRunner.FirstMeasured` | dpdk/app/test-compress-perf/comp_perf_test_throughput.c:137-138 | The first call behind the verification asks for the lesser of burst_sz and all buffers |
| `CompRunner.Run` | dpdk/app/test-compress-perf/comp_perf_test_throughput.c:356-403 | The same for the runner on prepared chains; the cyclecount runner does it alike in lines 466-545 of its file |
| `CompRunner.Measure` | dpdk/app/test-compress-perf/comp_perf_test_throughput.c:364-399 | After a successful verification only an unhealthy device can fail the measurement |
| `CompRunner.DecompressOnlyTest` | dpdk/app/test-compress-perf/comp_perf_test_throughput.c:356-399 | Decompression only, on a healthy device: after a verification that completes, the measurement runs off its chain exactly if the content is longer than max_sgl_segs * seg_sz, and else cuts the chain to the content |
| `CompRunner.RunsOff` | dpdk/app/test-compress-perf/comp_perf_test_throughput.c:228-239 | Such an input: one segment of 8 bytes and 16 bytes of content |
| `CryptoThroughput.ThroughputTest.Stage` | dpdk/app/test-crypto-perf/cperf_test_throughput.c:161-198 | New ops are written in front of the leftovers, which are never overwritten and are moved only if the burst shrinks; ops[0..burst) are then distinct live ops; it fails exactly if the pool has too few |
| `CryptoThroughput.ThroughputTest.Round` | dpdk/app/test-crypto-perf/cperf_test_throughput.c:159-245 | The staging invariant is kept, and the pool suffices when it has total_ops objects |
| `CryptoThroughput.ThroughputTest.Suffices` | dpdk/app/test-crypto-perf/cperf_test_throughput.c:167-178 | The free ops cover what a round needs |
| `CryptoThroughput.ThroughputTest.TakeBack` | dpdk/app/test-crypto-perf/cperf_test_throughput.c:226-243 | Dequeued ops go back to the pool |
| `CryptoThroughput.ThroughputTest.Drain` | dpdk/app/test-crypto-perf/cperf_test_throughput.c:249-263 | The device is emptied and every op freed |
| `CryptoThroughput.ThroughputTest.RunBurstSize` | dpdk/app/test-crypto-perf/cperf_test_throughput.c:149-263 | A run that does not fail makes the device accept total_ops ops and return the same ops; the counts equal total_ops and the pool is whole; by the log every enqueue call with ops asks for the lesser of the burst size and the ops left, every dequeue call for the burst size |
| `CryptoThroughput.ThroughputTest.Run` | dpdk/app/test-crypto-perf/cperf_test_throughput.c:149-333 | For all burst sizes one after another, each asked of the device call by call: as many times total_ops ops accepted and the same returned |
| `CryptoDevices.Sizes` | dpdk/app/test-crypto-perf/cperf_test_throughput.c:159-263 | Every op in exactly one place: staged and outstanding ops are distinct |
| `CryptoLatency.LatencyTest.RunBurstSize` | dpdk/app/test-crypto-perf/cperf_test_latency.c:179-318 | The device accepts total_ops ops and returns the same. The k-th accepted op starts slot k with the time read last before it was accepted, its return finishes that slot with the time read next; an op used several times finishes its slots in order. Every slot is finished once, not before its start; the average lies between least and most |
| `CryptoLatency.LatencyTest.Run` | dpdk/app/test-crypto-perf/cperf_test_latency.c:178-390 | For all burst sizes one after another, each asked of the device call by call: as many times total_ops ops accepted and the same returned |
| `CryptoLatency.LatencyTest.Round` | dpdk/app/test-crypto-perf/cperf_test_latency.c:188-278 | Outstanding ops keep distinct slots although ops are used again |
| `CryptoLatency.LatencyTest.StartSlots` | dpdk/app/test-crypto-perf/cperf_test_latency.c:249-258 | The accepted ops get the next slots and start stamps |
| `CryptoLatency.LatencyTest.FinishSlots` | dpdk/app/test-crypto-perf/cperf_test_latency.c:260-271 | Returned ops finish their own slots |
| `CryptoLatency.LatencyTest.StoreTimestamp` | dpdk/app/test-crypto-perf/cperf_test_latency.c:120-128 | Only the slot of the op is stamped |
| `CryptoLatency.LatencyTest.Drain` | dpdk/app/test-crypto-perf/cperf_test_latency.c:281-302 | The remaining slots are finished |
| `CryptoLatency.LatencyTest.Summarize` | dpdk/app/test-crypto-perf/cperf_test_latency.c:304-309 | Total, least and most of the durations |
| `CryptoLatency.TiedEnqueue` | dpdk/app/test-crypto-perf/cperf_test_latency.c:249-258 | New ops with the next slots keep all slots distinct |
| `CryptoLatency.TiedDequeue` | dpdk/app/test-crypto-perf/cperf_test_latency.c:260-271 | Returned ops have distinct unfinished slots, and the others keep theirs |
| `CryptoLatency.MatchedStart` | dpdk/app/test-crypto-perf/cperf_test_latency.c:249-258 | The next slots belong to the ops accepted next, also when an op is used again |
| `CryptoLatency.MatchedFinish` | dpdk/app/test-crypto-perf/cperf_test_latency.c:260-271 | Every return finishes the latest slot of its op, behind all slots that op has finished before |
| `CryptoLatency.TimedFinish` | dpdk/app/test-crypto-perf/cperf_test_latency.c:260-271 | Stamping the returned ops leaves the ends of all other slots as they were |
| `CryptoLatency.TiedFacts` | dpdk/app/test-crypto-perf/cperf_test_latency.c:188-278 | Slots of outstanding ops are distinct, started and not finished; the counts add up |
| `CryptoLatency.AverageBetween` | dpdk/app/test-crypto-perf/cperf_test_latency.c:304-318 | A truncated average lies between the extremes |
| `CryptoCyclecount.CyclecountTest.BenchOps` | dpdk/app/test-crypto-perf/cperf_test_pmd_cyclecount.c:144-195 | Every burst takes different ops of the pool and gives them back; the array keeps them |
| `CryptoCyclecount.CyclecountTest.BuildOps` | dpdk/app/test-crypto-perf/cperf_test_pmd_cyclecount.c:198-232 | The array prefix and the pool together are all ops |
| `CryptoCyclecount.CyclecountTest.BenchEnq` | dpdk/app/test-crypto-perf/cperf_test_pmd_cyclecount.c:235-262 | The device holds exactly the returned number of ops from the front, also after an early return |
| `CryptoCyclecount.CyclecountTest.BenchDeq` | dpdk/app/test-crypto-perf/cperf_test_pmd_cyclecount.c:265-286 | The ops come back as a permutation over the entries they left, the rest of the array is untouched |
| `CryptoCyclecount.CyclecountTest.FillAndDrain` | dpdk/app/test-crypto-perf/cperf_test_pmd_cyclecount.c:356-369 | After enqueue and dequeue the array is a permutation of what was built |
| `CryptoCyclecount.CyclecountTest.Iterate` | dpdk/app/test-crypto-perf/cperf_test_pmd_cyclecount.c:335-378 | The device accepts and returns as many ops as counted; giving back the whole array restores the pool |
| `CryptoCyclecount.CyclecountTest.BenchBurstSz` | dpdk/app/test-crypto-perf/cperf_test_pmd_cyclecount.c:289-385 | The device accepts total_ops ops and returns the same ops, both counters say so, and the pool is whole; with nb_descriptors objects in the pool it does not fail |
| `CryptoCyclecount.CyclecountTest.Run` | dpdk/app/test-crypto-perf/cperf_test_pmd_cyclecount.c:433-445 | The same for all burst sizes one after another, each asked of the device call by call |
| `DigestPlacement.PlaceDigest` | dpdk/app/test-crypto-perf/cperf_ops.c:353-374 | From the options through the devices to the walk. In place they are accepted exactly if no segment size is set or the digest fits it, out of place exactly if it exceeds max_buffer_size and the digest fits it; in place the digest lies in one existing segment, at the end of the data or at the start of the next segment; out of place it fits exactly if data and digest fit the room that the devices leave for data |
| `DigestPlacement.SeveralSegments` | dpdk/app/test-crypto-perf/cperf_ops.c:353-374 | Accepted options with three segments of 512 bytes for 1500 bytes and a digest of 20: it lies in the last segment behind 1500 bytes, at its start behind 1010, in the first behind 492 |
| `DigestPlacement.TwoDevices` | dpdk/app/test-crypto-perf/main.c:247-262 | Two devices, of which the first asks for 16 and 8 bytes: they are room for data once the second is added, and are added again to the segment |
| `DigestPlacement.InPlaceFits` | dpdk/app/test-crypto-perf/cperf_ops.c:359-373 | For every non-zero digest and every size up to the maximum the walk stays inside the segments, whatever lies behind them |
| `DigestPlacement.EmptyDigest` | dpdk/app/test-crypto-perf/cperf_ops.c:359-373 | With an empty digest the walk leaves the segments exactly if the data fill several of them |
| `DigestPlacement.OutOfPlaceFits` | dpdk/app/test-crypto-perf/cperf_options_parsing.c:1171-1176 | Out of place all sizes fit exactly if maximum size and digest fit the segment |
| `DigestPlacement.NoRoomInSegment` | dpdk/app/test-crypto-perf/cperf_options_parsing.c:1171-1176 | Accepted options out of place whose digest does not fit its segment |
| `DigestPlacement.Options.Layout` | dpdk/app/test-crypto-perf/cperf_test_common.c:196-231 | Out of place the digest ends within the object exactly if headroom and data fit max_buffer_size |
| `DigestPlacement.NoRoomInObject` | dpdk/app/test-crypto-perf/cperf_test_common.c:196-231 | Accepted options whose digest fits the segment but, with a headroom, not the object |
| `DigestPlacement.RoomGrows` | dpdk/app/test-crypto-perf/main.c:247-262 | The data have the whole segment size, and more exactly if there are several devices and the options or a device before the last ask for headroom or tailroom |
| `DigestPlacement.StopDivides` | dpdk/app/test-crypto-perf/cperf_ops.c:359-364 | Over equal segments the walk computes quotient and remainder |
| `DigestPlacement.Walk` | dpdk/app/test-crypto-perf/cperf_ops.c:353-374 | The loop finds the place the recursive walk defines; a step past the chain gives a null buffer (the same walk stands in lines 464-485 and 579-601) |
| `DigestPlacement.Options.Check` | dpdk/app/test-crypto-perf/cperf_options_parsing.c:1167-1199 | The condition for acceptance over the fields, in place and out of place, the digest size by op type and the default segment size |
| `DigestPlacement.Options.AddDevice` | dpdk/app/test-crypto-perf/main.c:252-262 | The segment size of before becomes the room for data |
| `DigestPlacement.Options.AddDevices` | dpdk/app/test-crypto-perf/main.c:247-262 | Over all devices: the room for data as a function of the options; headroom and tailroom are the largest asked for by the options or a device |
| `DigestPlacement.Segments` | dpdk/app/test-crypto-perf/cperf_options_parsing.c:1167-1199 | Options to segments: acceptance, room for data, headroom and tailroom, and just enough segments for data and digest |
| `DigestPlacement.Options.Sizes` | dpdk/app/test-crypto-perf/cperf_test_common.c:198-219 | The segments are just enough for data and digest |
| `FibDistrib.Config.CompleteDistrib` | dpdk/app/test-fib/main.c:171-217 | It fails exactly if the wrapped total of specified routes exceeds n; a percentage gives its part of n modulo 2^32. Of two free depths the deeper has no fewer routes, and at most one more if the other has room for more; none gets less than an equal share of the rest unless it is full. The counts fit n exactly if the total did not wrap, and sum to n unless all free depths are full |
| `FibDistrib.Config.SetSpecified` | dpdk/app/test-fib/main.c:178-195 | Specified depths get what was asked for; the total is kept modulo 2^32 |
| `FibDistrib.Config.FillUnspecified` | dpdk/app/test-fib/main.c:202-214 | The average taken anew at every depth: free depths with room for more differ by at most one, the deeper ones having more; the rest is never exceeded, and something is left only if every free depth is full |
| `FibDistrib.OneFilling` | dpdk/app/test-fib/main.c:202-214 | Only one filling of the free depths with a given number of routes is that even |
| `FibDistrib.TakeNext` | dpdk/app/test-fib/main.c:207-212 | The average of what is left stays at the quotient or one above it for every depth that was not full |
| `FibDistrib.StillUnseen` | dpdk/app/test-fib/main.c:208-209 | The divisor counts the free depths not seen yet and is one at the deepest |
| `FibDistrib.WrapPasses` | dpdk/app/test-fib/main.c:192-200 | Ten IPv4 routes with 2^31 of them asked for at each of two depths pass the check |
| `FibDistrib.DefaultDistribution` | dpdk/app/test-fib/main.c:1286-1290 | Without a user distribution all n routes are spread, none too many for its depth, and evenly over the depths with room for more |
| `FibRoutes.GetRndRng` | dpdk/app/test-fib/main.c:131-138 | A drawn number reduced to the range, or its lower end without a draw if the range is empty |
| `FibRoutes.DistinctExactly` | dpdk/app/test-fib/main.c:334-346 | Values drawn from cells of equal width differ exactly if there are at most as many as numbers, and are always below the bound |
| `FibRoutes.DrawOne` | dpdk/app/test-fib/main.c:340-342 | The value from the number drawn: with lo and hi the floors of t * 2^i / count and (t + 1) * 2^i / count it is lo plus the draw modulo hi - lo, or lo without a draw if they are equal |
| `FibRoutes.EdgeFloor` | dpdk/app/test-fib/main.c:336-341 | The edges of the cells are integer quotients |
| `FibRoutes.TopBitsFacts` | dpdk/app/test-fib/main.c:342 | A drawn prefix is 32 bits wide, loses nothing in the shift and has zero host bits |
| `FibRoutes.GenDepth4` | dpdk/app/test-fib/main.c:334-346 | The routes of a depth: consecutive slots, each from the number drawn for it, canonical, strictly increasing exactly if at most 2^i |
| `FibRoutes.GenRandomRt4` | dpdk/app/test-fib/main.c:323-347 | The routes fit the table exactly if their slots do; then all depths lie behind one another in it, and the generator has drawn the numbers of the single routes in their order |
| `FibRoutes.SourceAt4` | dpdk/app/test-fib/main.c:334-343 | Route t of depth i in the table: its slot, whether a number was drawn for it, and its address from that number |
| `FibRoutes.FourRoutes` | dpdk/app/test-fib/main.c:334-343 | Four routes of depth 24: the second is 4194304 plus its draw modulo 4194304, moved up by 8 bits |
| `FibRoutes.GenRandomRt6` | dpdk/app/test-fib/main.c:361-390 | The same for IPv6, by the word a depth ends in; a route takes a number for that word if its cell leaves a choice, then one for each word in front |
| `FibRoutes.SourceAt6` | dpdk/app/test-fib/main.c:374-387 | Route t of depth 32 * a + i: word a from its draw, each word in front its own draw modulo 2^32, zeros behind |
| `FibRoutes.FourRoutes6` | dpdk/app/test-fib/main.c:374-387 | Four routes of depth 64: both words of the second from its two draws, the second word first |
| `FibRoutes.GenDepth6` | dpdk/app/test-fib/main.c:374-387 | Each route from the numbers drawn for it; zero host bits, zero words behind; the word tells the routes apart exactly if at most 2^i |
| `FibRoutes.CompleteV6Addr` | dpdk/app/test-fib/main.c:349-359 | The words drawn in front, then the given word, zeros behind |
| `FibRoutes.SlotsAreSum` | dpdk/app/test-fib/main.c:328-338 | The slots written are the sum of the counts exactly if depth 0 has at most one route |
| `FibRoutes.GenDefault4` | dpdk/app/test-fib/main.c:1282-1296 | By default the IPv4 table is filled exactly with canonical prefixes, each from the number drawn for it and distinct at every depth |
| `FibRoutes.GenUser4` | dpdk/app/test-fib/main.c:1282-1296 | Any distribution of the user for IPv4: with at most one route at depth 0 the routes fit the table of n exactly if the total asked for does not wrap, and fill it if the deepest depth is left free; of more routes at depth 0 all but one are lost |
| `FibRoutes.GenUser6` | dpdk/app/test-fib/main.c:1282-1300 | The same for IPv6 |
| `FibRoutes.TwoAtZero` | dpdk/app/test-fib/main.c:328-332 | Two routes asked for at depth 0 leave one of ten slots unwritten |
| `FibRoutes.WrapOverruns` | dpdk/app/test-fib/main.c:192-200 | A distribution whose total wraps passes and does not fit the table |
| `FibRoutes.SlotsLost` | dpdk/app/test-fib/main.c:328-338 | The slots written are the routes less all but one of those of depth 0 |
| `FibLookup.SetRndIpv6` | dpdk/app/test-fib/main.c:392-410 | For any depth the first depth bits are those of the route and the others those of the 16 numbers drawn |
| `FibLookup.MixBits` | dpdk/app/test-fib/main.c:400-406 | Bit by bit, what happens to the byte the prefix ends in |
| `FibLookup.MixedIsUnder` | dpdk/app/test-fib/main.c:399-409 | From bytes to the bits of the whole address |
| `FibLookup.PrefixKept` | dpdk/app/test-fib/main.c:428-429 | An IPv4 address agrees with its route on the prefix, whatever host bits the route has |
| `FibLookup.HostBitsKept` | dpdk/app/test-fib/main.c:428-429 | Its host bits are the random ones exactly if the route has none set |
| `FibLookup.HostMaskIsOnes` | dpdk/app/test-fib/main.c:429 | The mask has exactly the host bits set, for depths 0 to 32 |
| `FibLookup.Config.GenTable4` | dpdk/app/test-fib/main.c:421-430 | Every entry from the two numbers drawn for it: it is the second modulo 2^32 exactly if the first modulo 100 is below the ratio, else under route i mod nb_routes; the random ones are counted |
| `FibLookup.Config.GenTable6` | dpdk/app/test-fib/main.c:431-442 | The same for IPv6 with 17 numbers an entry |
| `FibBatches.Config.AddRoutes` | dpdk/app/test-fib/main.c:899-913 | The routes up to the first that is refused are added once in order; the result is an error exactly if one is refused; batches differ by at most one and none is empty |
| `FibBatches.Config.DeleteRoutes` | dpdk/app/test-fib/main.c:987-995 | Each route is deleted once in order, in the same batches |
| `FibBatches.NextBatch` | dpdk/app/test-fib/main.c:901 | The quotient of the rest keeps the batches even |
| `FibBatches.Config.SetRoutes` | dpdk/app/test-fib/main.c:716-717 | There are never more batches than routes |
| `FlowStreams.FlowPerf.InitLcoreInfo` | dpdk/app/test-flow-perf/main.c:1843-1925 | All streams fit the tables exactly if there are at most 64 for each worker. Then the first enabled core is in the statistics mode, every other one forwards exactly if its first slot is set and else is unused; the streams lie in the order of ports and queues in slots below the stream count, loads of forwarding cores differ by at most one, and every queue of every port is in exactly one entry, never of the statistics core |
| `FlowStreams.ThreeQueues` | dpdk/app/test-flow-perf/main.c:1843-1925 | Three queues on the cores 0, 2 and 3: modes, counts and entries of all cores |
| `FlowStreams.SlotsInOrder` | dpdk/app/test-flow-perf/main.c:1909-1925 | By the schedule streams on later cores and in later slots are later in the loops over ports and queues |
| `FlowStreams.ModeIs` | dpdk/app/test-flow-perf/main.c:1859-1918 | By the schedule the mode of a core follows from the enabled cores before it and its first slot |
| `FlowStreams.TooManyStreams` | dpdk/app/test-flow-perf/main.c:1908-1925 | One port with 100 queues on two cores does not fit |
| `FlowStreams.EveryStreamOnce` | dpdk/app/test-flow-perf/main.c:1909-1925 | By the schedule every port and queue has exactly one slot of one worker, never of the statistics core |
| `FlowStreams.FullShares` | dpdk/app/test-flow-perf/main.c:1888-1898 | A worker with any stream gets its full share; loads differ by at most one |
| `FlowStreams.AllShares` | dpdk/app/test-flow-perf/main.c:1882-1898 | The shares cover all streams, exactly so when there are more streams than workers |
| `FlowStreams.SharesUpTo` | dpdk/app/test-flow-perf/main.c:1882-1898 | The largest share is within a limit exactly if the streams are within it times the workers |
| `FlowStreams.OnePlace` | dpdk/app/test-flow-perf/main.c:1909-1925 | Each stream number belongs to one worker and slot |
| `FlowStreams.FlowPerf.SetShares` | dpdk/app/test-flow-perf/main.c:1882-1898 | streams_nb of every core |
| `FlowStreams.FlowPerf.Advance` | dpdk/app/test-flow-perf/main.c:1913-1918 | The next stream goes behind the last one or to the first slot of the next worker, which exists |
| `FlowStreams.FlowPerf.Assign` | dpdk/app/test-flow-perf/main.c:1908-1925 | The loops realise the schedule |
| `FlowStreams.FlowPerf.NextLcore` | dpdk/lib/eal/common/eal_common_lcore.c:92-109 | The next enabled core |
| `VersionMap.RoundTrip` | dpdk/devtools/update_version_map_abi.py:53-206 | Reading the written file gives back the EXPERIMENTAL and INTERNAL lines always, the stable lines exactly if there is a stable section or no such line, the section exactly if the major version is plain |
| `VersionMap.RewriteTwice` | dpdk/devtools/update_version_map_abi.py:169-206 | Rewriting twice equals rewriting once exactly if there is no stable section or the major version is plain |
| `VersionMap.RewriteMap` | dpdk/devtools/update_version_map_abi.py:169-206 | The whole script |
| `VersionMap.ParseMapFile` | dpdk/devtools/update_version_map_abi.py:17-108 | The line loop is the fold of the line rule |
| `VersionMap.ParserCollects` | dpdk/devtools/update_version_map_abi.py:63-106 | Whatever the file, collected lines are stripped and of the right kind |
| `VersionMap.AnySectionIsStable` | dpdk/devtools/update_version_map_abi.py:63-106 | A function line in a section of any name but the two is stable, whatever blanks are around it and the header |
| `VersionMap.NamedSection` | dpdk/devtools/update_version_map_abi.py:63-106 | In one of the two it is kept for that section |
| `VersionMap.ReadLayout` | dpdk/devtools/update_version_map_abi.py:193-206 | Reading any written layout |
| `VersionMap.ReadStable` | dpdk/devtools/update_version_map_abi.py:111-133 | Reading the stable section |
| `VersionMap.ReadSection` | dpdk/devtools/update_version_map_abi.py:135-163 | Reading a copied section |
| `VersionMap.LostLines` | dpdk/devtools/update_version_map_abi.py:192-206 | A file whose only stable line is outside a stable section loses it |
| `VersionMap.LostSection` | dpdk/devtools/update_version_map_abi.py:183-188 | A version in digits of another alphabet is accepted, and a file rewritten for it loses its stable section |
| `VersionMap.SortedUnique` | dpdk/devtools/update_version_map_abi.py:121-122 | There is one sorted order of a set of lines |
| `VersionMap.Sorted` | dpdk/devtools/update_version_map_abi.py:121-122 | The lines of the set, strictly ascending |
| `VersionMap.Out.GenerateStableAbi` | dpdk/devtools/update_version_map_abi.py:111-132 | The lines of the stable section |
| `VersionMap.Out.Generate` | dpdk/devtools/update_version_map_abi.py:193-206 | The sections and the blank lines between them |
| `VersionMap.AbiMajor` | dpdk/devtools/update_version_map_abi.py:183-188 | The part before the first dot of a version, if it begins with one or two decimal digits of any alphabet, a dot and a digit |
| `MapLines.FunctionLineExactly` | dpdk/devtools/update_version_map_abi.py:20-29 | Scanning finds a function line exactly if the expression matches |
| `MapLines.SectionBeginExactly` | dpdk/devtools/update_version_map_abi.py:32-37 | The same for a section begin, and the name it yields |
| `MapLines.SectionEndExactly` | dpdk/devtools/update_version_map_abi.py:41-48 | The same for a section end |
| `MapLines.FunctionLineIsNoOther` | dpdk/devtools/update_version_map_abi.py:63-106 | No function line is also a section line |
| `MapLines.HeaderIsBegin` | dpdk/devtools/update_version_map_abi.py:113 | A printed header is a section begin with that name |
| `MapLines.HeaderIsNothing` | dpdk/devtools/update_version_map_abi.py:113 | With a digit that is not plain it is no known line |
| `MapLines.StripTab` | dpdk/devtools/update_version_map_abi.py:122-163 | A printed line is read back as it was |
| `MapLines.StripExactly` | dpdk/devtools/update_version_map_abi.py:65 | Stripping removes exactly the white space at both ends |
| `LogRange.Logger.LogRange` | buster/utils.c:20-139 | The exact error for every bad call, written over message, start and limit, and a dump of the range for every other; the id advances only then |
| `LogRange.Lossless` | buster/utils.c:57-137 | Expanding the printed lines gives the words of the range in order |
| `LogRange.LastOffsetWrong` | buster/utils.c:123-128 | The offset on the last run line is never the position of its run, and by how much it is off |
| `LogRange.Logger.PrintRuns` | buster/utils.c:81-121 | Run lines before the last: in place, adjacent ones differ, blocks in order |
| `LogRange.PendingPrint` | buster/utils.c:102-120 | A printed run keeps the loop invariant |
| `LogRange.PendingRepeat` | buster/utils.c:90-100 | A repeated block keeps the loop invariant |
| `LogRange.Logger.CheckMsg` | buster/utils.c:33-45 | Special characters among the first 64 come before length |
| `LogRange.Logger.PrintWords` | buster/utils.c:130-135 | Single words with their positions |
| `LogRange.Logger.SameBlock` | buster/utils.c:90-96 | Whether a block repeats the one before |

## Left out

- CompVerify.VerifyCtx.Run: gives no value for a compress-and-decompress run in which compression ended with a bad status, because the source then decompresses chains that were never finished.
- CompVerify.VerifyTest: inputs of 4 GiB and more, for which `remaining_data` in prepare_bufs wraps, and failing memory allocations are not modelled.
- CompCommon.FindBufSize: the ratio 1.1 is 11/10 exactly; rounding of the single-precision product is not modelled.
- CompCommon.MemResources.PrepareBufs: `buffer_info`, which only the report uses, is not modelled; a memzone is its index and length.
- CompRunner.Run: gives no value either for a run whose verification has ended the compression with a bad status. The averages of cycles and their operands are not modelled.
- CompRunner.DecompressOnlyTest: says nothing about the measurement after a verification that ended with a bad status, which leaves ops in the device.
- CompBurst.Burst.Dequeue: `deq_ops` is an array of its own here, not the second half of one allocation.
- CryptoLatency.LatencyTest.RunBurstSize: the op status stored with a result and the wrap of 64-bit sums of durations are not modelled.
- CryptoThroughput.ThroughputTest.Drain: the enqueue calls with no ops that the draining loop makes, and the warm-up before a run, are not modelled; the latency test leaves them out alike.
- CryptoCyclecount.CyclecountTest.BenchBurstSz: the counters of retries and the wrap of `cur_op` for total_ops within nb_descriptors of 2^32 are not modelled.
- DigestPlacement.PlaceDigest: sizes are unbounded; the narrowing of the number of segments and of data_len to 16 bits and of the object size to 32 bits is not modelled.
- FibBatches.Config.AddRoutes: whether a route is refused depends on its place in the table only.
- FibDistrib.Config.CompleteDistrib: takes the parsed ratios and counts; the text of the option and the checks of parse_distrib on single ratios are not modelled.
- FibRoutes.GenRandomRt4: where the source would write behind the table the model stops, before the depth whose routes do not fit; the step and the edges are exact rationals, not doubles; next hops, the numbers drawn for them and shuffling are left out.
- FlowStreams.FlowPerf.InitLcoreInfo: where the source would write behind a core's table the model stops; the 32-bit width of the number of streams is not modelled.
- VersionMap.RewriteMap: a file is a sequence of lines free of line ends; the digits are those of Unicode 14.0; the file-name check is left out.
- LogRange.Logger.LogRange: hexadecimal formatting, the width of counts and offsets, and address arithmetic near 2^64 are not modelled.
- Exits by abort, force-stop and failing allocation: the state of pools after them.
- `cperf_test_verify.c`, test vectors, mbuf addresses, `fill_multi_seg_mbuf` and `cperf_mbuf_set`: data tables and pointer arithmetic.
- Timing, cycle counts, doubles in reports, printing and command-line parsing.
- `proc-info`, `dumpcap`, `pdump`, `test-pipeline`, `test-bbdev`, `buster/main.c` and the sysfs and git scripts: wrappers over code that is not shown, with little to prove.
