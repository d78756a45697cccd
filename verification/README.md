# Packet forwarding core: models and proofs

This project models, in Dafny 4.11, the parts of the packet forwarder that its
correctness rests on, and proves what they promise:

- the bounded multi-producer multi-consumer queue, at the granularity of single atomic
  accesses (`MpmcModel`, `MpmcTheorems`, `MpmcCalls`), with 64-bit counters that wrap
  around (`MpmcWrapped`), the same queue as an object (`MpmcQueue`), and the credit
  protocol that two such queues form around one draining thread (`CreditProtocol`,
  `CreditDelivery`, `TransitPool`);
- the two slab buffer pools: one pool shared by many caches with reserved slabs
  (`SharedPool`, `SharedPoolObjects`), and one cache per pool with separate receiving and
  transmitting halves and no reserve (`PortPool`, `PortPoolObjects`), also when the halves
  give back each other's buffers (`MixedHalves`);
- the single-producer single-consumer ring with free-running 32-bit indices, as a step
  system (`SpscModel`, `SpscTheorems`, `SpscCalls`) and as an object with its unrolled
  copies (`RingBuffer`), and the wiring of rings to threads (`VethAssignment`);
- the Internet checksum in its fast and its simple form (`InternetChecksum`) and the
  routines that store it (`HeaderChecksums`; RFC 1071 sections 1, 2 and 4.1, RFC 768,
  RFC 9293 section 3.1);
- GRE-in-UDP encapsulation in place (`Encapsulation`, `PacketProcessing`; RFC 8086
  section 3);
- the byte-array map behind the address tables (`MgMap`, `MgMapObject`).

`Bits` and `SlabMemory` hold the arithmetic and the counting that several models share.
`dafny verify dfyconfig.toml` checks everything.

## How the models are made

**Concurrency.** Every access to shared memory is one step of one thread; a schedule is
any sequence of (thread, choice) pairs, so a statement about all schedules covers every
interleaving of any number of threads. Accesses are taken as sequentially consistent. A
weak compare-and-swap may fail spuriously whenever the schedule says so. In the queue the
counters of `MpmcModel` are natural numbers; `MpmcWrapped` runs the same steps on words
of 64 bits, with the code's signed differences and its compare-and-swap of words, and
shows that they are the model's for every schedule in which no thread makes an access
while it lags by almost 2^63 (`RunSimulates`). In the ring the indices are the code's
own, modulo 2^32.

**Pools.** Each cache operation is one step: its local part is private to its thread and
its trade happens under the pool's lock. In the first pool this is an assumption, since
there a receiving and a transmitting thread can both give buffers back to the cache of
one port. The kernel is an environment that hands addresses from the fill ring to the
receive ring and from the transmit ring to the completion ring without inventing or
doubling any: it appears as the addresses that a half has taken and not yet given back.

**History.** Fields that record the past (`log`, `phase`, `events`, `hands`, `loans`,
`retired`, unwrapped indices) are read by no step and appear only in statements.

**Machine.** Little-endian words; 32-bit sums with wrap-around in the fast checksum,
64-bit sums in the simple one, 32-bit keys in the map. `memcpy` between overlapping parts
of one packet buffer is taken as a move. Lookups in the address and route tables are a
finite map; where one finds nothing the code goes on through a null pointer, and the model
ends with the outcome `NullPointer`. The two bytes of the outer UDP source port are a
parameter.

## Where the code and its comments part

- *Give-backs can fail.* A push that returns a token to a transit queue can return 0
  although every token is accounted for: a receiver that has claimed a token but not yet
  released its cell is enough. The code prints a message and the token is gone
  (`GiveBackFailsIff`, `GiveBackCanFail`). The data queue still never overflows. What is
  given back is moreover the packet's address, not the token that was taken
  (`AddressesGivenBack`).
- *Small pools.* The four-slab `bcache_init` only looks whether the pool is empty. Over the
  entries it reads, in 64-bit arithmetic, it stays inside its array exactly for empty
  pools and for four slabs or more (`CanInitIff`); with three its fourth read is at
  2^64 - 1 (`ThreeSlabs`).
- *Separate halves.* The comment in `bcache_prod` says that an empty slab is guaranteed. In
  the second pool that is so in every run in which each half gives back what it took
  itself (`EveryTradeBelowStale`). When a half may give back anything, the slabs in use
  stay different exactly as long as every producer slab is traded below the four stale
  entries (`AlwaysDifferentIff`); a single such give-back after a disciplined run does harm
  exactly when the producer slab is full and no entry is left below them
  (`CrossGiveAliasesIff`), and `CrossFreeAliases` is a run in which it does.
- *Large requests.* A check for more buffers than a slab holds can promise more than it
  delivers; the exact condition is in both `LicenceHolds`, and in each pool a state that
  can be reached does so (both `OverPromise`).
- *Ring sizes.* `ringbuf_get_memsize` accepts 0 as well, and nothing above 2^27
  (`AcceptedSizes`).
- *Dequeue.* The comment says a request for more than there is dequeues what there is;
  the code returns -ENOENT and dequeues nothing (`DequeueFailsIff`).
- *Outer lengths.* `process_rx_packet` takes the inner length for the UDP header after it
  has overwritten it, because both header pointers point to the same bytes: the outer UDP
  length is 52 and the outer IP length 26 above the inner IP length, where RFC 8086 wants
  26 and 46; the outer UDP checksum is never written (`OuterLengths`, `OuterHeaders`).
- *Refused frames.* A frame that is not IPv4 or too short is shifted all the same, and
  the result keeps the length of the packet before (`ProcessRxPacket`).
- *Unknown destinations.* No lookup of `process_rx_packet` is checked, so a destination
  missing from the tables leads through a null pointer, after the frame has been shifted
  and given its source address (`FromVeth`) or untouched (`FromNic`).
- *Unnamed veths.* A veth whose name is not one of `crout12` to `crout19` leaves stale
  bytes in the field that tells the receiver where the frame came from (`Journey`).

## Model

| member | source | states |
|---|---|---|
| MpmcModel.InitInv | corundum-xdp/mpmc_queue.c:37-56 | the initialised queue satisfies the invariant that links counters, cell sequences and thread positions |
| MpmcModel.StepKeeps | corundum-xdp/mpmc_queue.c:74-129 | every access of every thread keeps that invariant |
| MpmcModel.RunKeeps | corundum-xdp/mpmc_queue.c:74-129 | so it holds after every schedule |
| MpmcTheorems.WindowAlways | corundum-xdp/mpmc_queue.c:74-129 | head <= tail <= head + size in every run |
| MpmcTheorems.FifoByPosition | corundum-xdp/mpmc_queue.c:74-129 | in every interleaving a pull returns the value pushed at its position, no position is filled or returned twice, and positions grow along each thread |
| MpmcTheorems.ProducerOrder | corundum-xdp/mpmc_queue.c:74-129 | items of one producer reach one consumer in the order they were pushed |
| MpmcTheorems.ReadsOnlyPublished | corundum-xdp/mpmc_queue.c:96-97 | a pull about to read finds the published item of its position in the cell |
| MpmcTheorems.ExclusiveCells | corundum-xdp/mpmc_queue.c:87-97 | between its compare-and-swap and its sequence store a thread has its cell to itself |
| MpmcTheorems.PushFailsIff | corundum-xdp/mpmc_queue.c:81-94 | push returns 0 exactly when its position is the tail and the item one turn earlier has not been released; also when it tries its compare-and-swap and when it reloads |
| MpmcTheorems.PullFailsIff | corundum-xdp/mpmc_queue.c:109-123 | the dual for pull |
| MpmcTheorems.RetryAdvances | corundum-xdp/mpmc_queue.c:81-94 | a thread whose position another one claimed gets, by one access at its compare-and-swap and by two at its sequence load, to the value the counter has at that moment, with its own value and whatever the others do in between |
| MpmcTheorems.CurrentClaims | corundum-xdp/mpmc_queue.c:86-89 | a thread whose position is current claims it by its compare-and-swap unless that fails spuriously, and then tries the same position |
| MpmcTheorems.OwnersFinish | corundum-xdp/mpmc_queue.c:96-99 | a thread that has claimed a position returns by two more accesses, whatever the others do, with the item of its position stored or read |
| MpmcTheorems.NothingLost | corundum-xdp/mpmc_queue.c:102-129 | every position below the head has been returned or is being read |
| MpmcTheorems.FifoForOneConsumer | corundum-xdp/mpmc_queue.c:74-129 | one consumer receives a prefix of the pushed values, in order |
| MpmcTheorems.AvailableInRange | corundum-xdp/mpmc_queue.c:63-72 | for the only consumer the difference of the two separate loads is within 0 and the size, in either order and whatever happens between them |
| MpmcTheorems.ReleasedBelowFloor | corundum-xdp/mpmc_queue.c:125-126 | with one consumer cells are released in order |
| MpmcTheorems.AlonePushFailsIff | corundum-xdp/mpmc_queue.c:81-94 | without overlap a push gives up exactly when the queue is full |
| MpmcTheorems.AlonePullFailsIff | corundum-xdp/mpmc_queue.c:109-123 | without overlap a pull gives up exactly when the queue is empty |
| MpmcTheorems.SoloPush | corundum-xdp/mpmc_queue.c:74-100 | a push run alone with any number of spurious failures appends its value or fails on a full queue |
| MpmcTheorems.SoloPull | corundum-xdp/mpmc_queue.c:102-129 | a pull run alone removes the oldest value or fails on an empty queue |
| MpmcCalls.EveryCallAnswered | corundum-xdp/mpmc_queue.c:74-129 | in every interleaving the outcomes of a thread are those of its calls, one for one and in order: a push stores the value it was called with or fails, a pull returns one or fails, and a busy thread serves its last call |
| MpmcTheorems.SignedDifference | corundum-xdp/mpmc_queue.c:84 | the signed 64-bit difference of wrapped counters is their true difference below a lag of 2^63 |
| MpmcWrapped.CasSimulates | corundum-xdp/mpmc_queue.c:85-89 | the compare-and-swap of wrapped words succeeds, fails and leaves its word just as that of the counters would |
| MpmcWrapped.StepSimulates | corundum-xdp/mpmc_queue.c:74-129 | on wrapped words every access, with its signed difference and masked index, does what the model does on counters, as long as its thread does not lag by almost 2^63 |
| MpmcWrapped.RunSimulates | corundum-xdp/mpmc_queue.c:74-129 | so in every schedule of such accesses the words are the counters cut to 64 bits |
| MpmcWrapped.InitWords | corundum-xdp/mpmc_queue.c:49-53 | the simulation starts from the words of the new queue |
| Bits.PowerOfTwoTest | corundum-xdp/mpmc_queue.c:40 | size & (size - 1) is 0 exactly for powers of two |
| Bits.MaskBySize | corundum-xdp/mpmc_queue.c:82 | masking by size - 1 is the remainder |
| MpmcQueue.Queue.constructor | corundum-xdp/mpmc_queue.c:43-55 | a new queue is empty |
| MpmcQueue.Queue.Make | corundum-xdp/mpmc_queue.c:37-56 | -1 exactly for sizes that are not powers of two from 2 on, -2 without memory, else an empty queue |
| MpmcQueue.Queue.Available | corundum-xdp/mpmc_queue.c:68-72 | at rest it is the number of items |
| MpmcQueue.Queue.Push | corundum-xdp/mpmc_queue.c:74-100 | the loop appends unless the queue is full, and is a run of the step system |
| MpmcQueue.Queue.Pull | corundum-xdp/mpmc_queue.c:102-129 | the loop removes the oldest item unless the queue is empty, and is a run of the step system |
| MpmcQueue.Queue.PushMany | corundum-xdp/mpmc_queue.c:131-143 | stores the longest prefix that fits and says how long it is |
| MpmcQueue.Queue.PullMany | corundum-xdp/mpmc_queue.c:145-157 | takes the oldest items until the count or an empty queue |
| TransitPool.Pool.constructor | docker-v6-multi-pool/mempool.h:592-624 | a new transit pool holds the 4096 buffer addresses, one frame apart |
| TransitPool.Pool.Get | docker-v6-multi-pool/mempool.h:581-590 | hands out the last address left |
| TransitPool.FillTransitQueue | docker-v6-multi-pool/sw_corundum_main.c:456-476 | at start-up every push into a transit queue succeeds and leaves it with all 4096 addresses, the highest first |
| CreditProtocol.HolderFindsRoom | docker-v6-multi-pool/thread_functions.h:374-387 | the holder of a token always finds room in the data queue |
| CreditProtocol.DataQueueNeverFull | docker-v6-multi-pool/thread_functions.h:371-388 | in every interleaving of any number of receivers and one drainer, tokens are conserved and no push into the data queue returns 0, even when tokens get lost |
| CreditProtocol.GiveBackFailsIff | docker-v6-multi-pool/thread_functions.h:751-757 | a give-back fails exactly when a receiver has not yet released the transit cell that comes next |
| CreditProtocol.GiveBackCanFail | docker-v6-multi-pool/thread_functions.h:751-757 | a run in which it does |
| CreditProtocol.InitialFill | docker-v6-multi-pool/sw_corundum_main.c:461-476 | some run of one thread fills a fresh queue with the given tokens and leaves it quiet |
| CreditProtocol.PerformKeeps | docker-v6-multi-pool/thread_functions.h:800-850 | the balance of items, tokens and carried packets holds after every run |
| CreditDelivery.EveryPacketQueued | docker-v6-multi-pool/thread_functions.h:374-387 | in every interleaving each packet a receiver sets out to place is queued exactly once and in its order |
| CreditDelivery.EveryPacketHandedOn | docker-v6-multi-pool/thread_functions.h:818-845 | each packet pulled is handed on exactly once and in order or still in hand, and what is pulled is the oldest of what was queued |
| CreditDelivery.AddressesGivenBack | docker-v6-multi-pool/thread_functions.h:740-757 | the transit queue is given the addresses of the packets handed on, in order and nothing else; as many are missing as tokens were lost |
| CreditDelivery.BurstBound | docker-v6-multi-pool/thread_functions.h:807-818 | the drainer never has more than 20 packets in hand |
| SharedPool.OpenKeeps | corundum-xdp/sw_corundum.c:179-206 | opening a cache stays in its arrays and keeps slabs and addresses conserved |
| SharedPool.CheckKeeps | corundum-xdp/sw_corundum.c:123-169 | so does a check with its trade of consumer slabs |
| SharedPool.TakeKeeps | corundum-xdp/sw_corundum.c:208-218 | so does a take |
| SharedPool.GiveKeeps | corundum-xdp/sw_corundum.c:220-261 | so does giving back, with its trade of producer slabs |
| SharedPool.CloseKeeps | corundum-xdp/sw_corundum.c:77-97 | so does closing a cache |
| SharedPool.EmptySlabLeft | corundum-xdp/sw_corundum.c:242-258 | a full producer slab and an address in some client's hands imply that not every slab of the pool is full |
| SharedPool.Conservation | corundum-xdp/sw_corundum.c:123-261 | in every run with any number of caches each frame address is in exactly one place, slab pointers are the original ones, and no allowed operation leaves its arrays |
| SharedPool.AlwaysAnEmptySlab | corundum-xdp/sw_corundum.c:242-248 | the claim of the comment, in every run |
| SharedPool.LicenceExact | corundum-xdp/sw_corundum.c:123-169 | a check leaves a cache without buffers only if it and the pool had none; it returns as much of the request as the cache then has, or all of a larger request that fetched a slab |
| SharedPool.TakesSucceed | corundum-xdp/sw_corundum.c:208-218 | no take underflows its counter as long as there are no more of them than buffers, whatever is given back in between and whatever other caches do |
| SharedPool.LicenceHolds | corundum-xdp/sw_corundum.c:123-169 | what a check returns licenses that many takes exactly under the stated condition, whatever is given back in between and whatever other caches do |
| SharedPool.OverPromise | corundum-xdp/sw_corundum.c:123-169 | a cache just opened over slabs of one buffer promises five and has one |
| SharedPool.FreshInv | corundum-xdp/sw_corundum.c:438-452 | the new pool has every address in one full slab |
| SharedPoolObjects.BPool.constructor | corundum-xdp/sw_corundum.c:438-452 | the set-up loops build the fresh pool |
| SharedPoolObjects.BPool.TakeFull | corundum-xdp/sw_corundum.c:158-161 | the locked trade of a consumer slab |
| SharedPoolObjects.BPool.PutFull | corundum-xdp/sw_corundum.c:250-253 | the locked trade of a producer slab |
| SharedPoolObjects.BPool.PutReserved | corundum-xdp/sw_corundum.c:91-93 | both slabs of a closed cache go back to the reserve |
| SharedPoolObjects.BCache.Init | corundum-xdp/sw_corundum.c:179-206 | null exactly when the reserve is empty, else an open cache with the two slabs on top of it; the pool is as the model says |
| SharedPoolObjects.BCache.ConsCheck | corundum-xdp/sw_corundum.c:123-169 | result and new state are those of the model; the result in terms of the buffers before and after |
| SharedPoolObjects.BCache.Cons | corundum-xdp/sw_corundum.c:208-218 | result and new state are those of the model |
| SharedPoolObjects.BCache.Prod | corundum-xdp/sw_corundum.c:220-261 | the new state is that of the model; no access leaves an array |
| SharedPoolObjects.BCache.Free | corundum-xdp/sw_corundum.c:77-97 | the new state is that of the model: both slabs are on top of the reserve |
| PortPool.TradeBelowStale | docker-v6-multi-pool/mempool.h:235-254 | a half that trades a full producer slab while it holds something has a loan, so the trade is below the stale entries |
| PortPool.CheckKeeps | docker-v6-multi-pool/mempool.h:48-142 | checks of both halves keep the invariant |
| PortPool.TakeKeeps | docker-v6-multi-pool/mempool.h:192-214 | takes of both halves keep it |
| PortPool.GiveKeeps | docker-v6-multi-pool/mempool.h:216-300 | giving back what the half took keeps it and never trades a stale entry |
| PortPool.InitInv | docker-v6-multi-pool/mempool.h:167-187 | the new cache satisfies it, with its own four slabs listed above the available ones |
| PortPool.CanInitIff | docker-v6-multi-pool/mempool.h:167-187 | bcache_init reads inside the slab list exactly for empty pools and for four slabs or more |
| PortPool.ThreeSlabs | docker-v6-multi-pool/mempool.h:178-181 | with three slabs its fourth read is at 2^64 - 1 |
| PortPool.NeverAliases | docker-v6-multi-pool/mempool.h:176-186 | in every run of both halves the stale entries stay where they are, all slabs in use are different and original, and each address is in one place |
| PortPool.EveryTradeBelowStale | docker-v6-multi-pool/mempool.h:245-297 | every producer trade of every run is strictly below the stale entries, and every operation does what a shared pool with two caches would |
| PortPool.TakesSucceed | docker-v6-multi-pool/mempool.h:192-214 | no take underflows its counter as long as there are no more of them than buffers, whatever is given back and whatever the other half does |
| PortPool.LicenceExact | docker-v6-multi-pool/mempool.h:48-142 | a check leaves a half without buffers only if it and the pool had none; it returns as much of the request as the half then has, or all of a larger request that fetched a slab |
| PortPool.LicenceHolds | docker-v6-multi-pool/mempool.h:43-142 | what a check returns licenses that many takes, under the exact condition on the request |
| PortPool.OverPromise | docker-v6-multi-pool/mempool.h:48-94 | a half that has used up its slab of one buffer promises two and gets one |
| PortPool.StockFree | docker-v6-multi-pool/mempool.h:192-214 | what a half can still take consists of different frames that neither half holds |
| PortPool.TakeStock | docker-v6-multi-pool/mempool.h:192-214 | a take removes the last of them |
| PortPool.GiveStock | docker-v6-multi-pool/mempool.h:216-300 | giving back leaves them as they are |
| PortPool.TakeOwned | docker-v6-multi-pool/mempool.h:192-214 | every take yields a frame that nobody holds, and that its half then holds once |
| PortPool.CrossFreeAliases | docker-v6-multi-pool/mempool.h:288-297 | an instance: giving back through the other half hands out a slab twice |
| MixedHalves.GiveAliasesIff | docker-v6-multi-pool/mempool.h:235-297 | giving anything back through any half keeps the slabs in use different exactly when the producer slab has room or an entry is left below the stale ones |
| MixedHalves.AlwaysDifferentIff | docker-v6-multi-pool/mempool.h:48-300 | in any run whatsoever they are different at every point exactly when every producer trade was below the stale entries |
| MixedHalves.CrossGiveAliasesIff | docker-v6-multi-pool/mempool.h:235-297 | the same condition for one give-back of any address through any half, after any run in which each half gave back what it took |
| PortPoolObjects.BPool.constructor | docker-v6-multi-pool/mempool.h:322-392 | the pool is cut into as many slabs as hold the requested buffers |
| PortPoolObjects.BPool.TakeFull | docker-v6-multi-pool/mempool.h:80-87 | the locked trade of a consumer slab |
| PortPoolObjects.BPool.PutFull | docker-v6-multi-pool/mempool.h:244-249 | the locked trade of a producer slab |
| PortPoolObjects.BCache.Create | docker-v6-multi-pool/mempool.h:152-190 | null exactly for an empty pool, else a cache with the four slabs on top, also of a pool that has given slabs away; on a fresh pool the new cache of the model |
| PortPoolObjects.BCache.ConsCheck | docker-v6-multi-pool/mempool.h:48-94 | result and new state are those of the model; the result is as much of the request as the half has afterwards, which is nothing only if slab and pool were empty |
| PortPoolObjects.BCache.ConsTxCheck | docker-v6-multi-pool/mempool.h:96-142 | the same for the transmitting half |
| PortPoolObjects.BCache.Cons | docker-v6-multi-pool/mempool.h:192-202 | result and new state are those of the model; the result is the last of what the half could take |
| PortPoolObjects.BCache.ConsTx | docker-v6-multi-pool/mempool.h:204-214 | the same for the transmitting half |
| PortPoolObjects.BCache.Prod | docker-v6-multi-pool/mempool.h:216-257 | the new state is that of the model; no access leaves an array |
| PortPoolObjects.BCache.ProdTx | docker-v6-multi-pool/mempool.h:259-300 | the same for the transmitting half |
| PortPoolObjects.BCache.Refill | docker-v6-multi-pool/thread_functions.h:432-434 | the addresses filled in are what the half could take, from its end, in this order |
| PortPoolObjects.BCache.Send | docker-v6-multi-pool/thread_functions.h:740-749 | the same for the transmitting half |
| PortPoolObjects.BCache.RxBurst | docker-v6-multi-pool/thread_functions.h:330-438 | as many fresh buffers as the least of 20, the frames received and the buffers there are, all different frames that neither half held; all frames but the lost ones are given back |
| PortPoolObjects.BCache.TxBurst | docker-v6-multi-pool/thread_functions.h:807-848 | as many packets as the least of 20, those waiting and the buffers there are, in different frames that neither half held; completed buffers are given back only when something is sent |
| PortPoolObjects.ReturnedCount | docker-v6-multi-pool/thread_functions.h:367-405 | an address is given back as often as a frame with it was received and not lost |
| SpscModel.WrapDifference | opera-v4-debug/ringbuffer.h:227-231 | a difference of wrapped 32-bit indices is exact |
| SpscModel.WrapThenMask | opera-v4-debug/ringbuffer.h:152 | wrapping at 2^32 and masking is the remainder by the ring size |
| SpscModel.FreeIsExact | opera-v4-debug/ringbuffer.h:226-231 | free_entries is the mask minus the occupancy the producer sees |
| SpscModel.FullIsExact | opera-v4-debug/ringbuffer.h:334-338 | ringbuf_is_full holds exactly at size - 1 |
| SpscModel.EmptyIsExact | opera-v4-debug/ringbuffer.h:348-352 | ringbuf_is_empty holds exactly when nothing is published |
| SpscModel.NeverOverQuota | opera-v4-debug/ringbuffer.h:246-247 | an accepted enqueue never reports -EDQUOT with the watermark of ringbuf_init |
| SpscModel.QuotaIff | opera-v4-debug/ringbuffer.h:246-247 | with any watermark the quota is reported exactly when occupancy, the slot that stays empty and the new objects exceed it |
| SpscModel.RunKeeps | opera-v4-debug/ringbuffer.h:221-289 | the ring's invariant holds after every interleaving |
| SpscTheorems.IndexOrder | opera-v4-debug/ringbuffer.h:221-289 | the unwrapped indices stay ordered and within one ring across any number of wraps, and at most size - 1 objects are held |
| SpscTheorems.StreamIsPrefix | opera-v4-debug/ringbuffer.h:221-289 | what was dequeued is a prefix of what was enqueued |
| SpscTheorems.NoSlotConflict | opera-v4-debug/ringbuffer.h:240-244 | the producer writes inside the ring and no slot that the consumer may still read |
| SpscTheorems.EnqueueFailsIff | opera-v4-debug/ringbuffer.h:233-235 | -ENOBUFS exactly without room, changing nothing; never after a check that found room |
| SpscTheorems.DequeueFailsIff | opera-v4-debug/ringbuffer.h:275-278 | -ENOENT exactly without enough entries, changing nothing; never after a check that found one |
| SpscTheorems.IgnoredResultsAreFine | opera-v4-debug/no_desc_buf.c:1806-1808 | in no run does a call after its check fail, as the callers assume |
| SpscTheorems.FullAndEmpty | opera-v4-debug/ringbuffer.h:334-352 | full means size - 1 objects, empty means none |
| SpscTheorems.SoloEnqueue | opera-v4-debug/ringbuffer.h:221-248 | an undisturbed enqueue adds exactly its objects and returns 0 |
| SpscTheorems.SoloDequeue | opera-v4-debug/ringbuffer.h:265-289 | an undisturbed dequeue removes exactly the oldest objects |
| SpscCalls.CheckedEnqueueFinishes | opera-v4-debug/no_desc_buf.c:1806-1808 | a check that finds room and the enqueue behind it, whose result is ignored, add exactly the object checked for, whatever the consumer does in between |
| SpscCalls.CheckedDequeueFinishes | opera-v4-debug/no_desc_buf.c:1685-1688 | dually, exactly the oldest object is taken |
| SpscCalls.EnqueueFinishes | opera-v4-debug/ringbuffer.h:221-248 | an enqueue that finds room returns after n + 3 accesses with exactly its objects added, in any interleaving |
| SpscCalls.DequeueFinishes | opera-v4-debug/ringbuffer.h:265-289 | a dequeue that finds enough entries returns after n + 3 accesses with exactly the n oldest, in any interleaving |
| SpscCalls.CheckFindsFullIff | opera-v4-debug/ringbuffer.h:334-338 | the check gives up exactly at size - 1 objects, and then nothing has changed |
| SpscCalls.CheckFindsEmptyIff | opera-v4-debug/ringbuffer.h:348-352 | the check gives up exactly on an empty ring, and then nothing has changed |
| SpscCalls.EveryCallAnswered | opera-v4-debug/ringbuffer.h:221-289 | in every run the outcomes of each thread are those of its calls, in order; what was enqueued is what the accepted calls were given, and as many were dequeued as the accepted calls asked for |
| RingBuffer.AcceptedSizes | opera-v4-debug/ringbuffer.h:72-78 | accepted counts are 0 and the powers of two up to 2^27 |
| RingBuffer.MaskThree | opera-v4-debug/ringbuffer.h:154-160 | n & ~3 and n & 3 split n for the unrolled loop |
| RingBuffer.CopiedAt | opera-v4-debug/ringbuffer.h:149-174 | the simple loop puts each object in its slot |
| RingBuffer.CopiedElsewhere | opera-v4-debug/ringbuffer.h:149-174 | and touches no other slot |
| RingBuffer.FetchedCopied | opera-v4-debug/ringbuffer.h:149-205 | copying in and out again gives the objects back |
| RingBuffer.CopyStraight | opera-v4-debug/ringbuffer.h:153-167 | the unrolled copy with its fall-through tail equals the simple loop |
| RingBuffer.CopyAround | opera-v4-debug/ringbuffer.h:168-173 | so does the branch that wraps around |
| RingBuffer.EnqueuePtrs | opera-v4-debug/ringbuffer.h:149-174 | the whole macro equals the simple loop and stays inside both arrays |
| RingBuffer.FetchStraight | opera-v4-debug/ringbuffer.h:184-198 | the unrolled copy out equals the simple loop |
| RingBuffer.FetchAround | opera-v4-debug/ringbuffer.h:199-204 | so does its branch that wraps around |
| RingBuffer.DequeuePtrs | opera-v4-debug/ringbuffer.h:180-205 | the whole macro fills exactly the first n entries of the table |
| RingBuffer.Ring.constructor | opera-v4-debug/ringbuffer.h:98-106 | the fields for any count; with a ring size a new ring is empty |
| RingBuffer.HoldsMore | opera-v4-debug/ringbuffer.h:237-247 | copying in and moving the index appends to the objects held, within the quota |
| RingBuffer.HoldsLess | opera-v4-debug/ringbuffer.h:280-286 | copying out and moving the index removes the oldest of them |
| RingBuffer.Ring.Full | opera-v4-debug/ringbuffer.h:334-338 | true exactly at size - 1 objects |
| RingBuffer.Ring.Empty | opera-v4-debug/ringbuffer.h:348-352 | true exactly for the empty ring |
| RingBuffer.Ring.Enqueue | opera-v4-debug/ringbuffer.h:221-248 | 0 and the objects appended when they fit, else -ENOBUFS and nothing changed |
| RingBuffer.Ring.Dequeue | opera-v4-debug/ringbuffer.h:265-289 | 0 and the oldest n objects, else -ENOENT and nothing changed |
| VethAssignment.Wire | opera-v4-debug/no_desc_buf.c:2459-2559 | each transmitting thread gets the rings of its block, each receiving thread those of its veth |
| VethAssignment.OneConsumer | opera-v4-debug/no_desc_buf.c:2459-2492 | each veth's rings are drained by exactly one thread, in exactly one place: quotient and remainder by the number of veths per thread |
| VethAssignment.BlockOf | opera-v4-debug/no_desc_buf.c:2459-2492 | the blocks cover every veth |
| VethAssignment.OneBlock | opera-v4-debug/no_desc_buf.c:2459-2492 | and are disjoint |
| VethAssignment.EvenBlocks | opera-v4-debug/no_desc_buf.c:2459 | no thread has more veths than their number divided by that of the threads, rounded up |
| VethAssignment.OnlyVeths | opera-v4-debug/no_desc_buf.c:2475-2483 | no block goes beyond the last veth |
| InternetChecksum.OnesSumAlike | corundum-xdp/sw_corundum.c:1100-1107 | the one's complement sum is congruent to the plain sum and zero only with it |
| InternetChecksum.Rfc1071Example | corundum-xdp/sw_corundum.c:1113-1174 | the example of RFC 1071, section 3, and an odd length |
| InternetChecksum.Swapped | corundum-xdp/sw_corundum.c:1170-1171 | the sum of byte-swapped words is the swapped sum |
| InternetChecksum.From32To16 | corundum-xdp/sw_corundum.c:1100-1107 | two folds bring any 32-bit sum to 16 bits without losing a carry |
| InternetChecksum.CarryAround | corundum-xdp/sw_corundum.c:1145-1154 | one round of the 32-bit loop loses no carry |
| InternetChecksum.SumWords | corundum-xdp/sw_corundum.c:1139-1156 | the loop and its fold keep the sum |
| InternetChecksum.DoCsum | corundum-xdp/sw_corundum.c:1113-1174 | the one's complement sum, whatever the alignment of the buffer |
| InternetChecksum.IpFastCsum | corundum-xdp/sw_corundum.c:1182-1185 | its complement, equal to what the simple form computes |
| HeaderChecksums.AddWords | docker-v6-multi-pool/calculate_checksum.h:6-13 | the sum of the padded words, with no overflow of 64 bits |
| HeaderChecksums.Fold | docker-v6-multi-pool/calculate_checksum.h:15-17 | the folding loop terminates with the one's complement sum |
| HeaderChecksums.ComputeChecksum | docker-v6-multi-pool/calculate_checksum.h:4-21 | the complement of the one's complement sum |
| HeaderChecksums.ComputeIpChecksum | docker-v6-multi-pool/calculate_checksum.h:23-26 | the header with the complement of its sum in the check field and nothing else changed; a header that covers the field then sums to 0xFFFF |
| HeaderChecksums.IpVerifies | docker-v6-multi-pool/calculate_checksum.h:23-26 | computing the checksum again gives 0 whenever the header covers the field, and the same value when it does not |
| HeaderChecksums.ComputeTcpChecksum | docker-v6-multi-pool/calculate_checksum.h:29-64 | the segment with the complement of the sum over source and destination address, protocol 6, length and segment in its check field; if the segment reaches the field these then sum to 0xFFFF |
| HeaderChecksums.ComputeUdpChecksum | docker-v6-multi-pool/calculate_checksum.h:67-107 | the same with protocol 17 and the length in the datagram, where 0 is stored as 0xFFFF |
| HeaderChecksums.SegmentVerifies | docker-v6-multi-pool/calculate_checksum.h:29-107 | pseudo header and segment sum to 0xFFFF for even and odd lengths that reach the field; what happens for shorter ones |
| Encapsulation.EncapsulatedFrame | corundum-xdp/sw_corundum.c:1356-1425 | the frame stands unchanged behind 46 bytes, with its destination and the veth's number where the others look for them |
| Encapsulation.VethNumbers | corundum-xdp/sw_corundum.c:1409-1425 | crout12 to crout19 have the numbers 0 to 7, and no other name has one |
| Encapsulation.OuterHeaders | corundum-xdp/sw_corundum.c:1375-1408 | the outer headers, byte for byte |
| Encapsulation.OuterLengths | corundum-xdp/sw_corundum.c:1393-1402 | the two outer lengths, and that neither is what the protocol asks for |
| Encapsulation.TransitTouches | corundum-xdp/sw_corundum.c:1464-1472 | a node on the way writes its two outer addresses and nothing else |
| Encapsulation.RoundTrip | corundum-xdp/sw_corundum.c:1340-1528 | encapsulation, any number of transit nodes and the cut-off give back the same bytes, length and sending veth |
| PacketProcessing.FromVeth | corundum-xdp/sw_corundum.c:1307-1430 | the frame's buffer and the result after a frame from a veth: accepted, refused, or with a destination that no table has |
| PacketProcessing.FromNic | corundum-xdp/sw_corundum.c:1431-1531 | the same for a frame from the network: passed on, delivered, or with an unknown destination |
| PacketProcessing.ProcessRxPacket | corundum-xdp/sw_corundum.c:1300-1534 | all branches; nothing outside the buffer changes |
| PacketProcessing.VethRefused | corundum-xdp/sw_corundum.c:1362-1373 | a frame that is not IPv4 or shorter than 34 bytes is shifted, and the result stays that of the packet before |
| PacketProcessing.VethUnknown | corundum-xdp/sw_corundum.c:1375-1380 | a destination missing from the tables: the frame is shifted and has its source address when the null pointer is followed |
| PacketProcessing.NicUnknown | corundum-xdp/sw_corundum.c:1460-1467 | the same from the network, with nothing changed |
| PacketProcessing.Departure | corundum-xdp/sw_corundum.c:1307-1430 | an accepted frame is to be sent with 46 bytes more by the thread of its destination: the outer headers field by field, the veth's number, and the frame behind them |
| PacketProcessing.PassedOn | corundum-xdp/sw_corundum.c:1460-1492 | at a node that is not its destination it is to be sent back out, addressed to the next hop and from the node itself, with nothing else changed |
| PacketProcessing.Arrival | corundum-xdp/sw_corundum.c:1495-1529 | at its destination what stands behind 46 bytes is to be delivered, with its length and the number of the veth it came from |
| PacketProcessing.Journey | corundum-xdp/sw_corundum.c:1300-1534 | the three together: from a veth over any number of nodes to the node whose address is its destination, the results give back the same bytes, length and sending veth |
| MgMap.AddKeeps | corundum-xdp/map.c:68-99 | adding an absent key is a map update, in the first free node, or in an array doubled because there is none; no other node changes |
| MgMap.AddDistinctIff | corundum-xdp/map.c:68-99 | adding keeps the keys distinct exactly when the key is absent |
| MgMap.SetKeeps | corundum-xdp/map.c:101-116 | setting is a map update, in the key's own node if it has one |
| MgMap.DelKeeps | corundum-xdp/map.c:118-130 | deleting removes the key: its node becomes zeros, the others stay |
| MgMap.RefinesMap | corundum-xdp/map.c:68-130 | any run from a fresh map that adds only absent keys refines a finite map |
| MgMap.GetAfterRun | corundum-xdp/map.c:33-49 | a get after such a run returns what the finite map holds |
| MgMapObject.Map.Init | corundum-xdp/map.c:7-20 | the error codes, those for null pointers included, else a map of free nodes |
| MgMapObject.Map.Get | corundum-xdp/map.c:33-49 | where the bytes of the first node's value with the key are, or none |
| MgMapObject.Map.Add | corundum-xdp/map.c:68-99 | the error codes, those for null pointers included, else the byte array after adding |
| MgMapObject.Map.Double | corundum-xdp/map.c:86-92 | doubling keeps all nodes and appends free ones |
| MgMapObject.Map.Set | corundum-xdp/map.c:101-116 | the error codes, those for null pointers included, else the byte array after setting |
| MgMapObject.Map.Del | corundum-xdp/map.c:118-130 | the error codes, that for a null pointer included, else the byte array after deleting |

## Left out

- AF_XDP sockets, libxdp, poll, sendto and mmap: the kernel is the environment described above.
- BPF programs and packet parsing helpers: they only check that a header fits before it is read, and change nothing.
- Weak memory effects below the level of one atomic access: accesses are sequentially consistent.
- Memory allocators, hash functions, clocks, topology slots, statistics, CSV parsing, signals and CPU affinity: no statement above depends on what they compute; where they feed the modelled code (an address, a length, a schedule) the statements are for all inputs.
- Allocation failures other than that of the queue's buffer, null arguments other than the map's, and size_t overflow of sizes.
- The map's mg_map_cleanup and mg_map_getindex: the first hands the bytes back to the allocator, the second is not used by the other operations.
- The variants of the queue, the map, the ring and the thread functions in the other directories: copies of what is modelled here.
- The contents of packets while they wait in the queues of docker-v6-multi-pool: their copy is commented out there, so payload stability cannot be claimed.
- The outer UDP source port and the outer IP checksum, which is not recomputed.
- CreditProtocol.DataQueueNeverFull: when the drainer asks for more packets is left to the schedule, which covers its mpmc_queue_available test and the limits of its cache; the branches for queues that were never created are not modelled.
- TransitPool.FillTransitQueue: the start-up of one transit queue; the loop over all queues repeats it.
- SharedPoolObjects.BCache.Prod: takes the whole operation as one step, as said above.
- PortPoolObjects.BCache.Create: pools of one to three slabs, for which the code reads outside its list (`CanInitIff`), have no result.
- MpmcWrapped.RunSimulates: says nothing of schedules in which a thread makes an access after the tail has moved on by almost 2^63.
- HeaderChecksums.AddWords: the byte behind an odd length, which the code loads and masks away, is not read.
- PacketProcessing.ProcessRxPacket: a buffer holds at least 80 bytes and has room for the 46 that a frame from a veth gains; network frames for this node that are shorter than the 46 bytes to be cut off are excluded, since the code would copy a negative length; what follows an access through a null pointer is not modelled.
- PacketProcessing.Journey: that a frame to be passed on is sent is taken from the result; the receiving loop of corundum-xdp/sw_corundum.c:1832-1855 still leaves the sending to later.
- PortPoolObjects.BCache.TxBurst: the two transmitting loops, for NIC and veth ports, are the same on the pool and are modelled once; the wait for room in the kernel's rings is not modelled.
