# A verified model of the CAPIO Solarflare driver

This project models, in Dafny, the protocols of a kernel-bypass driver for the Solarflare SFC7120 and of the
F-Stack and pktgen code built on it, and proves what those protocols keep in every interleaving and every run.

The driver shares three rings with the NIC (events, receive descriptors, transmit descriptors) and hands them to user
space through CAPIO, a capability check around `mmap` and `ioctl`. The model follows that structure, one module per
component:

- `Ring`, `Descriptor`, `Octet`: ring arithmetic, the 64-bit descriptor word, and bytes
- `EventQueue`: the data event queue and `sfc7120_poll`
- `RxRing`, `RxBurst`, `RxStale`: receive ring with prefetching NIC; where every mbuf is during `eth_capio_rx`
- `TxRing`, `TxHarm`, `TxBehind`: transmit posting, completion reaping and the in-flight count; what a queue does whose
  bookkeeping is off
- `Kernel`: the kernel's own receive and transmit ioctls and the ring they prime
- `Session`: hand-over of the ring cursors between kernel and user library across sessions, over the code that moves them
- `Capio`, `CapioClient`: token, map and unmap protocol of the kernel, and the client's attach and teardown
- `McdiFrame`, `McdiPoll`, `McdiExec`: mailbox framing, the poll schedule, and whole exchanges with the controller
- `SysInit`: the start-up table of F-Stack's `mi_startup`
- `Latency`, `TxBudget`: pktgen's latency statistics and its shared transmit budget
- `Checksum`, `Echo`: Internet checksum (RFC 1071) and the in-place UDP echo
- `LcoreMask`: the hexadecimal core mask of F-Stack's configuration

Each protocol is a `State` with steps, an invariant, one lemma per step and a theorem over every finite sequence of
steps. The code that updates fields in place is a class whose methods are proved against those steps
(`Abs() == Apply(old(Abs()), step)`). NIC, management controller, mempool, the owners of received mbufs and other
threads are methods or steps that may do anything their side allows, between any two accesses of the driver. Histories (`written`, `posted`, `owners`,
`log`, `ran`) are fields of the model only.

`dafny verify dfyconfig.toml` checks everything.

## Where a promise needs a condition

Several promises hold of the code only under a condition. The model keeps the code, and states the exact condition:

- An mbuf is in one place only (`RxBurst.RunConservesIff`): as long as no `sfc7120_rx_release` happens while the slot
  past the window still holds an old mbuf. `RxStale.StaleMbufIsPosted` is a run from the primed ring that violates it.
  From the first moment at which every posted slot holds an mbuf it can no longer happen, nor in copy mode.
- A head release keeps descriptors and cookies matched (`RxRing.RepostMatchedIff`): iff the slot is the library's, or its
  cookie happens to name that very buffer.
- The event-queue ack reaches the NIC as the true count (`EventQueue.AckInv`): iff fewer than a ring of events was
  consumed since the last ack. `EventQueue.FullRingSticks` is the run that violates it; from then on the queue is dead
  (`EventQueue.StuckForEver`).
- The transmit bookkeeping (`TxRing`): a queue zeroed at creation is consistent iff the kernel hands over head 1; a
  statistics reset is harmless iff nothing is in flight and the head is 0; a packet is counted iff it is not sent as a
  linearised chain. `TxHarm.FreedBeforeCompletion` is a run with chains that frees an mbuf the NIC still owns, and
  `TxBehind.OneBehindForEver` says what a queue zeroed at head 0 does from then on.
- A receive ioctl delivers the frame of the event it consumed (`Kernel.RightFrameIff`): iff no receive event was consumed
  before without a delivery, by a failed copy or by a transmit ioctl. `Kernel.WrongFrame` is such a run; after a ring less
  one of them nothing arrives again (`Kernel.DeadForEver`).
- The event that a transmit ioctl takes for its completion is its own (`Kernel.MatchIff`): iff the descriptor it completes
  is not a whole number of laps older.
- Cursor hand-over (`Session.HandOver`): iff the side whose cursors are dropped moved by whole laps.
- Region flags (`Capio.CreateIsExact`, `Capio.ExactIff`): iff the region is still unmapped when the pager object is made;
  the check and the construction are not one critical section. `Capio.OverlappingMaps` shows the failure.
- A client whose attach is refused leaves the holder alone (`CapioClient.LoserLeavesTheHolderIff`): iff the stale token in
  its request is not the live one and its close is not the last.
- A request stays in the 256-byte mailbox (`McdiFrame.RequestFits`): iff framing is v1 or the payload has at most 248
  bytes, although 252 are accepted. Reading an answer stays inside (`McdiFrame.AnswerFits`, `McdiExec.Channel.Read`): iff
  framing is v1 or at most 248 bytes of it are wanted and there.
- An answer is taken as current (`McdiExec.TakenIffCongruent`): iff its request is a multiple of 16 away. An error
  answer is reported as success iff its code is 0 or it is too short to carry one (`McdiExec.TranslateIff`).
- Poll loops of driver and reference agree (`McdiPoll.LoopsAgree`): iff no sample falls exactly on the timeout.
- Linked initialisers all run (`SysInit.RunsExactly`, `SysInit.EarlyTableReplaces`): iff nothing was registered before
  `mi_startup`, or the early table holds them too.
- A delay in cycles is converted to its nanoseconds (`Latency.ConvertsIff`): iff it times 10^9 fits 64 bits; the
  percentiles are those of the delays under that condition. `Latency.LongDelayCountsAsShort` is a delay of 18.4 seconds
  that is reported as 2 us.
- The recorded minimum latency is the minimum (`Latency.MinimumIff`): iff no delay is 0 or the last one is.
- The list of cores is the whole mask (`LcoreMask.CoresSumToTheMask`): iff the mask is below two to `RTE_MAX_LCORE`, which
  it always is when that is a multiple of 4.
- A 32-bit sum folds to the right checksum (`Checksum.WrapMatters`): iff nothing wrapped, or a multiple of 65535 times.

## Where code and comments differ

The model follows the code.

- `sfc7120_mcdi.h:49` asks for request lengths that are multiples of 4; `sfc7120_mcdi.c:606-615` accepts any.
- `fstack-capio/rte_eth_capio.c:244-253` says that receiving copies and that `CAPIO_RX_ZC` turns zero-copy on; the
  code swaps mbufs unless `CAPIO_RX_COPY` is set.
- `bench/pktgen-modified/app/pktgen-port-cfg.h:195` speaks of 0.5 us buckets; the width used is 2000 ns.
- `userlib/sockperf_echo.c:1-10` promises to echo client requests only; without `SPF_STRICT` every UDP datagram is echoed.
- `fstack-capio/modified-sources/lib/ff_init_main.c:201` says bubble sort; the loops are an exchange sort.

## Model

| member | source | states |
|---|---|---|
| `Ring.MaskIsSlot` | userlib/sfc7120_user.c:605 | masking with a power of two less one is the slot of the position on the ring |
| `Ring.SlotDistinct` | userlib/sfc7120_user.c:599 | two positions fewer than a ring apart never share a slot |
| `Ring.SlotOfTruncated` | fstack-capio/rte_eth_capio.c:189-190 | the low 16 bits of a free-running count name the same slot as the count |
| `Descriptor.RoundTrip` | userlib/sfc7120_user.c:600-603 | the NIC reads back address and length iff they fit 48 and 14 bits |
| `EventQueue.TakeInv` | userlib/sfc7120_user.c:370-396 | reading a slot returns the oldest outstanding event or nothing, and keeps ring, pointer and histories consistent |
| `EventQueue.NicWriteInv` | userlib/sfc7120_user.c:372-374 | an event the NIC may write lands in an empty slot and disturbs none outstanding |
| `EventQueue.AckInv` | userlib/sfc7120_user.c:399-407 | the ack is the true count iff less than a ring was consumed since the last |
| `EventQueue.FullRingSticks` | userlib/sfc7120_user.c:399-407 | for every ring size: write, read and ack a whole ring, and the NIC still believes that nothing was consumed |
| `EventQueue.StuckForEver` | userlib/sfc7120_user.c:363-407 | in every run from there the NIC writes nothing, reads return nothing, and no ack changes that |
| `EventQueue.RunInv` | userlib/sfc7120_user.c:363-407 | the invariant holds in every interleaving of NIC writes, reads and acks |
| `EventQueue.EventsAreAPrefix` | userlib/sfc7120_user.c:342-410 | in every run the events handed over are a prefix of those written, and the pointer is their count on the ring |
| `EventQueue.DrainReturnsTheRest` | userlib/sfc7120_user.c:363-397 | from any reachable state, reading on returns exactly the rest, in order |
| `EventQueue.DataEvq.TakeSlot` | userlib/sfc7120_user.c:370-396 | in place: one read step at the reader's pointer; if that is the true one, empty iff nothing is outstanding |
| `EventQueue.DataEvq.Acknowledge` | userlib/sfc7120_user.c:402-407 | in place: the ack step and when it is exact |
| `EventQueue.DataEvq.Drain` | userlib/sfc7120_user.c:363-397 | the entries filled are the decoded events read and the pointer moves once for each; with the true pointer a short count means all written before the call were returned |
| `EventQueue.DataEvq.Poll` | userlib/sfc7120_user.c:342-410 | all of `sfc7120_poll`: argument errors change nothing, otherwise next events in order, decoded, one ack |
| `RxRing.TailIsNext` | userlib/sfc7120_user.c:599 | head plus window is the slot of the first position past the window |
| `RxRing.TailPostMissesTheWindow` | userlib/sfc7120_user.c:595-604 | a tail post never rewrites a descriptor of a position the NIC may still fetch |
| `RxRing.WindowBoundIsExact` | userlib/sfc7120_user.c:242-247 | that is so iff the window is smaller than the ring |
| `RxRing.FlushIsExact` | userlib/sfc7120_user.c:609-619 | the doorbell value covers exactly the window past the consumed positions |
| `RxRing.PostInv` | userlib/sfc7120_user.c:594-605 | a tail post keeps the ring invariant |
| `RxRing.RepostInv` | userlib/sfc7120_user.c:471-480 | a head release keeps the ring invariant |
| `RxRing.NicInv` | userlib/sfc7120_user.c:595-598 | prefetching any covered descriptor at any time, and filling in order, keep the invariant |
| `RxRing.RunInv` | userlib/sfc7120_user.c:464-619 | the invariant holds in every run of posts, releases, flushes, prefetches and fills |
| `RxRing.RepostMatchedIff` | userlib/sfc7120_user.c:471-480 | a head release keeps every descriptor and cookie matched iff the head slot is the library's or its cookie names that buffer |
| `RxRing.RunMatched` | userlib/sfc7120_user.c:594-605 | in every run with head releases on library slots, descriptor and cookie of a slot name the same buffer |
| `RxRing.CookieNamesTheFilledBuffer` | userlib/sfc7120_user.c:586-607 | in every run with a prefetching NIC, the cookie returned for the k-th frame names the buffer the NIC filled for it |
| `RxRing.LibraryStartInv` | sfc7120.c:394-402 | the primed ring satisfies invariant and matching |
| `RxRing.RxHandle.PeekExt` | userlib/sfc7120_user.c:550-579 | the cookie is that of the oldest buffer not handed back, with the length rule |
| `RxRing.RxHandle.ReleasePaddrNodbl` | userlib/sfc7120_user.c:586-607 | in place: the tail post step, refused arguments change nothing |
| `RxRing.RxHandle.Release` | userlib/sfc7120_user.c:464-493 | in place: the head release step with its doorbell, on any slot |
| `RxRing.RxHandle.Flush` | userlib/sfc7120_user.c:609-619 | in place: afterwards exactly the window is covered |
| `RxBurst.GetTakes` | fstack-capio/rte_eth_capio.c:115-126 | `capio_mbuf_get` takes exactly the mbuf it returns; NULL iff stash and mempool are empty |
| `RxBurst.PostMoves` | fstack-capio/rte_eth_capio.c:100-113 | posting moves one mbuf into the window and the head's out of it |
| `RxBurst.ReleaseMoves` | userlib/sfc7120_user.c:464-493 | a head release puts whatever the tail slot holds back into the window |
| `RxBurst.DecideMoves` | fstack-capio/rte_eth_capio.c:228-325 | every branch of the loop accounts for each mbuf it allocates, frees, posts or gives |
| `RxBurst.EventMoves` | fstack-capio/rte_eth_capio.c:228-325 | one event changes an mbuf's number of places only by a head release onto a slot that still holds it |
| `RxBurst.EventConserves` | fstack-capio/rte_eth_capio.c:228-325 | one event keeps every mbuf in exactly one place iff it is not such a release |
| `RxBurst.RunConservesIff` | fstack-capio/rte_eth_capio.c:128-333 | a run, of any length and with received mbufs freed by their owners in between, keeps every mbuf in exactly one place throughout iff it contains no such release |
| `RxBurst.SteadyRunConserves` | fstack-capio/rte_eth_capio.c:301-325 | once all posted slots hold mbufs: in every run, allocation failures included, one place each and `window` posted |
| `RxBurst.CopyRunConserves` | fstack-capio/rte_eth_capio.c:254-300 | in copy mode: in every run, one place each, and the ring keeps its library buffers |
| `RxBurst.ReturnConserves` | fstack-capio/rte_eth_capio.c:115-126 | an mbuf freed by the owner it was given to is in the mempool and in no other place |
| `RxBurst.RxQueue.CallerFree` | fstack-capio/rte_eth_capio.c:115-126 | in place: the free by the owner is one move of the model |
| `RxBurst.MbufCache.Get` | fstack-capio/rte_eth_capio.c:115-126 | in place: the stash and mempool after one allocation, bulk, single or failed |
| `RxBurst.MbufCache.Allocate` | fstack-capio/rte_eth_capio.c:234-277 | in place: the allocations and frees of one event, with what it then posts and gives |
| `RxBurst.RxQueue.Depart` | fstack-capio/rte_eth_capio.c:308-325 | in place: the exit of one event |
| `RxBurst.RxQueue.ReceiveOne` | fstack-capio/rte_eth_capio.c:228-325 | in place: one event is one move of the model, and the mbuf returned is the one that went to the caller |
| `RxBurst.RxQueue.Burst` | fstack-capio/rte_eth_capio.c:150-333 | in place: a burst is a run of the model; the array returned holds exactly the mbufs given; one doorbell |
| `RxStale.StaleMbufIsPosted` | fstack-capio/rte_eth_capio.c:234-242 | a run from the primed ring: every mbuf in one place until the second failed allocation on a library slot, which posts an mbuf that the caller owns |
| `TxRing.PostedInv` | fstack-capio/rte_eth_capio.c:395-449 | a post below the reserve keeps slots, owners and count consistent |
| `TxRing.ReapInv` | fstack-capio/rte_eth_capio.c:187-202 | reaping to an event's 16-bit index takes back exactly the descriptors up to the count it stands for |
| `TxRing.ExactIff` | fstack-capio/rte_eth_capio.c:336-456 | a run of posts, flushes, NIC completions (merged or not) and reaps keeps the bookkeeping right throughout iff no packet in it is sent as a linearised chain |
| `TxRing.FreedExactlyOnceAfterCompletion` | fstack-capio/rte_eth_capio.c:179-202 | in every such run the mbufs freed are those of the completed descriptors, once each and in order; the others still sit in their slots; the count is the distance and stays below the reserve |
| `TxRing.IdleIsConsistent` | fstack-capio/rte_eth_capio.c:64-67 | an idle queue is consistent iff the last freed slot is the one before the head |
| `TxRing.ZeroedQueue` | fstack-capio/rte_eth_capio.c:651-662 | the zeroed queue is consistent iff the head seeded is 1 |
| `TxRing.StatsResetIsSafe` | fstack-capio/rte_eth_capio.c:615-625 | the reset keeps the bookkeeping iff nothing is in flight and the head is 0 |
| `TxBehind.OneBehindForEver` | fstack-capio/rte_eth_capio.c:651-662 | in every run from a queue zeroed at head 0: the last finished descriptor stays unreaped, the count never returns to 0, and the first mbuf is lost once its slot is posted over; the later ones are freed once each, in order |
| `TxBehind.StepBehind` | fstack-capio/rte_eth_capio.c:187-202 | every step keeps that lag, and a completion is reaped to one less than its count |
| `TxHarm.FreedBeforeCompletion` | fstack-capio/rte_eth_capio.c:356-388 | for every ring size: from a consistent queue, a ring of chains and one packet; the mbuf is freed when the NIC has finished the first descriptor and its own is the last |
| `TxRing.TransmitIsCounted` | fstack-capio/rte_eth_capio.c:356-388 | one packet keeps the bookkeeping iff it is not sent as a linearised chain |
| `TxRing.TransmitAllInv` | fstack-capio/rte_eth_capio.c:347-450 | every burst of single-segment packets keeps it |
| `TxRing.TxQueue.ReapTo` | fstack-capio/rte_eth_capio.c:191-201 | in place: the reaping loop ends at the target and is the reap of the model |
| `TxRing.TxQueue.ReapEvent` | fstack-capio/rte_eth_capio.c:187-202 | in place: everything up to the event's count, and nothing else, is taken back |
| `TxRing.TxQueue.TransmitOne` | fstack-capio/rte_eth_capio.c:348-449 | in place: the loop body with its branches; sent and dropped add up |
| `TxRing.TxQueue.TransmitBurst` | fstack-capio/rte_eth_capio.c:336-456 | in place: the burst, what it takes, and that everything posted is rung |
| `Kernel.RxRunInv` | sfc7120.c:1225-1374 | over every run of NIC fills, receive ioctls and transmit ioctls: the ring invariant, and events consumed less slots given back are the events dropped |
| `Kernel.RingStaysFull` | sfc7120.c:378-393 | after any such run the NIC can fill iff fewer than a ring less one of slots are out, producer differs from consumer, and slot i describes buffer i |
| `Kernel.RightFrameIff` | sfc7120.c:1264-1374 | after any such run a receive ioctl delivers the frame of the event it consumed iff no receive event was dropped before |
| `Kernel.WrongFrame` | sfc7120.c:1339-1344 | for every ring of more than two slots: one failed copy, and the next delivery carries the bytes of the frame before |
| `Kernel.DeadForEver` | sfc7120.c:1339-1374 | once a ring less one of events was dropped, every run leaves everything as it is: no fill, no delivery |
| `Kernel.FailedCopiesKill` | sfc7120.c:1339-1344 | failed copies alone lead there |
| `Kernel.MatchIff` | sfc7120.c:1164-1178 | an event is taken for the completion of the posted descriptor iff its descriptor is whole laps older; within a lap, iff it is its own |
| `Kernel.BuffersAreDisjoint` | sfc7120.c:395-402 | the buffers described share no byte and stay inside the region |
| `Kernel.Softc.PostRxBuffers` | sfc7120.c:373-413 | in place: the primed ring and its invariant |
| `Kernel.Softc.PollUntil` | sfc7120.c:1264-1303 | the loop consumes events in order and stops at the first that satisfies the test, or when tries run out |
| `Kernel.Softc.Receive` | sfc7120.c:1225-1374 | in place: outcome, events consumed, length delivered, and the step of the model after success, timeout and failed copy |
| `Kernel.Softc.Transmit` | sfc7120.c:1046-1224 | in place: each refusal with its error and no change; otherwise one descriptor posted, events drained up to the first that names its slot, and the receive events among them dropped |
| `Session.SidesTrack` | userlib/sfc7120_user.c:226-250 | within a session each side's cursors are the seed plus what that side moved |
| `Session.HandOver` | userlib/sfc7120_user.c:861-883 | the kernel's cursors are right after a session iff the side that is dropped moved whole laps |
| `Session.SyncIsAccepted` | sfc7120.c:1034-1037 | the teardown sync is never refused |
| `Session.CursorsSurviveSessions` | sfc7120.c:996-1045 | across any number of one-sided sessions the next seed is the true count of events, posts and frames |
| `Session.MixedSessionLosesTheIoctl` | userlib/sfc7120_user.c:867-874 | one transmit ioctl followed by a poll always rolls the transmit cursor back |
| `Session.Link.constructor` | userlib/sfc7120_user.c:226-250 | in place: if the kernel's cursors name the true counts, so do the copies the session starts from |
| `Session.Link.IoctlTx` | sfc7120.c:1046-1224 | in place, over the kernel's transmit ioctl: the session stays the run of its operations, this one moving the kernel's cursors by the events really drained and one post |
| `Session.Link.IoctlRx` | sfc7120.c:1225-1374 | the same of the receive ioctl, the slot given back only on success |
| `Session.Link.Poll` | userlib/sfc7120_user.c:342-410 | in place, over `sfc7120_poll`: the session's own event cursor moves by the events really returned, and the session is marked |
| `Session.Link.TxPost` | userlib/sfc7120_user.c:780-832 | in place: the session's transmit cursor, in both forms; only the unbatched one marks |
| `Session.Link.RxRelease` | userlib/sfc7120_user.c:424-493 | in place: the same of the receive cursor |
| `Session.Link.Destroy` | userlib/sfc7120_user.c:861-883 | in place: after the teardown sync the kernel's cursors name the true counts iff the side that is dropped moved whole laps |
| `Capio.OnlyTheTokenPasses` | capio.c:170-185 | exactly the live sealed token passes while the device is held, none otherwise |
| `Capio.SuccessNeedsTheToken` | capio.c:596-598 | map, driver ioctl and goodbye succeed only with it |
| `Capio.CreateIsExact` | capio.c:457-475 | creating a pager object keeps the flags exact iff the region is still unmapped |
| `Capio.ExactIff` | capio.c:313-503 | a run of attach, map, unmap, goodbye, close and ioctl steps keeps token and flags exact throughout iff each pager object is created while its region is unmapped |
| `Capio.SharingInvariant` | capio.c:170-503 | over every such run: exactly the seal of the stored original passes; lengths as attached; a region is flagged mapped exactly while an object of it lives, and there is never a second |
| `Capio.OverlappingMaps` | capio.c:399-475 | two maps that pass the check before either creates leave, after one unmap, an object without its flag |
| `Capio.Device.CheckCapToken` | capio.c:170-185 | passes iff it is the live token; which error otherwise |
| `Capio.Device.SetCapToken` | capio.c:269-287 | in place: attach refused while held or without a capability |
| `Capio.Device.RevokeCapToken` | capio.c:230-267 | in place: token cleared; the offset of a region only where its mapping could be removed |
| `Capio.Device.SliceLength` | capio.c:83-109 | the attach-time length, whatever happened since; 0 for an unknown type |
| `Capio.Device.VaddrCallback` | capio.c:54-81 | in place: address recorded for the right region only |
| `Capio.Device.MmapCheck` | capio.c:313-411 | in place: result of all checks in their order |
| `Capio.Device.PagerCtor` | capio.c:457-475 | in place: flag set; invariant kept iff the region was unmapped |
| `Capio.Device.PagerDtor` | capio.c:477-503 | in place: flag cleared |
| `Capio.Device.Goodbye` | capio.c:585-613 | in place: token check, then revocation |
| `CapioClient.MapIsAccepted` | userlib/sfc7120_user.c:174-220 | the holder's map of an unmapped region passes every kernel check |
| `CapioClient.TeardownRestores` | userlib/sfc7120_user.c:834-889 | teardown by the holder restores the state attach found |
| `CapioClient.DestroyRestores` | userlib/sfc7120_user.c:264-267 | from every failure point of `sfc7120_init` teardown restores it, so the next attach and its maps are accepted |
| `CapioClient.LoserLeavesTheHolderIff` | userlib/sfc7120_user.c:169-172 | the teardown of a client whose attach was refused leaves the holder untouched iff its token is not the live one and its close is not the last; else it frees the device |
| `CapioClient.Client.Init` | userlib/sfc7120_user.c:129-267 | in place, from every failure point: on a free device all regions mapped or nothing left behind; on a held one failure, and the holder untouched under that condition |
| `CapioClient.Client.Destroy` | userlib/sfc7120_user.c:834-904 | in place: the holder leaves the device as attach found it, a stranger leaves it untouched under that condition |
| `McdiFrame.Le32OfBytes` | sfc7120_mcdi.c:239-249 | a dword written and read is the same |
| `McdiFrame.V1HeaderReadsBack` | sfc7120_mcdi.c:511-516 | every header field reads back cut to its width; a request never looks like a response |
| `McdiFrame.V2HeaderReadsBack` | sfc7120_mcdi.c:503-505 | the same of the extension header |
| `McdiFrame.RequestFits` | sfc7120_mcdi.c:603-605 | an accepted request stays in the mailbox iff v1 or at most 248 bytes |
| `McdiFrame.AnswerFits` | sfc7120_mcdi.c:709-712 | reading an answer stays in the mailbox iff it starts at 4 or at most 248 bytes are read |
| `McdiFrame.Mailbox.WritePayload` | sfc7120_mcdi.c:251-269 | in place: the bytes, zero-padded to a dword, and nothing else |
| `McdiFrame.Mailbox.ReadPayload` | sfc7120_mcdi.c:271-285 | exactly the bytes asked for, for every length, and how far the reads reach |
| `McdiFrame.Mailbox.Send` | sfc7120_mcdi.c:478-542 | in place: the controller decodes the command (below 2^15), sequence number, epoch bit and payload, in either framing |
| `McdiPoll.GiveUpBounds` | sfc7120_mcdi.c:622-674 | giving up happens at the first sample over, less than one maximal delay past the timeout |
| `McdiPoll.LoopsAgree` | ref_sfxge_mcdi.c:70-109 | driver and reference loop end alike for every controller iff no sample is exactly at the timeout |
| `McdiPoll.DriverMatchesReference` | sfc7120_mcdi.c:225-228 | with the driver's constants they do |
| `McdiPoll.DriverLoop` | sfc7120_mcdi.c:622-674 | the loop takes its samples on the doubling schedule, with that outcome |
| `McdiPoll.ReferenceLoop` | ref_sfxge_mcdi.c:70-109 | the same of the reference loop |
| `McdiExec.TakenIffCongruent` | sfc7120_mcdi.c:689-696 | an answer, of this epoch or an earlier one, counts as current iff its request is a multiple of 16 away |
| `McdiExec.EveryExchangeIsSound` | sfc7120_mcdi.c:587-730 | over every run of exchanges and resets: sequence number, epoch bit, and no data from an answer fewer than 16 late |
| `McdiExec.SixteenLateIsTaken` | sfc7120_mcdi.c:661-667 | sixteen timeouts, then the first answer: taken as current |
| `McdiExec.TranslateIff` | sfc7120_mcdi.c:562-581 | an error becomes success iff its code is 0 |
| `McdiExec.Channel.Read` | sfc7120_mcdi.c:676-722 | mismatch iff EPROTO; data cut or zero-filled; error translated; the reads stay in the mailbox iff no data, v1, or at most 248 bytes |
| `McdiExec.Channel.Exec` | sfc7120_mcdi.c:587-730 | in place: the whole exchange is one step, for every behaviour of the controller, answers written in pieces included; when the reads stay in the mailbox |
| `McdiExec.Channel.ResetEpoch` | sfc7120_mcdi.c:961-966 | in place: the epoch reset |
| `SysInit.SchedulePrefix` | fstack-capio/modified-sources/lib/ff_init_main.c:232-284 | each initialiser that runs has the least subsystem and order among those waiting then |
| `SysInit.RunsAtMostOnce` | fstack-capio/modified-sources/lib/ff_init_main.c:272-273 | none runs twice; DUMMY and LAST entries never |
| `SysInit.RunsExactly` | fstack-capio/modified-sources/lib/ff_init_main.c:174-287 | an initialiser runs iff it is runnable and linked in, or registered by one that ran |
| `SysInit.SameEntriesRun` | fstack-capio/modified-sources/lib/ff_init_main.c:204-214 | however ties are broken, the same initialisers run |
| `SysInit.OrderIsDetermined` | fstack-capio/modified-sources/lib/ff_init_main.c:204-214 | without ties the whole order is determined |
| `SysInit.EarlyTableReplaces` | fstack-capio/modified-sources/lib/ff_init_main.c:130-160 | after a registration before the start, an entry other than the first runs iff the early table or a later registration holds it |
| `SysInit.EarlyRegistrationLosesEntries` | fstack-capio/modified-sources/lib/ff_init_main.c:275-284 | a start-up in which a linked entry is lost that way |
| `SysInit.Startup.SysinitAdd` | fstack-capio/modified-sources/lib/ff_init_main.c:130-160 | in place: the merged table |
| `SysInit.Startup.Sort` | fstack-capio/modified-sources/lib/ff_init_main.c:204-214 | in place: sorted by subsystem, then order, and a permutation |
| `SysInit.Startup.Walk` | fstack-capio/modified-sources/lib/ff_init_main.c:232-284 | in place: the walk up to its end or a restart |
| `SysInit.WalkProgress` | fstack-capio/modified-sources/lib/ff_init_main.c:232-284 | every walk extends the schedule; a restart leaves fewer entries waiting, an end leaves none |
| `SysInit.Startup.MiStartup` | fstack-capio/modified-sources/lib/ff_init_main.c:174-287 | in place: terminates, and what ran is a finished schedule, for every registration behaviour |
| `Latency.IndexTracking` | bench/pktgen-modified/app/pktgen.c:315-329 | a stamped packet counts iff its index follows that of the stamped packet before it, else it is skipped; the statistics are those of the delays that count |
| `Latency.BurstsCompose` | bench/pktgen-modified/app/pktgen.c:311 | how a stream is cut into bursts does not matter |
| `Latency.HistogramIsExact` | bench/pktgen-modified/app/pktgen.c:341-352 | every bucket holds the number of its delays, the overflow the rest |
| `Latency.CountIsConserved` | bench/pktgen-modified/app/pktgen.c:341-352 | buckets and overflow add up to the count |
| `Latency.RankIsExact` | bench/pktgen-modified/app/lpktgenlib.c:3127-3138 | the value reported for a rank is the upper edge of the bucket of the sample with that rank |
| `Latency.ConvertsIff` | bench/pktgen-modified/app/pktgen.c:344 | the nanoseconds computed are those of the delay iff the product fits 64 bits |
| `Latency.LongDelayCountsAsShort` | bench/pktgen-modified/app/pktgen.c:344-349 | a delay of 18.4 s lands in the first bucket and is reported as 2 us |
| `Latency.StreamPercentile` | bench/pktgen-modified/app/lpktgenlib.c:3104-3142 | for a whole stream whose delays convert, and every rank: the edge above the delay of that rank in order of length, 0 if none was recorded |
| `Latency.PercentilesAreOrdered` | bench/pktgen-modified/app/lpktgenlib.c:3111-3112 | a larger quantile never reports less, so p50, p90, p99 and p99.9 never decrease |
| `Latency.SumAndMaximum` | bench/pktgen-modified/app/pktgen.c:332-337 | recorded sum and maximum are those of the delays |
| `Latency.MinimumIff` | bench/pktgen-modified/app/pktgen.c:334-335 | the recorded minimum is the minimum iff no delay is 0 or the last is |
| `Latency.Counters.Clear` | bench/pktgen-modified/app/pktgen-latency.c:363-377 | in place: the reset state |
| `Latency.Counters.TstampCheck` | bench/pktgen-modified/app/pktgen.c:302-352 | in place: a burst is its packets one after another |
| `Latency.Counters.Quantile` | bench/pktgen-modified/app/lpktgenlib.c:3119-3139 | the scan loop computes the percentile of the truncated product, whatever its rounding |
| `TxBudget.GrantBounds` | bench/pktgen-modified/app/pktgen-port-cfg.h:334-336 | a grant is between 0 and the burst iff neither burst nor counter is negative |
| `TxBudget.EveryRunIsSequential` | bench/pktgen-modified/app/pktgen-port-cfg.h:325-341 | every interleaving is equivalent to calls that ran alone, in the order in which they took effect |
| `TxBudget.FailureMeansProgress` | bench/pktgen-modified/app/pktgen-port-cfg.h:337-338 | a compare-and-set fails only if the counter changed since the load |
| `TxBudget.BudgetIsConserved` | bench/pktgen-modified/app/pktgen-port-cfg.h:325-341 | handed out plus left is what was budgeted |
| `TxBudget.NeverNegative` | bench/pktgen-modified/app/pktgen-port-cfg.h:334-337 | without negative input the counter stays non-negative and no grant exceeds its burst |
| `TxBudget.SharedBudget` | bench/pktgen-modified/app/pktgen-port-cfg.h:325-341 | threads sharing one budget get at most it, and the counter is the rest, in every interleaving |
| `TxBudget.Shared.TxCount` | bench/pktgen-modified/app/pktgen-port-cfg.h:325-341 | in place: the call returns what a call alone at one moment during it gets, within one try per disturbance |
| `Checksum.FoldIsCanonical` | userlib/sockperf_echo.c:75 | folding ends at the one number in 1..65535 congruent to the sum; 0 only for 0 |
| `Checksum.ChecksumCompletes` | userlib/sockperf_echo.c:75-76 | sum plus checksum folds to 0xffff |
| `Checksum.SameBytesOnTheWire` | userlib/sockperf_echo.c:133-140 | the big-endian loop stores the same two bytes as the host-order one |
| `Checksum.WrapMatters` | userlib/sockperf_echo.c:72-73 | when the 32-bit accumulator's wrap changes the result |
| `Checksum.IpCksum` | userlib/sockperf_echo.c:68-77 | the loop, odd lengths and wrap included; exact up to 131074 bytes |
| `Checksum.ProbeCksum` | userlib/sockperf_echo.c:133-140 | the probe's loop, and its relation to `ip_cksum` |
| `Echo.ReplyVerifies` | userlib/sockperf_echo.c:354-359 | the reply's IP header passes its receiver's check, whatever the request carried |
| `Echo.SameProper` | userlib/sockperf_echo.c:354-359 | exchanging the addresses leaves the proper checksum as it was |
| `Echo.EchoTwice` | userlib/sockperf_echo.c:348-365 | an echo echoed is the original frame iff that carried the proper IP checksum and no UDP checksum |
| `Echo.RepliesAlternate` | userlib/sockperf_echo.c:348-365 | a third echo equals the first |
| `Echo.EchoFrame` | userlib/sockperf_echo.c:317-365 | in place, with and without `SPF_STRICT`: which frames are echoed, and every byte of the result |
| `Echo.ClearingCommutes` | userlib/sockperf_echo.c:342-343 | clearing the client bit before the rewriting gives the reply with the bit cleared |
| `Echo.StrictReplyEndsThere` | userlib/sockperf_echo.c:338-343 | the strict reply passes the IP check and no strict server echoes it again |
| `LcoreMask.CoresAreTheBits` | fstack-capio/modified-sources/lib/ff_config.c:111-131 | the list holds exactly the set bits, once each, increasing |
| `LcoreMask.CoresSumToTheMask` | fstack-capio/modified-sources/lib/ff_config.c:111-135 | for every limit, the list is the binary expansion of the mask below it; nothing is cut off iff the mask is below two to the limit |
| `LcoreMask.PrintReadsBack` | fstack-capio/modified-sources/lib/ff_config.c:120-126 | the printed mask of a core is accepted and names that core alone |
| `LcoreMask.SearchFinds` | fstack-capio/modified-sources/lib/ff_config.c:214-233 | binary search finds an element iff it is in the range |
| `LcoreMask.EnabledIffBit` | fstack-capio/modified-sources/lib/ff_config.c:1434-1442 | a core passes the per-port check iff its bit is set |
| `LcoreMask.TrimIs` | fstack-capio/modified-sources/lib/ff_config.c:98-106 | removed are all blanks ahead, then one 0x or 0X, then all blanks at the end, and nothing else |
| `LcoreMask.TrimMask` | fstack-capio/modified-sources/lib/ff_config.c:98-106 | the loops compute that |
| `LcoreMask.ParseLcoreMask` | fstack-capio/modified-sources/lib/ff_config.c:73-143 | success iff the mask is well formed and names a core for this process; then list and printed mask |

## Left out

- The PCIe and MCDI command wrappers, filter, link and statistics commands: straight-line fillers of request buffers.
- `sfc7120_rx_release_paddr`, `sfc7120_rx_recv` and `sfc7120_tx_post_paddr`: the first two rewrite the head slot, which the driver in F-Stack no longer does; the third differs from the modelled posts in its doorbell only.
- Pager faults, slice tables and capability bounds of mapped slices: they add lookups, no protocol.
- Cache maintenance, barriers and DMA synchronisation: memory is sequentially consistent in the model, except that the NIC may prefetch descriptors.
- NULL arguments, unmapped rings and failed `malloc`, other than those of `sfc7120_poll`: they return before anything changes.
- 64-bit statistics counters do not wrap in the model.
- pktgen's jitter counter and sampled latencies: they add easy members.
- `RTE_MAX_LCORE` is a parameter, and `SI_SUB_DUMMY` and `SI_SUB_LAST` have FreeBSD's values: the headers that define them are not part of this model.
- Latency.Counters.Quantile: takes the truncated product `total * q` as a parameter, because its rounding in doubles is not modelled; the properties hold for every value of it.
- CapioClient.Client.Init: expects six regions of positive size, as the driver creates them; munmap succeeds, because its failure is only printed.
- RxBurst.RxQueue.Burst: the caller's array is returned as a sequence, because only its contents matter.
- McdiExec.Channel.Exec: the memory of the model is 260 bytes long, so that accesses past the 256 of the mailbox are visible instead of excluded.
- TxBudget.Shared.TxCount: interference is a finite list, because no bound on the retries exists without one.
- SysInit.Startup.MiStartup: what an initialiser registers is fixed in advance, for any choice; the scheduler that never returns is not a member of the table.
