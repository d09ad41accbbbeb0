# Verification model of NVMeVirt

NVMeVirt is a kernel module that behaves like an NVMe SSD. This project models its flash translation
layers, its work queue and its timing model in Dafny, and proves what they are built on. Every part is
modelled twice: as values, with functions for what a step does and lemmas about it, and in place, with
classes whose methods follow the C functions statement by statement and are proved to have the effect
the functions define.

| files | what they model |
|---|---|
| `IndexedHeap` | the binary heap with back-pointers of `pqueue/pqueue.c` |
| `Geometry`, `FtlLines`, `FtlSteps`, `FtlMaps`, `FtlReclaim`, `FtlCollect`, `FtlTally`, `FtlInit`, `Commands`, `WriteBuffer`, `ConvFtl`, `ConvRuns`, `ConvRead`, `Partitions` | the page-mapped FTL of `conv_ftl.c` with its garbage collection, the geometry and the write buffer of `ssd.c` |
| `IoQueue`, `IoSteps`, `IoRuns`, `IoWorker` | the work queue of `io.c`: two lists in one array, a dispatcher and a worker that interleave |
| `Prp`, `DataMover` | the two data paths of `io.c`, page by page and merged for DMA |
| `CreditRing`, `ChannelModel` | the bandwidth model of `channel_model.c` |
| `ZoneMachine`, `ZoneLaws`, `ZonePointers`, `ZoneRuns`, `ZnsFtl` | zones, write pointers and random write areas (ZRWA) of `zns_mgmt_send.c`, `zns_read_write.c` and `zns_ftl.h` |
| `KvIndex`, `KvRuns`, `KvFtl` | the key index of `kv_ftl.c` |
| `Arithmetic`, `Options`, `Sequences` | shared helpers |

`dafny verify dfyconfig.toml` checks the whole project.

Main results:

- **FTL.** Forward and reverse map are inverse bijections between mapped LPNs and VALID pages in every
  state between page writes. Every assertion of the modelled functions holds, but for two on fields that
  are left out. A garbage collection leaves every LPN reading what it read, takes a victim with the fewest
  VALID pages, frees all its pages, and strictly shrinks the set of INVALID pages. The loop that collects
  while free lines are low ends if and only if the mapped LPNs, less the VALID pages of the line the user
  writes, are fewer than `(lines - threshold - 2) * pgs_per_line`. One spare line is enough for a
  collection, and without one it goes through exactly when its copies fit in the line being filled. A host
  that stays in the advertised space, with commands of no more than `threshold` lines, meets no endless loop
  if `100 * lines < pba_pcent * (lines - threshold - 2)`, from 153 lines on with the values of the source; if
  not, a write inside that space, for a write buffer that takes it, starts one. A read issues every LPN of its range that was ever written in exactly one flash command.
- **Work queue.** In every interleaving of dispatcher and worker steps the array is split into free list,
  pending list and the slot being linked, and a stale cursor only reaches slots that were used. Over every
  run each arrival is reported at most once, with its own request, no earlier than its own target, and
  after its data was copied once. A pass that nobody disturbs completes everything that is due.
- **Bandwidth model.** Whatever a monotone clock does, no interval ever grants more than its credits. The
  ring shows exactly what an unbounded ledger of grants leaves if and only if no 32-bit distance of the
  clock wraps around to a slot in use. The finish time of a request follows from what it was granted.
- **Data paths.** The merged walk moves the same bytes as the page walk exactly when no entry that is not
  page aligned is followed by the one a page further. Byte by byte, a command moves its data in its own
  direction and changes nothing else.
- **Zones.** The counters always are the numbers of open and active zones, so they need not be trusted.
  Over every run a write pointer is the start of its zone plus the LBAs written since the last reset.
  The exact conditions, on what is known before the command, for a random write area resource to be lost,
  for the assertion in the random write area write to fail, and for a division by zero or a missing buffer;
  and which devices have a run that comes to the last two.
- **Key index.** Stores are map updates, which change a length only when both are small, lookups end, and a delete in a table that only saw stores
  is a removal exactly when the entry is at the end of its chain.

Where the code falls short of what it is for, the code is modelled as it is. The places are:

- the collecting loop that does not end when LPNs are mapped beyond the bound above, although `conv_write`
  accepts every LPN below `tt_pgs` (`conv_ftl.c:958`, `1090-1092`), and the write that crosses more line
  ends than lines are free (`conv_ftl.c:167-181`, `264-280`);
- partial pages, for which the write buffer gives back more than it took (`conv_ftl.c:940-1012`);
- a clock that jumps by 2^32 intervals, `max_credits` above one byte, and `max_credits` of zero, which is a
  bandwidth below 31 MB/s (`channel_model.c:25`, `43-44`, `83`);
- an unaligned PRP entry inside a contiguous run, which the comment at `io.c:180` rules out but the code
  accepts, and PRP entries that do not reach as far as their command (`io.c:73-81`, `142-150`);
- the random write area resource that `__increase_write_ptr` does not give back (`zns_read_write.c:27-35`):
  the `ASSERT(0)` there expands to nothing (`nvmev.h:69`), so a zone with such an area can fill up;
- the assertion that closing and writing again runs into (`zns_read_write.c:289-290`), and the commands on
  random write areas that every configuration in `ssd_config.h` accepts although it sets all their sizes to
  zero (`zns_read_write.c:289`, `316`, `zns_mgmt_send.c:204`);
- a delete in the middle of a chain (`kv_ftl.c:482`), and a new key in a full table (`kv_ftl.c:181-186`).

Each has a lemma or a contract with the exact condition, and where that needs a state that is not obviously
reached, a run that comes to it.

## Model

| member | source | states |
|---|---|---|
| IndexedHeap.RootIsLeast | pqueue/pqueue.c:170-178 | the element at index 1 of an ordered heap has the least priority of all elements, which is what a peek relies on |
| IndexedHeap.ElementCount | pqueue/pqueue.c:50-54 | with matching back-pointers the elements are distinct, so a heap of `size` holds exactly `size - 1` of them |
| IndexedHeap.SubtreeIsValidMeaning | pqueue/pqueue.c:225-242 | the recursive check accepts a subtree if and only if every strict descendant is no smaller than its parent |
| IndexedHeap.IsValidMeaning | pqueue/pqueue.c:244-247 | the check at the root accepts exactly the ordered heaps |
| IndexedHeap.PriorityQueue.constructor | pqueue/pqueue.c:14-42 | a new heap is valid, empty, with every stored position 0 |
| IndexedHeap.PriorityQueue.BubbleUp | pqueue/pqueue.c:56-71 | sifting up restores heap order and back-pointers from a single violation above the start, and keeps the element set and all priorities |
| IndexedHeap.PriorityQueue.MaxChild | pqueue/pqueue.c:73-85 | 0 exactly for a leaf, otherwise a child of least priority |
| IndexedHeap.PriorityQueue.PercolateDown | pqueue/pqueue.c:87-102 | sifting down restores heap order and back-pointers from a single violation below the start, and keeps the element set and all priorities |
| IndexedHeap.PriorityQueue.Insert | pqueue/pqueue.c:104-129 | the heap stays valid and gains exactly the new element; no priority and no outside position changes; it fails exactly when the array is full |
| IndexedHeap.PriorityQueue.ChangePriority | pqueue/pqueue.c:131-142 | changing the priority of a queued element in place keeps validity and the elements, and changes that priority alone |
| IndexedHeap.PriorityQueue.Remove | pqueue/pqueue.c:144-154 | the heap stays valid and loses exactly that element |
| IndexedHeap.PriorityQueue.Peek | pqueue/pqueue.c:170-178 | none if and only if the heap is empty, otherwise an element of least priority |
| IndexedHeap.PriorityQueue.Pop | pqueue/pqueue.c:156-168 | none if and only if the heap is empty, otherwise exactly an element of least priority is taken out |
| IndexedHeap.RemoveKeepsOthers | pqueue/pqueue.c:144-154 | moving the last entry into the hole of a removed one leaves exactly the other elements |
| Geometry.GeometryIdentities | ssd.c:99-156 | flash pages tile a block, blocks tile a line, and lines tile the device |
| Geometry.InitParamsFits | ssd.c:66-170 | the computed layout is well formed and its pages hold the requested share of the capacity, whichever of blocks or block size is configured |
| Geometry.InitParamsAre | ssd.c:66-110 | every field of the layout from the bytes it stands for: channels of a partition, pages of a one-shot page and of a flash page, and the fewest wordlines or blocks that hold what is asked |
| Geometry.PgIdxInjective | conv_ftl.c:36-50 | two valid addresses with the same page index are the same address |
| Geometry.PgIdxSurjective | conv_ftl.c:36-50 | every page index below the number of pages belongs to a valid address |
| Geometry.PgIdxInRange | conv_ftl.c:36-65 | a valid address has an index below the number of pages |
| Geometry.AdvanceIsNext | conv_ftl.c:214-262 | from any page of a line the coordinate arithmetic leads to the page one later in wordline-striped order, and wraps exactly at the last |
| Geometry.AdvanceByCases | conv_ftl.c:214-246 | the page after the last of a wordline is in the same wordline of the next channel, then of the next LUN, then in the next wordline of the first channel and LUN |
| Geometry.WriteOrderExists | conv_ftl.c:214-262 | there is a list of all pages of a line, each exactly once, that the arithmetic walks through from (0, 0, 0) and wraps at the end |
| Geometry.AdvanceFills | conv_ftl.c:9-13 | a wordline is filled page by page before the pointer leaves it |
| FtlReclaim.LineCountsAddUp | conv_ftl.c:109-145 | free, full, victim, two active lines and the collected one, if any, are all the lines |
| FtlReclaim.HeapHasRoom | conv_ftl.c:109-145 | the victim heap never holds more than all lines but two, so it never grows |
| FtlSteps.FullMeansListed | conv_ftl.c:247-262 | between line switches a line is on the full list if and only if all its pages are VALID |
| FtlSteps.InvalidAsserts | conv_ftl.c:488-533 | every assertion of mark_page_invalid holds for a VALID page |
| FtlSteps.InvalidKeepsLines | conv_ftl.c:488-533 | the line invariant (pools partition the lines, all counters are page counts, only pages before a write pointer are written) survives invalidating a page |
| FtlSteps.ValidAsserts | conv_ftl.c:535-556 | every assertion of mark_page_valid holds at a write pointer: the page there is FREE |
| FtlSteps.ValidKeepsLines | conv_ftl.c:535-556 | the line invariant survives programming the page at a write pointer |
| FtlSteps.RetireAsserts | conv_ftl.c:247-262 | when a line is written to the end its VALID and INVALID pages add up to the whole line, which is what the assertions there ask |
| FtlSteps.RetireKeepsLines | conv_ftl.c:247-280 | the line invariant survives a switch to the next free line |
| FtlSteps.SelectKeepsLines | conv_ftl.c:645-666 | the line invariant survives taking a victim, which has at least one INVALID page |
| FtlSteps.EraseKeepsLines | conv_ftl.c:558-577 | the line invariant survives erasing a block of the collected line |
| FtlSteps.ReturnKeepsLines | conv_ftl.c:742-751 | the line invariant survives returning an erased line to the free list |
| FtlReclaim.VictimExists | conv_ftl.c:1090-1092 | while free lines are low there is a victim, provided the mapped LPNs less the VALID pages of the user line are fewer than fit in all lines but the threshold and two |
| FtlReclaim.FreeLinesMeanRoom | conv_ftl.c:20-23 | the converse: when more lines than the threshold are free that bound holds, so the loop cannot be left without it |
| FtlReclaim.NoVictimMeaning | conv_ftl.c:645-666 | no victim exists if and only if every INVALID page is in one of the two lines being written |
| FtlReclaim.FullLinesHoldValid | conv_ftl.c:247-262 | the lines on the full list hold that many lines of VALID pages, none of them in the line the user writes |
| FtlReclaim.OpenPagesFit | conv_ftl.c:167-181 | the free lines, the user line and one page of the GC line lie beside the VALID pages outside the user line |
| FtlTally.TallyStep | conv_ftl.c:974-1012 | one more page of a write moves the VALID pages of the user line by one, less one if the old page was there; a fresh line starts empty |
| FtlTally.TallyEnds | conv_ftl.c:974-1012 | after a write that stays in its line, the VALID pages there are the old ones plus the range less the LPNs of the range that were there; after one that does not, the position in the last line |
| FtlTally.KeptAfterWrite | conv_ftl.c:980-1000 | rewriting one LPN: the VALID pages of the line written grow by one unless the old page was there too |
| FtlTally.FreshLine | conv_ftl.c:195-212 | a line that was just opened has no VALID page, and no LPN is there |
| FtlMaps.MapInjective | conv_ftl.c:974-1016 | no two LPNs share a page |
| FtlMaps.OverwriteKeepsInverse | conv_ftl.c:980-1000 | an overwrite keeps the forward and the reverse map inverse bijections between mapped LPNs and VALID pages |
| FtlMaps.OverwriteView | conv_ftl.c:980-1000 | an overwrite changes what its LPN reads, and nothing else |
| FtlMaps.CopyKeepsInverse | conv_ftl.c:598-616 | copying a page during collection keeps the maps inverse between mapped LPNs and the live pages: VALID ones that are not copied away yet |
| FtlMaps.CopyView | conv_ftl.c:598-616 | copying a page changes nothing that any LPN reads |
| FtlMaps.MappedEqualsValid | conv_ftl.c:974-1016 | between commands there are as many VALID pages as mapped LPNs |
| FtlCollect.VisitOnce | conv_ftl.c:775-810 | a step of the loop nest of do_gc visits pages not visited before, and after it exactly the pages behind its position are visited |
| FtlCollect.LastVisitCompletes | conv_ftl.c:775-810 | with the last flash page of a block all pages of the block are visited, so it may be erased |
| FtlCollect.BudgetStep | conv_ftl.c:598-643 | one copied page uses up one page of the budget of free lines; a copy that needs a line and finds none is part of a collection that began without one and whose copies do not fit in the GC line |
| FtlCollect.BudgetAtEnd | conv_ftl.c:753-816 | a collection crosses a line end at most once, exactly when its copies do not fit in the line being filled |
| FtlCollect.CollectedNotFree | conv_ftl.c:702-711 | a page of the collected line that is not visited yet is not FREE |
| FtlInit.PreparedOk | conv_ftl.c:109-145 | the fresh lines with two of them taken by the write pointers satisfy the line invariant |
| FtlInit.DimExists | conv_ftl.c:109-145 | for every geometry there is a device with the dimensions the invariant speaks of |
| ConvFtlModel.ConvFtl.constructor | conv_ftl.c:331-358 | a new FTL is valid, reads nothing, and has all lines free but two |
| ConvFtlModel.ConvFtl.MarkPageInvalid | conv_ftl.c:488-533 | in place: the whole new line state, with the line moved to the victim heap when it was full; every assertion holds |
| ConvFtlModel.ConvFtl.MarkPageValid | conv_ftl.c:535-556 | in place: the whole new line state; every assertion holds |
| ConvFtlModel.ConvFtl.GetNextFreeLine | conv_ftl.c:167-181 | the oldest free line, or none exactly when the list is empty |
| ConvFtlModel.ConvFtl.NextCoordinates | conv_ftl.c:214-262 | the coordinates computed step by step are those of the write order |
| ConvFtlModel.ConvFtl.SwitchLine | conv_ftl.c:247-280 | the finished line goes to the full list or the victim heap, and the pointer to a free line; the invariant holds again |
| ConvFtlModel.ConvFtl.OpenLine | conv_ftl.c:195-212 | a write pointer takes the oldest free line |
| ConvFtlModel.ConvFtl.MapPage | conv_ftl.c:30-65 | both maps point at each other for the new page |
| ConvFtlModel.ConvFtl.AdvanceWritePointer | conv_ftl.c:214-280 | the pointer stands at the next page of the write order; the free list is never found empty when a line is needed |
| ConvFtlModel.ConvFtl.WritePage | conv_ftl.c:980-1000 | one page of a write: consistent again, and the view is the old one with that LPN overwritten |
| ConvFtlModel.ConvFtl.GcWritePage | conv_ftl.c:598-643 | moves one VALID page: the maps stay inverse on live pages and the view does not change |
| ConvFtlModel.ConvFtl.SelectVictimLine | conv_ftl.c:645-666 | none if and only if no victim is acceptable; otherwise the one with the fewest VALID pages |
| ConvFtlModel.ConvFtl.CleanOneFlashPg | conv_ftl.c:693-740 | all pages of a flash page are dealt with, and no FREE page is met |
| ConvFtlModel.ConvFtl.MarkBlockFree | conv_ftl.c:558-577 | erasing a block whose pages are all dealt with loses no live data |
| ConvFtlModel.ConvFtl.CleanLine | conv_ftl.c:775-810 | the loop nest deals with every page of the line and erases every block |
| ConvFtlModel.ConvFtl.MarkLineFree | conv_ftl.c:742-751 | every page of the line is FREE, the line is the last of the free list, and the state between commands is consistent again |
| ConvFtlModel.ConvFtl.DoGc | conv_ftl.c:753-816 | runs out of lines exactly when none is free and the VALID pages of the victim do not fit in the rest of the GC line; otherwise the view and the VALID pages of the user line are unchanged, every page of the victim is FREE, the set of INVALID pages strictly shrinks, and the number of free lines grows by one exactly when the copies fit in the line being filled |
| ConvFtlModel.ConvFtl.SomeVictim | conv_ftl.c:1090-1092 | while free lines are low and there is room the victim heap is not empty |
| ConvFtlModel.ConvFtl.RoomWhenDone | conv_ftl.c:1090-1092 | once free lines are not low there is room |
| ConvFtlModel.ConvFtl.SmallDeviceHasNoRoom | conv_ftl.c:1090-1092 | with no more lines than the threshold and two there never is room |
| ConvFtlModel.ConvFtl.FullDeviceHasNoRoom | conv_ftl.c:1090-1092 | nor once the mapped LPNs fill all lines but the threshold and one |
| ConvRuns.FirstWrite | conv_ftl.c:1061-1092 | the first write to a new device of any geometry runs out of lines, ends or does not end, by the number of lines it fills |
| ConvRuns.SmallDevice | conv_ftl.c:1061-1092 | with no more lines than the threshold and two, the first page written starts a loop that does not end |
| ConvRuns.LongWrite | conv_ftl.c:264-268 | every new device has a write that it accepts, when its buffer takes it, and that follows a NULL line |
| ConvRuns.HostWrite | conv_ftl.c:1061-1095 | a host that stays below so many LPNs that they are fewer than all lines but the threshold and two hold: every command is served or refused, and that is so again afterwards |
| ConvRuns.StartsInside | conv_ftl.c:331-358 | a new device is in the state which that starts from |
| ConvRuns.FillSpace | conv_ftl.c:1061-1092 | on a device that is not safe in this sense, LPNs of that host are enough for a write that does not end |
| ConvRuns.AdvertisedIsSafe | conv_ftl.c:411 | the advertised space is safe if and only if a hundred times the lines is less than the percentage times the lines less the threshold and two |
| ConvRuns.ShippedIsSafe | conv_ftl.c:366-374 | with the threshold and percentage of the source: from 153 lines on |
| ConvFtlModel.ConvFtl.CollectWhileLow | conv_ftl.c:1090-1092 | runs out of lines exactly when at its start none is free and no victim fits in the rest of the GC line; otherwise it ends if and only if the mapped LPNs less the VALID pages of the user line are fewer than fit in all lines but the threshold and two, and else comes to a round that finds no victim, and repeats it |
| ConvFtlModel.ConvFtl.ConvWrite | conv_ftl.c:928-1028 | refused exactly beyond the device or when the write buffer is short, without change; follows a NULL line exactly when it is accepted and crosses more line ends than lines are free; otherwise the view is overwritten on the whole range, one free line per line end is used, the buffer books balance, and the VALID pages of the user line are counted |
| ConvFtlModel.ConvFtl.ProcWrite | conv_ftl.c:1061-1095 | a write with its collections: refused, out of lines, served or endless, each exactly when the contract says, on the state before it and, for a write that uses up the free lines, on the state of the lines after it; every LPN of the range reads the new data, no other LPN changes, and after a served command more lines than the threshold are free again |
| ConvFtlModel.ConvFtl.ShortCommandLeavesLine | conv_ftl.c:1090-1092 | between commands, a command of no more pages than the threshold of lines holds leaves the free line that collection needs |
| ConvFtlModel.ConvFtl.TableIsInjective | conv_ftl.c:827-926 | the mapping table of a consistent FTL has no shared pages |
| Commands.ExcessMeaning | conv_ftl.c:940-1012 | a write gives back what it booked if and only if it starts and ends on page boundaries, and otherwise more |
| Commands.OverwrittenMeaning | conv_ftl.c:974-1012 | LPN by LPN: those of the range have the new content, all others what they had |
| Commands.EnoughMeaning | conv_ftl.c:264-280 | the free lines are enough for a write if and only if there is one for every line end it crosses |
| Commands.EnoughStep | conv_ftl.c:264-280 | page by page: enough before a page if and only if enough after it, with one line less at a line end |
| Commands.ThresholdIsEnough | conv_ftl.c:1090-1092 | with more free lines than the threshold a write of at most that many lines finds a free line at every line end, and leaves one |
| Commands.LineIsLeft | conv_ftl.c:1090-1092 | a write for which one line less would be enough leaves a free line |
| WriteBufferModel.WriteBuffer.Allocate | ssd.c:21-35 | all or nothing |
| WriteBufferModel.WriteBuffer.Release | ssd.c:37-45 | bytes taken stay equal to bytes in flight plus scheduled releases, less the excess of partial pages |
| WriteBufferModel.WriteBuffer.constructor | ssd.c:14-19 | a new buffer has all its bytes left |
| ConvRead.InverseIsInjective | conv_ftl.c:827-926 | the forward map of a consistent FTL has no shared pages |
| ConvRead.FlashPageBounds | conv_ftl.c:827-834 | a command for distinct LPNs in one flash page is no larger than a flash page |
| ConvRead.ReadStride | conv_ftl.c:876-921 | the commands issued for one stride read every mapped LPN of it exactly once, their sizes add up to that many pages, none is larger than a flash page, and neighbouring ones are for different flash pages |
| ConvRead.StridesCover | conv_ftl.c:876-883 | every LPN of a range is in exactly one stride, at exactly one step |
| ConvRead.StrideMeets | conv_ftl.c:876-883 | the LPNs that stride i meets are exactly those it reads, and no stride before it met them |
| ConvRead.LiftCovers | conv_ftl.c:876-921 | the indices a stride reads in its table are LPNs of the namespace, one for one |
| ConvRead.AllStrides | conv_ftl.c:876 | one stride per partition, or per LPN if there are fewer, meets the whole range |
| ConvRead.Read | conv_ftl.c:836-926 | refused exactly beyond the device; otherwise all strides together read every mapped LPN of the range exactly once, in the table of its partition, and nothing else |
| Partitions.ReadLpns | conv_ftl.c:836-926 | the same over consistent FTLs: every LPN of the range that has been written is read by exactly one flash command, and the sizes of all commands add up to the number of these LPNs |
| IoQueue.DueFormPrefix | io.c:223-254 | the requests that are due form a prefix of the pending list |
| IoQueue.SortedLater | io.c:233-237 | the list stays sorted by the later of target and clock when the clock advances |
| IoSteps.InitKeeps | io.c:257-316 | taking and initialising a slot keeps the queue invariant |
| IoSteps.InsertPosMeaning | io.c:230-239 | everything before the place found is due or has no later target, and everything behind it is not due and has a later one |
| IoSteps.LinkKeeps | io.c:211-255 | linking a slot keeps the queue invariant: sorted, equal targets in order of arrival, both lists spelled out by their links |
| IoSteps.ReclaimKeeps | io.c:351-400 | reclaiming keeps the queue invariant, and recycles only copied and completed requests |
| IoSteps.NothingDueIsStuck | io.c:369-379 | when everything due is completed, no due request is left behind a head that is not due |
| IoSteps.NextIsUsed | io.c:578-651 | from a slot that was used, the links lead only to slots that were used: a stale cursor never reaches a slot that was not |
| IoSteps.CheckKeeps | io.c:586-591 | a slot that the worker finds not completed is in use, although its cursor may be stale |
| IoSteps.StepKeeps | io.c:578-651 | every step of the dispatcher and of the worker, in any interleaving, keeps the queue invariant |
| IoSteps.RunsAreSafe | io.c:578-651 | over every run of the two threads the invariant holds, and each use of a slot is completed at most once and never before the target in it |
| IoRuns.RunsFulfil | io.c:257-348 | over every run from the start the completion with ticket t reports the request that the t-th arrival asked for, no earlier than the target it asked for; the data of a host request is copied by then, and once, that of an internal one never |
| IoRuns.RunKept | io.c:578-651 | the same from every state that keeps what it was given |
| IoRuns.StepKept | io.c:578-651 | every step of either thread keeps in each slot the request of its ticket |
| IoRuns.ClockIsRead | io.c:583-584 | the time of a completion is the clock that the worker read last |
| IoRuns.UndisturbedPass | io.c:573-651 | a pass that meets no other step copies everything pending and completes exactly what is due; reclaiming then leaves nothing that is due |
| IoSteps.InitialOk | io.c:703-714 | the queue starts in the invariant |
| IoWorkerModel.IoWorker.constructor | io.c:692-714 | every slot free, linked in order |
| IoWorkerModel.IoWorker.AllocateAndInit | io.c:257-316 | in place: fails without change exactly when one free slot is left; otherwise the first free slot holds the request and the target given, not completed, and copied only if internal |
| IoWorkerModel.IoWorker.FindPosition | io.c:227-240 | the walk back along `prev` finds the place that the value model defines |
| IoWorkerModel.IoWorker.InsertReqSorted | io.c:211-255 | the four cases of pointer updates are one insertion into the pending list |
| IoWorkerModel.IoWorker.ReclaimCompletedReqs | io.c:351-400 | the longest prefix of completed, copied and due requests moves to the end of the free list, in order, and nothing else moves |
| IoWorkerModel.IoWorker.StartPass | io.c:573-578 | a pass starts at the head of the pending list |
| IoWorkerModel.IoWorker.PublishClock | io.c:582-584 | the clock is read and published |
| IoWorkerModel.IoWorker.CheckSlot | io.c:586-589 | a completed slot is passed over; any other is in use, whatever the dispatcher did since the clock was published |
| IoWorkerModel.IoWorker.CopyData | io.c:591-622 | the data is copied exactly when it was not before |
| IoWorkerModel.IoWorker.AdvanceCursor | io.c:650 | the cursor follows the link as it is now, whatever the dispatcher did meanwhile, and the pass ends with the list |
| IoWorkerModel.IoWorker.CompleteIfDue | io.c:624-648 | a request completes exactly when it is due; it was copied, and its use of the slot was never completed before |
| CreditRing.MoveTracks | channel_model.c:42-57 | moving the clamped head keeps the ring in step with an unbounded ledger of grants if and only if the 32-bit distance does not wrap around to a slot in use |
| CreditRing.TakeMeaning | channel_model.c:86-106 | earliest fit: slots before the last one touched are emptied and did not suffice, no other slot changes, and credits are left over only when every slot from the start on is empty |
| CreditRing.GrantsAreTaken | channel_model.c:86-91 | every interval grants exactly what its slot loses, and all grants together are what was wanted less what is left over |
| CreditRing.MoveBounded | channel_model.c:42-57 | however far the clock went, after the move no slot has more than the ledger leaves |
| CreditRing.TakeTracks | channel_model.c:86-106 | taking credits keeps that bound, and is in step with the ledger before and after or not at all |
| CreditRing.RequestTracks | channel_model.c:31-120 | a request keeps the bound, and keeps ring and ledger in step if and only if its distance does not wrap around to a slot in use |
| CreditRing.RequestTakes | channel_model.c:66-106 | a request takes all it wants or all there is from its interval on, and nothing before the interval asked for if and only if that is less than 2^32 intervals away |
| CreditRing.FinishFromGrants | channel_model.c:59-119 | from the grants, while nothing wraps: a request before the clock or past the ring is done at its own time and takes nothing; any other after its transfer time and one interval for each by which its last grant is late, beyond those its size explains |
| CreditRing.RingFromGrants | channel_model.c:42-112 | every slot loses what its interval is granted, slots that were passed are full again, and the slots in use reach to the last grant or as far as before |
| CreditRing.RunTracks | channel_model.c:31-120 | over every run with a monotone clock the ring shows what the ledger leaves, from the first request to the last, if and only if no distance wraps around to a slot in use |
| CreditRing.SteadyNeverAliases | channel_model.c:42-44 | that cannot happen while the clock advances by less than 2^32 intervals between two requests |
| CreditRing.RunIsBounded | channel_model.c:16-120 | over every run with a monotone clock, whatever its jumps, no interval ever grants more than max_credits |
| CreditRing.JumpLosesCredit | channel_model.c:42-57 | for every ring size a run with a jump of 2^32 intervals after which a credit the ledger has is refused |
| CreditRing.IdleIsNotHeld | channel_model.c:80-117 | on a ring with all slots full every request, at any time and of any size, finishes after its transfer time alone, if and only if max_credits fits in one byte |
| ChannelModelInPlace.PassedAround | channel_model.c:46-55 | clearing around the end of the array and moving the head drops the passed slots and appends full ones |
| ChannelModelInPlace.ChannelModel.constructor | channel_model.c:16-29 | every slot shows the low byte of max_credits; max_credits and the time of a unit are computed from the bandwidth in 64-bit arithmetic |
| ChannelModelInPlace.ChannelModel.MoveHead | channel_model.c:42-57 | in place: the slots seen from the head are those of the value model |
| ChannelModelInPlace.ChannelModel.TakeCredits | channel_model.c:86-106 | in place: the loop around the ring takes what the value model takes |
| ChannelModelInPlace.ChannelModel.Request | channel_model.c:31-120 | in place: new ring, grants and finish time of the value model, including the early returns; without credits it divides by zero exactly when it gets past them |
| ChannelModelInPlace.SlowChannel | channel_model.h:41-42 | max_credits is 0 exactly below 31 megabytes a second |
| ChannelModelInPlace.BandwidthMeaning | channel_model.h:40-42 | while nothing wraps, the time of a unit is what 128 bytes take and max_credits what passes in an interval, both rounded down |
| ChannelModelInPlace.SlotBack | channel_model.c:108-109 | the length computed from an array index is the distance from the head plus one |
| Prp.PageWalkByte | io.c:63-104 | byte by byte what PRP entries mean when all but the first are page aligned |
| Prp.WalkRun | io.c:63-104 | a run of contiguous aligned pages walked page by page is one contiguous range |
| Prp.SameBytes | io.c:171-206 | merged and page-by-page walk move the same bytes if and only if no entry that is not page aligned is followed by the one a page further |
| Prp.WalksPartExample | io.c:180-193 | two entries for which the walks differ, at byte 512 |
| Prp.RunCovers | io.c:177-195 | a merged transfer covers at least what its pages hold, so the entries never run out |
| DataMoverModel.NeededMeaning | io.c:135-162 | the entries collected are the ones the page walk uses, all of them needed and enough |
| DataMoverModel.SamePaths | io.c:48-209 | for every command the two data paths move the same bytes exactly under that condition |
| DataMoverModel.AlignedPaths | io.c:48-209 | in particular whenever every entry but the first is page aligned |
| DataMoverModel.CommandByte | io.c:69-81 | the address of every byte of a command with aligned entries: in the page of prp1, of prp2, or of the list entry that whole pages lead to |
| DataMoverModel.MoveAllTransfers | io.c:93-98 | byte by byte: a write or append copies the host memory to the device and changes nothing else, a read the reverse |
| DataMoverModel.DistinctRead | io.c:96-98 | with different addresses a read puts every device byte of its range into the memory |
| DataMoverModel.WriteThenRead | io.c:93-98 | what was written comes back when it is read |
| DataMoverModel.DataMover.PerformIo | io.c:48-110 | every byte of the range goes to or comes from the address that the page walk gives it, in the direction of the opcode, and nothing else changes; it fails, after the bytes that the entries reach, exactly when they do not reach the whole command |
| DataMoverModel.DataMover.CollectPrps | io.c:135-162 | exactly the needed entries are collected, from index 1 on; it fails exactly when the entries do not reach the whole command or are more than the list holds |
| DataMoverModel.DataMover.MergeRun | io.c:177-195 | the inner loop finds the whole run of contiguous pages and its size |
| DataMoverModel.DataMover.PerformIoUsingDma | io.c:115-209 | the same for the merged walk, which fails before anything is moved, also for more than 512 entries |
| DataMoverModel.PartStep | io.c:63-104 | one page of a walk whose entries may not reach the end |
| ZoneMachine.CountUpdate | zns_ftl.h:63-78 | how one zone's change of state moves the number of zones that hold a resource |
| ZoneMachine.ZoneOfMeaning | zns_ftl.h:99-112 | an LBA belongs to the zone whose bounds enclose it |
| ZoneMachine.ZoneOfPage | zns_read_write.c:382-391 | the zone found through the page of an LBA is the zone of the LBA |
| ZonePointers.WriteMoves | zns_read_write.c:17-39 | a write or append that is taken starts at the pointer and moves it by its length; the zone is full exactly when that is its end, and no other zone changes |
| ZonePointers.WriteTakenExactlyWhen | zns_read_write.c:104-170 | it is taken exactly when it is aligned, starts at the pointer, ends in the zone, and the zone is open or can be opened |
| ZonePointers.WriteRefusedWith | zns_read_write.c:104-170 | which status each refusal has |
| ZonePointers.FlushMoves | zns_mgmt_send.c:207-226 | an explicit flush that succeeds moves the pointer behind the LBA it names, by whole granules; the zone is full exactly when that is its end |
| ZonePointers.FlushRefusedWith | zns_mgmt_send.c:198-226 | when a flush succeeds, crashes, or is refused with which status |
| ZonePointers.ZrwaWriteMoves | zns_read_write.c:281-336 | a random write area write that succeeds moves the pointer by the fewest granules that bring its last LBA into the area, or to the end, and takes that from the buffer |
| ZonePointers.ZrwaWriteWaits | zns_read_write.c:281-336 | it has to wait exactly when it is in reach of a zone that is or can be opened and what it moves does not fit into what the buffer has left, and succeeds exactly when that fits |
| ZonePointers.MovesOnce | zns_read_write.c:315-329 | there is only one such number |
| ZonePointers.ZrwaWriteRefusedWith | zns_read_write.c:262-313 | which status each refusal has |
| ZonePointers.OpenDoes | zns_mgmt_send.c:66-106 | when opening succeeds, what the zone is then, and which status each refusal has |
| ZonePointers.CloseDoes | zns_mgmt_send.c:7-29 | the same for closing |
| ZonePointers.FinishAndResetDo | zns_mgmt_send.c:31-156 | the same for finishing, which leaves the pointer, and for resetting, which sends it to the start and refills the buffer |
| ZonePointers.OfflineDoes | zns_mgmt_send.c:158-175 | the same for taking offline |
| ZonePointers.PointerIsWritten | zns_read_write.c:17-39 | over every run a pointer is the start of its zone plus the LBAs written since the last reset |
| ZonePointers.PlainPointer | zns_read_write.c:17-39 | without random write areas these are the lengths of all writes that succeeded, and no run halts |
| ZonePointers.SendAllIsEach | zns_mgmt_send.c:272-274 | a command for all zones is the command for each of them, in order |
| ZoneLaws.SendKeeps | zns_mgmt_send.c:230-258 | every management command keeps limits, write pointer bounds and random write area facts |
| ZoneLaws.WriteKeeps | zns_read_write.c:104-170 | so does every write; one that is taken never passes the zone end |
| ZoneLaws.ZrwaWriteKeeps | zns_read_write.c:225-336 | so does every random write area write |
| ZoneLaws.RefusalChangesNothing | zns_mgmt_send.c:66-106 | a refused command or write changes nothing, so the fall through from an empty zone cannot fail halfway |
| ZoneLaws.RetryOpensOnce | zns_read_write.c:281-336 | a write that waits for the buffer leaves a state in which trying again does not open the zone twice |
| ZoneLaws.ImplicitFlushMeaning | zns_read_write.c:315-329 | the pointer moves by the fewest whole granules that bring the last LBA into the new area; otherwise it moves only for a write that ends the zone, and then to the end |
| ZoneLaws.NeverPastLastLba | zns_read_write.c:315-317 | it never passes the last LBA written if and only if a granule is no larger than the area |
| ZoneLaws.FlushStaysInside | zns_read_write.c:315-336 | no flush leaves the zone, and it fills the zone exactly for a write that ends the zone without reaching beyond the area |
| ZoneLaws.SendAllMeaning | zns_mgmt_send.c:272-274 | closing, finishing or resetting all zones does that to every zone that allows it and to no other |
| ZoneLaws.AllReleased | zns_mgmt_send.c:272-274 | afterwards no zone is open, and after finishing or resetting none is active |
| ZoneLaws.RunIsSafe | zns_mgmt_send.c:7-156 | over every run of commands and writes, up to one that halts: limits hold, pointers are in their zones and at the end only when full, no random write area zone is empty, no zone is read only or offline |
| ZoneLaws.LostExactlyWhen | zns_read_write.c:27-35 | a random write area resource is lost exactly by an aligned write from the pointer on that ends the zone within the area, to an open zone whose buffer has room for what is flushed, or to a closed one that can be opened and whose buffer has room for a whole area and for that |
| ZoneLaws.SendLeaks | zns_mgmt_send.c:230-258 | no management command loses a random write area resource or gives a lost one back |
| ZoneLaws.LostExample | zns_read_write.c:27-35 | a run of two commands after which no zone holds the resource and yet none can get it |
| ZoneLaws.StopsExactlyWhen | zns_read_write.c:269-295 | the assertion of a random write area write fails exactly for an aligned write in reach of a closed zone, with an open resource left, when there are buffers and the area is empty or does not fit into the zone's |
| ZoneLaws.CrashesExactlyWhen | zns_read_write.c:315-334 | such a write divides by zero or follows a missing buffer exactly when it is in reach of an open zone and its flush does, or of a closed one that can be opened and there is no buffer, or the area fits and the flush does |
| ZoneLaws.FlushCrashesExactlyWhen | zns_mgmt_send.c:189-205 | an explicit flush divides by zero exactly for an LBA in the area of a zone on a device whose granule is zero |
| ZoneLaws.NoAreaRefuses | zns_read_write.c:244-279 | without an area every write to such a zone whose pointer is not at LBA 0 is refused |
| ZoneRuns.StopNeedsClose | zns_read_write.c:281-295 | no run fails that assertion unless a command of it closed an active zone with a random write area |
| ZoneRuns.RoundsDrain | zns_read_write.c:281-295 | from a new device: opening, then closing and writing n times takes n whole areas from the buffer |
| ZoneRuns.RoundsStop | zns_read_write.c:281-295 | the round after the last one there is room for fails the assertion |
| ZoneRuns.SomeRunStops | zns_read_write.c:281-295 | a device has a run that fails the assertion if and only if it has buffers, and an area, or one that is empty or never fits |
| ZoneRuns.TwoCommandsCrash | zns_read_write.c:315-317 | on a device without a granule opening with a random write area and flushing divides by zero; without an area as well, so does opening and writing at LBA 0 |
| ZoneRuns.ThreeCommandsCrash | zns_read_write.c:289 | without buffers opening, closing and writing follows a pointer that was never set |
| ZoneRuns.SomeRunCrashes | zns_read_write.c:281-334 | a device has a run that crashes if and only if its granule or its buffers are zero |
| ZnsFtlModel.ZnsFtl.constructor | zns_ftl.c:10-83 | all zones empty with their pointers at the start, all buffers full, all counters zero |
| ZnsFtlModel.ZnsFtl.ReleaseZoneResource | zns_ftl.h:73-78 | its assertion holds at every call: the counter is positive |
| ZnsFtlModel.ZnsFtl.Close | zns_mgmt_send.c:7-29 | counters stay the numbers of zones that hold each resource; zones and status are those of the counter-free state machine |
| ZnsFtlModel.ZnsFtl.Finish | zns_mgmt_send.c:31-64 | the same for finish |
| ZnsFtlModel.ZnsFtl.Open | zns_mgmt_send.c:66-106 | the same for open |
| ZnsFtlModel.ZnsFtl.Reset | zns_mgmt_send.c:108-156 | the same for reset, with the buffer refilled |
| ZnsFtlModel.ZnsFtl.TakeOffline | zns_mgmt_send.c:158-175 | the same for offline |
| ZnsFtlModel.ZnsFtl.FlushExplicit | zns_mgmt_send.c:177-228 | counters stay the numbers of holders; the pointer of a flush that succeeds is behind its LBA, and the zone full exactly at its end; the division by zero is an outcome |
| ZnsFtlModel.ZnsFtl.ZoneManagementSend | zns_mgmt_send.c:260-285 | the same for the command, on one zone or on all |
| ZnsFtlModel.ZnsFtl.IncreaseWritePtr | zns_read_write.c:17-39 | the pointer moves by the length, no other zone changes, and a zone that reaches its end is full and gives back its open and its active resource only: the assertion in its way expands to nothing |
| ZnsFtlModel.ZnsFtl.WriteSequential | zns_read_write.c:64-170 | the same for a write or append; the pointer of one that succeeds has moved by its length, and the zone is full exactly at its end |
| ZnsFtlModel.ZnsFtl.WriteZrwa | zns_read_write.c:225-336 | the same for a random write area write; its assertion fails and it crashes exactly when the value model says so |
| ZnsFtlModel.ZnsFtl.ZnsWrite | zns_read_write.c:382-398 | the same for the dispatch between the two: outcome, zones, buffers and counters are those of the run-level step |
| ZnsFtlModel.ZnsFtl.ReleaseZwra | ssd.c:37-45 | a due release gives the bytes back and changes nothing else |
| KvIndex.LookupEnds | kv_ftl.c:339-360 | a lookup visits no slot twice and ends after at most as many steps as there are slots |
| KvIndex.InsertPath | kv_ftl.c:200-232 | a new entry ends the paths through its predecessor and the paths that led to its slot before, and no other path changes |
| KvIndex.InsertMeaning | kv_ftl.c:200-232 | storing a new key is a map update, whatever was stored and deleted before |
| KvIndex.InsertKeepsOneCopy | kv_ftl.c:200-232 | a key keeps at most one copy that can be found |
| KvIndex.RoomLeft | kv_ftl.c:181-186 | with fewer insertions than slots there is a free slot |
| KvIndex.ProbeFinds | kv_ftl.c:181-186 | probing around the table finds a free slot whenever there is one |
| KvIndex.ProbeIsFirst | kv_ftl.c:181-186 | it is the first free slot on the way around |
| KvIndex.HashIsFnv1 | kv_ftl.h:149-159 | the hash is 32-bit FNV-1, by its published values |
| KvIndex.RemovePath | kv_ftl.c:480-483 | a delete cuts every path where it comes to the deleted slot |
| KvIndex.RemoveMeaning | kv_ftl.c:438-492 | after a delete exactly the keys are found that were found without passing the deleted slot |
| KvIndex.DeletedIsGone | kv_ftl.c:438-492 | a key that was just deleted is not found |
| KvIndex.DeleteIsRemoval | kv_ftl.c:438-492 | in a table that only saw stores a delete is the removal of its key from a map if and only if the entry is at the end of its chain |
| KvRuns.DeleteLosesNext | kv_ftl.c:438-492 | in a table of any size two stored keys of one hash slot are enough: the second one is found until the first one is deleted |
| KvRuns.LostKey | kv_ftl.c:438-492 | two such keys, in a table of two slots |
| KvRuns.StoreMeaning | kv_ftl.c:523-540 | a store, of a new key or again, is the same store on a map, except that a new key in a full table changes nothing |
| KvRuns.StoreAgain | kv_ftl.c:530-540 | a key that is there keeps its offset; its length becomes the new one exactly when both are at most 1024, and stays otherwise; no other key is affected |
| KvRuns.StoreFirst | kv_ftl.c:523-530 | a key that is not there gets the offset and the length given when some slot is free, and nothing changes otherwise |
| KvRuns.UpdateMeaning | kv_ftl.c:268-318 | an update changes the length of its key, and nothing else |
| KvIndex.InsertKeepsWhole | kv_ftl.c:200-232 | a table that only saw stores keeps every entry reachable from its hash slot, and no two links to one entry |
| KvRuns.StoresAgree | kv_ftl.c:505-640 | every run of stores agrees with a finite map as long as the map has no more keys than the table has slots |
| KvRuns.RunIsSafe | kv_ftl.c:320-492 | over every run of stores and deletes lookups end, a key has at most one copy to be found, and a deleted key is not found |
| KvFtlModel.KvFtl.constructor | kv_ftl.c:1016-1073 | an empty table finds nothing |
| KvFtlModel.KvFtl.GetMappingEntry | kv_ftl.c:320-377 | in place: none exactly when the key is not in the index, otherwise its extent |
| KvFtlModel.KvFtl.FindNextSlot | kv_ftl.c:164-198 | in place: the end of the chain and the first free slot behind it; the search ends exactly when some slot is free |
| KvFtlModel.KvFtl.NewMappingEntry | kv_ftl.c:200-232 | in place: one link and one slot change; it ends exactly when some slot is free |
| KvFtlModel.KvFtl.UpdateMappingEntry | kv_ftl.c:268-318 | in place: the length of a key that is found, and nothing else |
| KvFtlModel.KvFtl.DeleteMappingEntry | kv_ftl.c:438-492 | in place: the entry that is found is erased, and nothing else |
| KvFtlModel.KvFtl.StoreValue | kv_ftl.c:523-540 | ends exactly for a stored key or when some slot is free; then the key is found at the offset the value was written to, with the new length unless the key was there and a length is over 1024 |
| KvFtlModel.KvFtl.Retrieve | kv_ftl.c:541-563 | no such key exactly when the index has none; otherwise its offset and no more than its length |
| KvFtlModel.StoreThenRetrieve | kv_ftl.c:523-563 | a retrieve after a store reads the smaller of the length asked for and the length stored |
| KvFtlModel.KvFtl.DeleteValue | kv_ftl.c:564-576 | no such key exactly when the index has none |

## Left out

- Latencies: all simulated times except the bandwidth model's own are left out, because they do not
  influence the state that is modelled; `fw_*` latencies, `ssd_advance_nand` and early completion among them.
- More than one partition for writes: collection only serves partition 0 (`conv_ftl.c:1065`, `1090`); reads
  are modelled for any number of partitions.
- More than one plane per LUN: one plane, as `ssd_config.h:78` sets it.
- The reverse map's index: `rmap`, page status and block counters are maps keyed by address. That
  `ppa2pgidx` is a bijection onto the indices of the original array is proved in `Geometry`.
- IndexedHeap.PriorityQueue.Insert: does not model what the write behind the end of a full array destroys
  (`pqueue/pqueue.c:114-125`). The FTL never fills the heap, as `FtlReclaim.HeapHasRoom` states.
- ConvFtlModel.ConvFtl.MarkBlockFree: leaves out the assertions on `pg->nsecs` and `blk->npgs`
  (`conv_ftl.c:568`, `573`), fields that `ssd.c:175`, `191` set once to the values compared with and nothing changes.
- WriteBufferModel.WriteBuffer.Release: every release is scheduled, because a full work queue drops it.
- Write credits of `conv_ftl.c`: the calls are commented out (`conv_ftl.c:1014-1015`).
- Flush, which changes no mapping, and `clean_one_block`, which nothing calls.
- Integer widths in `conv_ftl.c`, `ssd.c` and `io.c`: addresses, counters and times are unbounded there.
  In `channel_model.c` the 8-, 32- and 64-bit arithmetic is written out.
- Hardware memory reordering: in `io.c` a slot is initialised in one step and linked in another; the link
  and the reclaim are one step each.
- A full work queue: the request is dropped (`io.c:288-290`), so nothing says that every request completes.
- Several work queues at once: one worker and its queue; the choice of a worker is left out.
- Interrupts, completion queues, PCI configuration, admin commands and the kernel threads themselves.
- The DMA engine: a transfer is one copy of all its bytes.
- DataMoverModel.DataMover.PerformIoUsingDma: does not model what an entry behind the end of the static list
  destroys.
- More than one namespace in the data paths: the page walk uses the mapping of the namespace and the DMA path
  the start of the storage (`io.c:95`, `199`); they are the same memory for the first namespace only.
- PRP entries at the end of the address space: physical addresses do not wrap at 2^64.
- ZnsFtlModel.ZnsFtl.WriteSequential: does not model the write buffer, because rejected writes keep their
  allocation (`zns_read_write.c:104-123`); whether there was room is a parameter.
- ZoneMachine.ZoneOfMeaning: like all of the zone model it takes sizes and limits as given, with a flush
  granule no larger than the random write area; `zns_init_params` computes some of them from a structure that
  it has not filled yet (`zns_ftl.c:87-100`), so the C code does not define their values.
- ZnsFtlModel.ZnsFtl.Send: leaves out actions without a handler, for which the original returns an
  uninitialised status.
- ZnsFtlModel.ZnsFtl.Reset: does not clear the data of the zone, because the model holds no zone data.
- Zone reports, and the reads of `zns_read`.
- `simple_ftl.c`.
- KvFtlModel.KvFtl.GetMappingEntry: compares whole keys, because keys are of one length; the original
  compares as many bytes as the query has (`kv_ftl.c:347`).
- KvFtlModel.KvFtl.StoreValue: does not model what is stored at the offset, nor that extents are disjoint,
  because an update in place may grow past its extent (`kv_ftl.c:533-535`).
- The batched commands and the iterators of `kv_ftl.c`, which use the same index.
