# Models of the memory checking modules

The repository holds Linux kernel modules that look for memory leaks and overruns, and a network
driver patched to try them out. These files model six pieces of that code in Dafny and prove what
they are relied on for. `dafny verify dfyconfig.toml` checks everything.

- **Reverse mapping** (`Words`, `Sequences`, `PrioTree`, `PrioIter`, `PrioWalk`, `PrioVma`). The kernel's radix
  priority search tree is read-only input: records behind pointers, linked as the kernel links them
  (an empty child is a self link, the root is its own parent), in heap order and radix order
  (`PrioTree.CornerCases` is such a tree, with ties and an overflow node). The
  iterator is a class with the fields of `struct prio_tree_iter`; a ghost path says which moves led
  to its node, and fixes all other fields. The results: the resumable, pruned search returns exactly
  the overlapping nodes in preorder and then NULL; going up undoes going down by bit arithmetic
  alone; and with the rings of equal VMAs every VMA of a page is met exactly once. When a call that
  did not start from a fresh iterator returns NULL, the iterator stands on the root, and a further call
  would start over from there.
- **Page-ownership log** (`PageLog`, `RecordTree`, `LogPage`, `CallStack`, `PageLogger`,
  `RecordReuse`, `LogProtocol`, `SplitSlack`, `ProbedLogger`). `PageLog` is the log as a value, `LogPage` and `PageLogger` the pool
  with its intrusive free list and the search tree, and `LogProtocol` the probes as a state machine in
  which registration, handlers, allocator and frees interleave in any order. `ProbedLogger` puts the
  two together: the handlers on the real pool and tree are the steps of the protocol. The results:
  freeing a block forgets exactly its pages, a block is logged under the stack saved at its own entry,
  and every handler finds what it relies on in every reachable state. Two assumptions in the source's
  comments hold only under conditions, which are proved to be exact.
- **Guard zones** (`GuardZones`, `GuardList`, `GuardRuns`, `GuardSim`). One class models both the
  two-zone and the one-zone module. Its methods are steps of runs over which reports are exact, and
  the two variants are shown to print the same lines on comparable runs.
- **Reverse page-table walk** (`PageWalk`). The nested walk over four levels of tables lists exactly
  the inverse image of address translation (Intel SDM, volume 3A, section 4.5).
- **Transmit ring** (`TxStats`, `TxRing`) of the 8139too driver: what a status register means bit by bit,
  modular counters and reuse of slots.
- **Receive ring** (`RxRing`, `RxRuns`, `RxDriver`) of the same driver. `RxDriver` is the driver on any
  contents of the ring, with the chip free to write between any two rounds; `RxRuns` adds a chip that
  lays frames out as the driver expects them, and follows what was written to the network stack.

Where the source and its comments disagree, the model follows the source:

- The comment at `__alloc_lp` in `huawei_log_page.c` (lines 187-192) says that it cannot return NULL,
  because there are as many records as pages. For the entry handler, which takes its record before the
  page is allocated, that holds if and only if enough pages are in use for good
  (`LogProtocol.RecordLeftExactly`; `ProbedLogger.RunOut` empties the list otherwise). For a split one
  page less is enough (`SplitSlack.SplitRecordLeftExactly`).
- `print_vaddr_of_paddr` means to go over all tasks, but its loop starts behind `current`, which it
  never visits: its output is complete if and only if the calling task does not map the address
  (`PageWalk.CompleteExactly`).

One warning in the source is made exact: the comment at `__nget_free_pages` says that it sometimes
reports an overflow that is none. It hands out 40 bytes less than its order promises (20 in the one-zone
module), and programs that use all of what they asked for are never reported, over all runs, if and
only if they do not use it (`GuardRuns.LegalRunsQuietExactly`).

Unsigned longs are numbers below 2^64 with explicit wrap-around (`Words`); `struct page` pointers
are page numbers; kernel services are parameters: what the allocator returns, the stack dump, the
module of an address, how the tree is rebalanced, the chip's registers, the time.

## Model

| member | source | states |
|---|---|---|
| PrioTree.HeapBound | mem_leak/rmap/rmap.c:60-90 | in a heap-ordered tree no node ends after the root of its subtree |
| PrioTree.RadixBound | mem_leak/rmap/rmap.c:92-132 | every radix index of a subtree lies in the interval its place in the tree leaves open, also in the overflow subtrees, where one value is left |
| PrioTree.LeftStartPrunesRight | mem_leak/rmap/rmap.c:158-190 | a left child that starts after the query leaves no overlap anywhere in the right sibling's subtree |
| PrioTree.PreorderSplitsAt | mem_leak/rmap/rmap.c:192-219 | what comes after a place is the rest of the preorder of the whole tree |
| PrioTree.SelectedExactlyOnce | mem_leak/rmap/rmap.c:192-219 | the answer to a query holds exactly the tree nodes whose interval overlaps it, and none twice |
| PrioIter.MaskSteps | mem_leak/rmap/rmap.c:77-86 | halving and doubling `mask`, with the two special levels (end of the radix bits, all-ones bottom), walks through all depths and back |
| PrioIter.ValueSteps | mem_leak/rmap/rmap.c:100-147 | the bit a right move sets is the one the move up finds and clears, and a left move up clears nothing |
| PrioIter.DescendAt | mem_leak/rmap/rmap.c:60-132 | a move down turns the fields that a path stands for into those of the longer path |
| PrioIter.AscendAt | mem_leak/rmap/rmap.c:134-148 | a move up turns the fields that a path stands for into those of the path without its last move |
| PrioIter.AscendUndoesDescend | mem_leak/rmap/rmap.c:60-148 | going down and up again is the identity on `mask`, `value` and `size_level`, in every state a path can lead to |
| PrioWalk.HeapTestIsExact | mem_leak/rmap/rmap.c:60-90 | a child refused because its subtree ends before the query hides no overlapping node |
| PrioWalk.PrefixTestIsExact | mem_leak/rmap/rmap.c:92-132 | a right child refused because its prefix lies behind the query hides no overlapping node |
| PrioWalk.NoBacktracking | mem_leak/rmap/rmap.c:158-190 | once the search stands on a left child behind the query, the right sibling's subtree holds no overlap |
| PrioWalk.PlaceIsRight | mem_leak/rmap/rmap.c:192-219 | the pointer tests for the root and for a right child tell exactly those places |
| PrioWalk.Iter.Enter | mem_leak/rmap/rmap.c:73-89 | the shared part of the moves down keeps the fields those of the path; both `BUG_ON` conditions are false |
| PrioWalk.Iter.Left | mem_leak/rmap/rmap.c:60-90 | a move to the left, or proof that everything still to come starts to the right |
| PrioWalk.Iter.Right | mem_leak/rmap/rmap.c:92-132 | a move to the right, or proof that nothing to the right overlaps |
| PrioWalk.Iter.Parent | mem_leak/rmap/rmap.c:134-148 | a move up restores the state of the parent's path; what lies beyond stays the same |
| PrioWalk.Iter.First | mem_leak/rmap/rmap.c:158-190 | finds the first overlapping node in preorder without ever going up; NULL if and only if no node of the tree overlaps |
| PrioWalk.Iter.GoLeft | mem_leak/rmap/rmap.c:199-202 | the loop to the left ends on the next answer or with everything left to come on the right |
| PrioWalk.Iter.GoRight | mem_leak/rmap/rmap.c:204-213 | the loop to the right and up ends on the next candidate, or on the root with nothing left to come |
| PrioWalk.Iter.Next | mem_leak/rmap/rmap.c:192-219 | removes the first of the nodes still to be returned and returns it, NULL if and only if there is none; terminates because the preorder position grows |
| PrioWalk.AllHits | mem_leak/rmap/rmap.c:192-228 | repeated calls from a fresh iterator return exactly the overlapping nodes in preorder, and then NULL, for trees of VMAs and of plain nodes |
| PrioVma.RingNext | mem_leak/rmap/rmap.c:251-264 | the next member of a node's ring, NULL exactly where the ring closes |
| PrioVma.VmaNext | mem_leak/rmap/rmap.c:231-274 | returns the first of the VMAs still to come, along the rings and then through the tree, NULL if and only if there is none |
| PrioWalk.PlainHits | mem_leak/rmap/rmap.c:41-57 | in a tree of plain nodes a node is returned if and only if its interval and that of the query have a number in common, and none twice |
| PrioVma.PageVmas | mem_leak/rmap/rmap.c:276-280 | looped from NULL, the iterator yields the nodes that overlap the query in preorder, each followed by its ring, and ends; for a mapping of whole pages it lists a VMA if and only if one of its addresses shows a queried page, and none twice |
| PrioVma.VmasExactlyOnce | mem_leak/rmap/rmap.c:231-280 | that sequence holds exactly the VMAs of the mapping that cover the queried page offsets, and none twice |
| PrioVma.VmasByAddress | mem_leak/rmap/rmap.c:14-17 | in terms of addresses: a VMA is in that sequence if and only if some address of it, counted in pages of 4096 bytes from its page offset, shows one of the queried pages |
| PageLog.FreeInside | mem_leak/kerspace/huawei_log_page.c:546-641 | replacing one record by what it owns outside [start, end) forgets exactly those pages and keeps order and disjointness |
| PageLog.InsertBetween | mem_leak/kerspace/huawei_log_page.c:241-280 | a record put between its neighbours owns exactly its pages |
| PageLog.RecordsPerPage | mem_leak/kerspace/huawei_log_page.c:187-192 | disjoint non-empty records are no more than the pages they cover; with a record of n pages among them, n - 1 fewer |
| PageLog.FreedShrinks | mem_leak/kerspace/huawei_log_page.c:526-643 | freeing removes exactly the freed pages from the covered ones |
| PageLog.InsertedGrows | mem_leak/kerspace/huawei_log_page.c:758-772 | logging a block adds exactly its pages to the covered ones |
| PageLog.AvoidedIsUnowned | mem_leak/kerspace/huawei_log_page.c:241-280 | pages that all records avoid have no owner |
| PageLog.UnownedIsAvoided | mem_leak/kerspace/huawei_log_page.c:265-275 | pages without an owner are avoided by all records, which is what the insertion walk relies on |
| RecordTree.SetInOrder | mem_leak/kerspace/huawei_log_page.c:277-278 | hanging a record below an empty link puts it into the in-order sequence at exactly that place |
| RecordTree.UnlinkInOrder | mem_leak/kerspace/huawei_log_page.c:577-593 | erasing a record takes exactly it out of the in-order sequence |
| LogPage.PartitionAddsUp | mem_leak/kerspace/huawei_log_page.c:187-222 | records in the tree, on the free list and held by probes add up to the whole pool |
| LogPage.FreeRecordLeft | mem_leak/kerspace/huawei_log_page.c:187-204 | the free list is non-empty if and only if tree and probes together hold fewer records than the pool has |
| LogPage.TakeFree | mem_leak/kerspace/huawei_log_page.c:193-204 | taking a record off the list keeps list, tree and probes a partition of the pool and the log as it was |
| LogPage.GiveBack | mem_leak/kerspace/huawei_log_page.c:211-217 | putting a record back keeps list, tree and probes a partition of the pool and the log as it was |
| LogPage.WriteUsed | mem_leak/kerspace/huawei_log_page.c:546-641 | shrinking a record in the tree keeps the order of all records and changes only its span |
| LogPage.WalkEnds | mem_leak/kerspace/huawei_log_page.c:491-508 | a walk that reaches an empty link has all records on one side or the other: the page has no owner |
| PageLogger.Logger.constructor | mem_leak/kerspace/huawei_log_page.c:149-180 | all records of the fresh pool are on the free list and nothing is logged |
| PageLogger.Logger.AllocLp | mem_leak/kerspace/huawei_log_page.c:193-209 | takes one zeroed record off the list; the log stays |
| PageLogger.Logger.FreeLp | mem_leak/kerspace/huawei_log_page.c:211-222 | puts one record on the list and overwrites its union word only; the log and all other records stay |
| PageLogger.Logger.FindLink | mem_leak/kerspace/huawei_log_page.c:248-276 | the descent ends at the empty link between the records before and the records behind the block |
| PageLogger.Logger.Insert | mem_leak/kerspace/huawei_log_page.c:241-280 | a block without owner becomes owned by the record's trace; every other page keeps its owner |
| PageLogger.Logger.Find | mem_leak/kerspace/huawei_log_page.c:491-508 | finds the record that holds a page, or the page has no owner |
| PageLogger.Logger.Split | mem_leak/kerspace/huawei_log_page.c:603-615 | freeing the middle of a record forgets exactly those pages: both remaining parts keep their stack and modules; records held by probes stay |
| PageLogger.Logger.FreeSome | mem_leak/kerspace/huawei_log_page.c:546-641 | one round frees exactly the part of [start, end) it claims to, stays inside, always makes progress in pages done or pages left, and leaves the records held by probes alone |
| PageLogger.Logger.Free | mem_leak/kerspace/huawei_log_page.c:526-643 | afterwards exactly [page, page + 2^order) has no owner and every other page the one it had; the records that probes hold keep order and stack; the loop ends with start equal to end |
| PageLogger.Logger.EndAfterFree | mem_leak/kerspace/huawei_log_page.c:587-593 | with other handlers taking, writing and putting back records meanwhile, the end page read after the record was put back is the old one, unless the moves of the others hand the record on |
| RecordReuse.ReadRightExactly | mem_leak/kerspace/huawei_log_page.c:587-593 | whatever the takers write, the read is right if and only if the free list and the moves of the others do not hand the record on |
| RecordReuse.WrongRead | mem_leak/kerspace/huawei_log_page.c:587-593 | one handler that takes a record in between and writes its pages (lines 761-762) makes the read wrong |
| PageLogger.Logger.EntryHandler | mem_leak/kerspace/huawei_log_page.c:736-756 | the probe holds a record with the order and the call stack, which is told position by position of the dump (see `CallStack.TraceKept`); no other held record changes |
| PageLogger.Logger.ReturnHandler | mem_leak/kerspace/huawei_log_page.c:758-796 | logs the block with the order and the stack its record holds, or gives the record back when the allocator failed; other held records stay, and the covered pages grow by the size of the block |
| PageLogger.RecordToSpare | mem_leak/kerspace/huawei_log_page.c:603-615 | whenever a record must be split, covered pages, held records and free records together exceed the pool by at least two |
| CallStack.SaveStack | mem_leak/kerspace/huawei_log_page.c:393-425 | the entries are the dumped addresses without the first eight, cut to 26, padded with zeros |
| CallStack.SaveModules | mem_leak/kerspace/huawei_log_page.c:427-454 | the module table is the first four of the modules of those entries, equal neighbours counted once, addresses without module skipped |
| CallStack.TraceKept | mem_leak/kerspace/huawei_log_page.c:393-454 | entry j kept is address 8 + j of the dump, 0 where there is none; the table lists, at rising positions of the entries kept, where the module changes, with no other module in between, and it ends before the last entry only when four are found |
| CallStack.RunsGrow | mem_leak/kerspace/huawei_log_page.c:427-454 | later entries only add to the runs of modules found so far, so stopping at four loses nothing |
| LogProtocol.StepPages | mem_leak/kerspace/huawei_log_page.c:736-940 | every step keeps logged pages in use, blocks in flight unlogged and page states consistent |
| LogProtocol.StepProbes | mem_leak/kerspace/huawei_log_page.c:736-940 | every step keeps the log ordered and disjoint and at most the allowed number of calls traced |
| LogProtocol.RunInv | mem_leak/kerspace/huawei_log_page.c:736-940 | the invariant holds in every state of every run |
| LogProtocol.EveryReachableStateSafe | mem_leak/kerspace/huawei_log_page.c:265-275 | in every reachable state: logged pages are allocated, no block about to be logged is in the tree, and a record is left for every split |
| LogProtocol.RecordLeftExactly | mem_leak/kerspace/huawei_log_page.c:187-204 | the comment that the record cannot be NULL holds for the entry handler over all runs if and only if at least as many pages are in use for good as there can be traced calls at a time |
| LogProtocol.NoSlackNoRecord | mem_leak/kerspace/huawei_log_page.c:187-204 | otherwise a run, constructed for every such configuration, leaves an entry handler without a record |
| LogProtocol.OrderMattersExactly | mem_leak/kerspace/huawei_log_page.c:902-933 | for each set of free probes required before the allocator's probe: logged pages stay allocated in all runs if and only if that set is both |
| LogProtocol.WrongOrderBreaks | mem_leak/kerspace/huawei_log_page.c:902-933 | with either or both free probes missing at that time, any page can be back with the allocator while it is still logged |
| SplitSlack.SplitRecordLeftExactly | mem_leak/kerspace/huawei_log_page.c:603-607 | for a split, a record is left over all runs if and only if at most one more traced call can run than pages are in use for good |
| SplitSlack.NoRecordToSplit | mem_leak/kerspace/huawei_log_page.c:603-607 | otherwise a run leaves a record of three pages and none to split it with |
| ProbedLogger.AsManyRecords | mem_leak/kerspace/huawei_log_page.c:731-734 | there are as many held records as traced calls |
| ProbedLogger.RoomFor | mem_leak/kerspace/huawei_log_page.c:187-204 | what the handlers ask for follows from what the protocol keeps |
| ProbedLogger.NotLogged | mem_leak/kerspace/huawei_log_page.c:265-273 | the block of a returning call is not in the tree |
| ProbedLogger.Probed.Enter | mem_leak/kerspace/huawei_log_page.c:736-756 | the entry handler on the real log is the protocol's step: the call, if traced, holds a record with its order and stack |
| ProbedLogger.Probed.Return | mem_leak/kerspace/huawei_log_page.c:774-798 | the return handler is the protocol's step: the block is logged under the stack saved at the entry of the same call, whatever ran in between |
| ProbedLogger.Probed.Free | mem_leak/kerspace/huawei_log_page.c:831-871 | the free probe is the protocol's step: exactly the pages are forgotten and every call in flight keeps its order and stack |
| ProbedLogger.Probed.RecordLeftIsOnList | mem_leak/kerspace/huawei_log_page.c:193-204 | the protocol's count of records left is the real free list: it says that a record is left if and only if the list is not empty |
| ProbedLogger.Probed.HandlersMayRun | mem_leak/kerspace/huawei_log_page.c:187-204 | with enough pages in use for good, in every state the free list is not empty when an entry handler may run, and a split finds a record |
| ProbedLogger.RunOut | mem_leak/kerspace/huawei_log_page.c:187-204 | with fewer, the module itself is driven to an empty free list while an entry handler may still run |
| GuardZones.LayoutFillsBlock | mem_overflow/code/mem_overflow_check.c:63-67 | leading zone, user's area and trailing zone fill the raw block exactly, for all wrappers, sizes and orders; the user gets what was requested, and from `__nget_free_pages` 40 bytes less (20 in the one-zone module) |
| GuardZones.ZonesDistinct | mem_overflow/code/mem_overflow_check.c:129-146 | no two listed zones start at one address, so the search of a free wrapper can only stop at its own block |
| GuardZones.ZonesAround | mem_overflow/code/mem_overflow_check.c:97-101 | the zones of a block are neighbours in the list, the trailing one in front |
| GuardZones.FlagIsScan | mem_overflow/code/mem_overflow_check.c:671-707 | flagging dirty zones of the list is scanning the blocks behind them |
| GuardZones.LayoutIs | mem_overflow/code/mem_overflow_check.c:63-67 | in bytes, for each wrapper: zones of 20 bytes and the user's pointer 20 bytes behind the base, none in front in the one-zone module, half of the requested bytes for `__sget_free_pages`; where the trailing zone starts and how large the raw block is |
| GuardList.Guard.Fill | mem_overflow/code/mem_overflow_check.c:69-73 | exactly the bytes of the zone become the filler |
| GuardList.Guard.Alloc | mem_overflow/code/mem_overflow_check.c:53-115 | the new block's zones lie where its layout in bytes says, are filled with 'a' and listed in front of all others, nothing else changes, and the bus address moves with the pointer |
| GuardList.Guard.FindZone | mem_overflow/code/mem_overflow_check.c:129-146 | the first zone with the wanted address is the block's own |
| GuardList.Guard.Free | mem_overflow/code/mem_overflow_check.c:118-157 | removes exactly the zones of the block through the predecessor link, and names the base, size and bus address that were allocated |
| GuardList.Guard.ZoneDirty | mem_overflow/code/mem_overflow_check.c:685-699 | true if and only if the zone holds a byte that is not the filler |
| GuardList.Guard.CheckIso | mem_overflow/code/mem_overflow_check.c:671-707 | prints, in list order, the caller of each unflagged zone that holds a byte other than 'a', and flags exactly those; it is the scan of the runs |
| GuardList.ZonePlace | mem_overflow/code/mem_overflow_check.c:129-146 | where the searched zone stands, and that cutting it and its predecessor leaves the zones of all other blocks |
| GuardRuns.ScanPrintsBlockReports | mem_overflow/code/mem_overflow_check.c:671-707 | the lines printed along the list are the reports of the blocks behind it, in order |
| GuardRuns.RunInv | mem_overflow/code/mem_overflow_check.c:671-707 | in every state of every run a flag is set if and only if its zone has been reported, and blocks stay disjoint |
| GuardRuns.ReportedAtMostOnce | mem_overflow/code/mem_overflow_check.c:685-699 | over a whole run no zone is reported twice, also when its memory is used again |
| GuardRuns.ScanMissesNothing | mem_overflow/code/mem_overflow_check.c:671-707 | after a scan every live zone with a foreign byte has been reported |
| GuardRuns.ReportedExactly | mem_overflow/code/mem_overflow_check.c:671-707 | over every run, a zone has been reported if and only if some scan so far found it live and dirty |
| GuardRuns.HarmlessRunIsQuiet | mem_overflow/code/mem_overflow_check.c:671-707 | a run whose writes all stay outside the zones of live blocks reports nothing |
| GuardRuns.UserAreaIsHarmless | mem_overflow/code/mem_overflow_check.c:63-67 | the whole area between the zones of a block lies outside the zones of all blocks |
| GuardRuns.OverrunShowsExactly | mem_overflow/code/mem_overflow_check.c:483-505 | a foreign byte behind the user's area makes the trailing zone dirty if and only if it falls into that zone; `__nget_free_pages` gives out 40 bytes less than the order says, so legal use of its last bytes raises a false alarm |
| GuardRuns.LegalUseQuietExactly | mem_overflow/code/mem_overflow_check.c:480-505 | for one clean block, writing any of the requested bytes leaves the trailing zone clean if and only if the block did not come from `__nget_free_pages` |
| GuardRuns.UserWritesAreQuiet | mem_overflow/code/mem_overflow_check.c:671-707 | a run whose writes all stay in the areas given out reports nothing |
| GuardRuns.FalseAlarm | mem_overflow/code/mem_overflow_check.c:480-505 | a run with one `__nget_free_pages` block, one write within the pages asked for and one scan ends in a report |
| GuardRuns.LegalRunsQuietExactly | mem_overflow/code/mem_overflow_check.c:480-505 | programs that write only what they asked for are never reported, over all runs, if and only if they do not use `__nget_free_pages` |
| GuardSim.TwinsDirty | mem_overflow_del_firstiso/code/mem_overflow_check.c:558-597 | the trailing zones of the two modules look the same to a scan |
| GuardSim.StepSimulates | mem_overflow_del_firstiso/code/mem_overflow_check.c:54-140 | every call and every allowed write keeps the two modules' states alike |
| GuardSim.SameOutput | mem_overflow_del_firstiso/code/mem_overflow_check.c:558-597 | for all runs without underruns, with overruns confined to the shorter zone and without `__nget_free_pages`, the one-zone module prints what the two-zone module prints |
| PageWalk.LookIsTranslate | mem_leak/userspace/huawei_user_space_mem.c:26-173 | the level-by-level lookup behind the walk agrees with translation by the four index fields of an address |
| PageWalk.Extend | mem_leak/userspace/huawei_user_space_mem.c:128-148 | the lines for the entries so far and for one more entry are the lines for the longer range |
| PageWalk.SamePage | mem_leak/userspace/huawei_user_space_mem.c:9-121 | the other bytes of a page are mapped around its start, at every level |
| PageWalk.WalkPte | mem_leak/userspace/huawei_user_space_mem.c:26-43 | lists, in ascending order, exactly the 4K page starts of its range whose page holds the physical address |
| PageWalk.WalkPmd | mem_leak/userspace/huawei_user_space_mem.c:70-97 | the same for the range of a middle table, with 2M pages |
| PageWalk.WalkPud | mem_leak/userspace/huawei_user_space_mem.c:123-149 | the same for the range of an upper table, with 1G pages |
| PageWalk.WalkPgd | mem_leak/userspace/huawei_user_space_mem.c:151-173 | the same for all of user space below 2^47, each page once |
| PageWalk.ReversesTranslation | mem_leak/userspace/huawei_user_space_mem.c:9-173 | an address translates to `paddr` if and only if its page is listed: the walk is the inverse image of the translation |
| PageWalk.GetPaddrUndone | mem_leak/userspace/huawei_user_space_mem_test.c:15-39 | a mapped 4K page is listed for a physical address if and only if `get_paddr` of the page yields the start of that address's frame |
| PageWalk.Printer.PrintVaddrOfPaddr | mem_leak/userspace/huawei_user_space_mem.c:200-229 | prints the lists of all tasks of the ring except the calling one: the lines of a task stand together and ascend strictly in the address, they are exactly its right lines, and the tasks come in ring order; `now_task` is left cleared |
| PageWalk.PrintedInOrder | mem_leak/userspace/huawei_user_space_mem.c:200-229 | everything that may be printed for a sequence of tasks can be cut into one part for each of them, in order, each with ascending addresses and exactly the right lines of its task |
| PageWalk.PrintedExactly | mem_leak/userspace/huawei_user_space_mem.c:200-229 | a line is printed if and only if it is the start of a page of one of the visited tasks that holds the physical address |
| PageWalk.CompleteExactly | mem_leak/userspace/huawei_user_space_mem.c:200-229 | with different pids, every page of every task that holds the physical address is printed if and only if the calling task does not map it |
| PageWalk.CallerMissed | mem_leak/userspace/huawei_user_space_mem.c:207-212 | a calling task that maps a page alone, beside the first task of the system: nothing is printed |
| TxStats.Bits | mem_overflow/test/8139too.c:357-364 | what the masks of the driver test is told bit by bit: through (15, 14, 30), failed (29, 30), underrun, abort, carrier, window |
| TxStats.AccountMeans | mem_overflow/test/8139too.c:1768-1792 | one register counts as one error if out of window or aborted, also under its kinds, and otherwise as one packet with its bytes, collisions and underrun |
| TxStats.AllCounted | mem_overflow/test/8139too.c:1768-1792 | over any sequence of registers the counters grow by the sums of those bits and fields, packets and errors together by the number of registers, and the threshold rises by 0x20000 for each late packet, up to 0x300000, and stays in its field |
| TxRing.PendingInBuffers | mem_overflow/test/8139too.c:1709-1734 | at any time each pending frame starts the buffer of its slot, counted from `dirty_tx` around the ring of four |
| TxRing.SlotAfterWrap | mem_overflow/test/8139too.c:1709-1734 | slots follow the 64-bit counters also where these wrap around |
| TxRing.HeldPush | mem_overflow/test/8139too.c:1709-1721 | a frame copied into the slot behind the last pending one leaves all pending frames in their buffers |
| TxRing.RingPush | mem_overflow/test/8139too.c:1709-1737 | the slot of `cur_tx` belongs to no pending frame, and the queue stops exactly when the fourth frame is pending |
| TxRing.RingPop | mem_overflow/test/8139too.c:1747-1813 | reclaiming any number of the oldest frames keeps the ring, with the counters at most four apart modulo 2^64 |
| TxRing.Transmitter.constructor | mem_overflow/test/8139too.c:1436-1447 | nothing is pending and the queue is awake |
| TxRing.LengthInCommand | mem_overflow/test/8139too.c:1731-1732 | the low 13 bits of the command are the length of the frame and the rest is the threshold |
| TxRing.Transmitter.StartXmit | mem_overflow/test/8139too.c:1699-1744 | queues a frame of at least 60 bytes, the packet first and zeros behind it, behind the pending ones, in a slot none of them uses, whose buffer starts with it; its length and the threshold can be read from the command; the queue stops exactly with four pending |
| TxRing.Transmitter.Collect | mem_overflow/test/8139too.c:1756-1797 | walks in ring order over exactly the registers before the first that is not through; the counters grow by what their bits and fields say |
| TxRing.Transmitter.TxInterrupt | mem_overflow/test/8139too.c:1747-1813 | removes exactly the frames before the first unfinished one, counts what their registers say bit by bit, and wakes the queue if there were any; the out-of-sync branch cannot be reached |
| TxRing.Transmitter.TxTimeout | mem_overflow/test/8139too.c:1635-1686 | gives up exactly the pending frames; packets, errors, abandoned and pending frames add up to those queued |
| RxRing.Apart | mem_overflow/test/8139too.c:173-180 | frames less than one ring apart use different bytes although their ends run on into the padding |
| RxRing.LaidPush | mem_overflow/test/8139too.c:173-180 | a frame written within one ring of the oldest unread one leaves all unread frames intact |
| RxRing.HeaderRoundTrip | mem_overflow/test/8139too.c:1953-1954 | the word the driver reads gives back the status and the size in the header |
| RxRing.WordBytes | mem_overflow/test/8139too.c:1953-1954 | byte k of the word read is byte o + k of the ring, lower byte first |
| RxRing.RoundMeans | mem_overflow/test/8139too.c:1943-2023 | a round told in bytes, for any contents of the ring: a size of 8 to 1540 with the lowest status bit set is taken, its bytes without the last four copied and counted, and the counter moves on to the next multiple of four; 0xfff0 waits two ticks; everything else starts over |
| RxRing.AcceptedSizeInBounds | mem_overflow/test/8139too.c:1943-2007 | for any ring contents and any counter: an accepted size keeps the header and every copied byte below `RX_BUF_TOT_LEN` |
| RxRing.ReadsOldest | mem_overflow/test/8139too.c:1945-2006 | on a ring the chip has laid out, the driver reads the oldest unread entry at the offset of `cur_rx`, and what it copies is the payload without CRC |
| RxRing.NextCounter | mem_overflow/test/8139too.c:2023 | rounding up the 32-bit counter follows the position of the next frame across the wrap, in multiples of four |
| RxRing.WalkOn | mem_overflow/test/8139too.c:2021-2023 | after a good frame the counter points at the next unread entry |
| RxRing.AcceptedMeans | mem_overflow/test/8139too.c:1943-1996 | the entries taken are the longest run of good ones the budget allows |
| RxRing.AllDelivered | mem_overflow/test/8139too.c:2001-2019 | if every allocation succeeds, exactly the payloads of the entries taken are delivered, in order |
| RxRing.TallyAddsUp | mem_overflow/test/8139too.c:2001-2021 | every entry taken is counted as delivered or as dropped |
| RxRing.ErrorsTold | mem_overflow/test/8139too.c:1827-1842 | the statistics tell what the status word says: one error; lost in the ring if bit 0 is set, and otherwise one frame, length or CRC error each exactly for the bits of its kind; nothing else counts |
| RxDriver.Receiver.RxErr | mem_overflow/test/8139too.c:1817-1851 | a bad status word is told by the statistics, bit by bit, and the counter starts over at the beginning of the ring |
| RxDriver.Receiver.ReadHeader | mem_overflow/test/8139too.c:1953-1983 | a frame in copy ends the call until its timeout has passed, and then makes the receiver start over |
| RxDriver.Receiver.RunRound | mem_overflow/test/8139too.c:1943-2027 | one round, on any contents of the ring, stays inside the ring, keeps the counter a multiple of four, and does what the bytes at the counter say (see `RxRing.RoundMeans`) |
| RxDriver.Receiver.Rx | mem_overflow/test/8139too.c:1930-2047 | the whole call, whatever each test of the empty bit and each round sees: no access leaves the ring, and the outcome is that of `Loop` |
| RxDriver.RxInRun | mem_overflow/test/8139too.c:1930-2047 | on a ring laid out by the chip, with frames arriving during the call, the call does what the run says: same result, same frames, same state |
| RxRuns.ChipKeeps | mem_overflow/test/8139too.c:173-180 | the chip writing at any time leaves everything unread intact and extends the history of what was written |
| RxRuns.RoundReads | mem_overflow/test/8139too.c:1943-2022 | a round deals with the oldest unread entry: takes it if it is good, waits at one in copy, starts over otherwise |
| RxRuns.RoundKeeps | mem_overflow/test/8139too.c:1943-2027 | a round keeps the ring laid out and what was written equal to what was taken and what is unread |
| RxRuns.CallKeeps | mem_overflow/test/8139too.c:1943-2047 | a call, with the chip at work meanwhile, takes only good entries, in order, and ends for exactly the stated reasons |
| RxRuns.CallIsLoop | mem_overflow/test/8139too.c:1943-2027 | the driver's loop on what it sees is that call |
| RxRuns.DeliveredInOrder | mem_overflow/test/8139too.c:1930-2047 | over every run, with frames arriving at any time: the entries taken are the first ones written, and if every buffer was found exactly their payloads have been handed on, in order |
| RxRuns.NothingLost | mem_overflow/test/8139too.c:2001-2019 | as long as every allocation succeeds nothing taken is lost |
| RxRuns.QuietCallIsPoll | mem_overflow/test/8139too.c:1930-2047 | while the chip is quiet, a call is the operation `Poll` on the queue of unread entries, with its counters and its timeout |

## Left out

- Handlers of the page log are atomic steps. In the source a handler takes its locks for parts of
  its body only. Of the places where that matters, lines 590-591 of `huawei_log_page.c`, which read the
  end page of a record just put back, have their exact condition in `RecordReuse.ReadRightExactly`.
- PageLogger.Logger.Free: does not model orders of 31 and more, for which the shift in the source is undefined.
- Red-black recolouring and rotation: any function that keeps the in-order sequence, which may differ from step to step.
- The pool of stack-trace buffers (`alloc_st`, `free_st`), which is assumed to have a buffer for every handler.
- LogProtocol: unregistration of the probes and module exit; a failing registration.
- What the probed kernel functions pass as second argument: the probe of `free_hot_cold_page` takes it
  for an order and may forget more pages than are freed, so no claim is made that every allocated page stays logged.
- `get_nr_pages`, allocation of the pool, and the printing functions of the page log.
- Insertion into and removal from the priority search tree: the kernel does both.
- In `rmap.c`: `pid_arr`, `check_exist`, `insert_arr`, the list of tasks and its printing, anonymous pages, the locks around the walk.
- Guard wrappers: failing inner allocations (the wrappers return without undoing the outer one), freeing
  NULL (which does nothing) or a pointer that is not live, and the proc file.
- GuardList.Guard.Alloc: does not model overflow of sizes and orders in machine arithmetic.
- GuardSim.SameOutput: does not compare runs with underruns, which only the two-zone module can see, nor with writes past the shorter trailing zone.
- PageWalk: raw bits of page-table entries; an entry is its present bit, its large bit and its frame
  number. A table the memory map does not hold reads as empty. Reference counts and locks of address spaces.
- TxRing: packets of `TX_BUF_SIZE` bytes and more, for which the copy would leave the buffer (the source no longer drops them).
  The steps transmit, interrupt and timeout are atomic; memory barriers and checksums are not modelled.
- RxDriver.Receiver.Rx: does not model a chip that writes within a round, or time that passes within a call.
- RxRuns.ChipKeeps: models the chip as the driver expects it: headers in front of frames, next frame at the
  round-up to four, frames dropped when there is no room, and a restart at the beginning of the ring after a reset.
- Wrap-around of the time, the older reset sequence (`CONFIG_8139_OLD_RX_RESET`), and the 64K ring.
- Register access, EEPROM, MDIO, ethtool, PCI, power management and tuning in `8139too.c`, and the second copy of that driver.
- Output formatting (`printk`, `seq_file`), threads and sleeping.
