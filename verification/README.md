# Proofs for the flash translation layer and its neighbours

This project models the parts of NVMeVirt / ConZone and of the vendored f2fs-tools whose correctness is hardest to
see from the code, and proves what they are for. `dafny verify dfyconfig.toml` checks all of it.

**The page-mapped translation layer** (`conv_ftl.c`, `pqueue/pqueue.c`). `LogMachine` describes the device as lines
that are logs of pages, with total steps and a flag `dry` that records an empty free list; `FtlInvariant`, `FtlGc` and
`FtlRuns` prove that garbage collection is invisible, that the credit scheme keeps enough room, and that every run of
host writes reads back what was written last. `FtlCapacity`, `FtlDeads` and `FtlBound` prove where the scheme stops
working: which hosts find the free list empty, with dead pages counted line by line, whatever victims are chosen.
`FtlAdvertised` asks the same of the namespace size that `conv_init_namespace` offers. `Geometry` has the
page addresses and the order of the write pointer. `PQueue` is the indexed heap. `ConvFtl` is a class with the
fields of `struct conv_ftl` whose methods update them in place, statement by statement; `FtlSnap`, `GcVisit` and
`GcSnap` tie these fields to the log machine, `FtlFacts` reads the invariant back off the tables. `HostQueue` is the
dispatch loop of a submission queue (`io.c`) on top of the class: round after round the tables hold what was last
written.

**ConZone** (`zms_read_write.c`): `ZmsAddress` has the two page walks, the O(1) jump, lines and flat page indices;
`L2pCache` the array-linked LRU cache shared by two namespaces.

**Timing** (`channel_model.c`, `ssd.c`): `ChannelLane` has the timeline of a channel as a value, what a request takes
from it and when it is answered, and a transfer in pieces; `ChannelModel` is the ring of credits that stands for it,
`PlaneSchedule` the plane's preemptive command queue on top of it.

**The I/O work queue** (`io.c`): `WorkQueue` has the two index-linked lists over one array; enqueue, one visit of the
worker, and reclaim are atomic steps that interleave in any order, with the worker standing anywhere in its pass.

**Zones** (`zns_mgmt_send.c`, `zns_ftl.h`, `zns_write_check`): `ZoneResources` follows section 2.1.1 of the NVM Express
Zoned Namespace Command Set Specification 1.1a as far as the code does.

**f2fs-tools**: `RedBlack`, `DictLinks` and `Dict` are the red-black tree of `dict.c`: trees as values, the linked
records they stand for, and the operations on the records. `QuotaBlocks`, `QuotaStore`, `QuotaRefs` and `QuotaTree`
are the on-disk quota radix tree: words of a block, blocks outside the tree, the tree, and the operations.
`NodePaths` has the numbering of inode block paths.

How to read the contracts. A method whose state is large promises `Fields() == AfterX(old(Fields()))` or a relation on
`St()`, `View(...)` or a ghost list, and lemmas prove what that does to the invariant. `hide` only keeps definitions
away from a proof that does not need them. Corollaries that read an invariant back (`FtlInvariant.OpenPagesAreFree`,
`FtlInvariant.FundedHasFreeLine`, `PlaneSchedules.OvertakingKeeps`, `PlaneSchedules.NoMigration`,
`ChannelModel.NoSlotOverdrawn`) have no row of their own below.

What was found to be false as a general claim, with the exact condition instead:

- The free list does run dry without a bound on the workload. Every device is safe for hosts that touch at most all
  pages but four lines of them (`FtlRuns.RunsAreCorrect`). One page more and some host finds the free list empty, whatever
  victims the heap picks (`FtlBound.DryRun`), so the bound is exact (`FtlBound.BoundIsExact`) on every device that is
  `Wide`: at least 17 lines of at least 5 pages, or fewer lines of more pages, down to 11. For smaller devices the two
  proved sides are the safe bound and `FtlCapacity.FillingRunsDry`, by which filling all lines but two with different
  pages has the list come back empty one line of writes later; what happens between the two is not claimed.
- The namespace a drive offers is not always safe. It is exactly when the raw size is below a limit that depends on how
  much is lost in rounding blocks down to one-shot pages (`FtlAdvertised.AdvertisedSafeExactly`). Sizes that lose nothing
  pass from 62 lines on, and blocks of at least 15 one-shot pages from 1284 lines on; a 970 PRO on 32 GiB of reserved
  memory does not, offers more pages than its flash has, and can be run dry from inside its namespace
  (`FtlAdvertised.ThirtyTwoGiBRunsDry`).
- The O(1) jump equals the step-by-step walk exactly when a block's used pages are whole flash pages.
- Flat page indices are unique exactly when no two groups drift into each other (`GroupsApart`) or the namespace has at
  most one wordline; the groups stay apart when `line_groups` divides the wordlines of a block.
- A dquot entry is read back as written except for id 0 with nothing but an inode grace time of 1
  (`QuotaBlocks.EntryRoundTrip`), a dquot that commit deletes anyway.
- `pqueue_insert` writes past its array when the queue is full; the translation layer never fills it
  (`FtlFacts.CountersAddUp`).

## Model

| member | source | states |
|---|---|---|
| FtlRuns.RunsAreCorrect | conv_ftl.c:81-96 | over every run of host writes from power-up that touches at most as many distinct pages as all lines but four hold: the free list is never found empty (also inside a collection), the invariant with its credit inequality holds, every page reads back its last write, and exactly the written pages are mapped |
| FtlRuns.WriteKeeps | conv_ftl.c:952-994 | one host write with all garbage collection it triggers keeps the invariant, changes what the host reads at its own page only, and maps that page |
| FtlRuns.OneMoreWrite | conv_ftl.c:952-993 | before a write there is room for it, and if it uses up the credits there is room for a whole collection afterwards |
| FtlRuns.RefillKeeps | conv_ftl.c:88-96 | out of credit, either enough free lines or one collection funds the next refill, and the host sees nothing of it |
| FtlRuns.VictimExists | conv_ftl.c:627-648 | when the free list is at its threshold and more than four lines' worth of pages are unmapped there is a line to collect |
| FtlRuns.VictimOrRoom | conv_ftl.c:627-648 | with exactly four lines' worth unmapped there is one too, or room for the next refill without it |
| FtlRuns.FullLinesAreMapped | conv_ftl.c:237-254 | every page of a full line is some logical page's only copy, so that many logical pages are mapped |
| FtlRuns.InitHolds | conv_ftl.c:313-339 | a freshly initialised device meets the invariant when it has at least four lines |
| FtlBound.BoundIsExact | conv_ftl.c:81-96 | on every wide device no host of so many pages, counted or named, ever finds the free list empty exactly when the pages are at most those of all lines but four |
| FtlBound.DryRun | conv_ftl.c:155-169 | with one page more than that there is a run from power-up, inside those pages, that ends with an empty free list |
| FtlBound.EveryDeviceIsDoomed | conv_ftl.c:627-648 | and it needs no luck: the host has a next write that leads there whichever of the best victims was taken |
| FtlBound.EndGame | conv_ftl.c:735-804 | short of room by all but four pages of a line, a host that spreads its writes over lines with few dead pages makes a collection find no line |
| FtlBound.DoomedRunsDry | conv_ftl.c:155-169 | a host with such a strategy has a run that ends with an empty free list |
| FtlBound.SeventeenLines | conv_ftl.c:81-96 | 17 lines of 5 pages or more are wide |
| FtlDeads.Overwrite | conv_ftl.c:952-992 | one overwrite: one more dead page in the line of the old one, one more page in the user's line, which is filed among the victims exactly when it is used up with a dead page |
| FtlDeads.Clean | conv_ftl.c:735-795 | one collection: the victim's dead pages are gone and no other line's change, the copies fill GC's line and spill into the next free one |
| FtlDeads.GcRunsDry | conv_ftl.c:735-795 | with no free line and less room in GC's line than the victim has valid pages the collection finds the free list empty |
| FtlAdvertised.OfferFitsExactly | conv_ftl.c:386-388 | no partition is offered more pages than all lines but four hold exactly when the raw size is below the limit of its one-shot pages per block |
| FtlAdvertised.AdvertisedCapacityIsSafe | conv_ftl.c:357-405 | below the limit a host that stays inside the namespace never runs a partition dry and always reads its last writes |
| FtlAdvertised.AdvertisedSafeExactly | conv_ftl.c:357-405 | on wide devices hosts inside the namespace never find the free list empty exactly below the limit |
| FtlAdvertised.FifteenOneshotsPass | ssd.c:183-222 | blocks of at least 15 one-shot pages are below the limit with 1284 lines or more |
| FtlAdvertised.WholeBlocksPass | ssd.c:183-222 | sizes that are whole one-shot pages per block are below the limit with 62 lines or more |
| FtlAdvertised.ThirtyTwoGiBDoesNotPass | ssd.c:183-222 | 32 GiB reserved for a 970 PRO: seven one-shot pages a block instead of eight, and more pages offered than there are |
| FtlAdvertised.ThirtyTwoGiBRunsDry | main.c:486 | so a host of that drive can run it dry without leaving its namespace |
| FtlCapacity.FillingRunsDry | conv_ftl.c:155-169 | on every device, a host whose first writes fill all lines but two with different pages finds the free list empty exactly one line of writes later, whatever these writes are |
| FtlCapacity.FillStep | conv_ftl.c:202-268 | a write to a page never written before kills no page and takes one page of room, and only the very last one finds no line |
| FtlGc.GcTransparent | conv_ftl.c:735-795 | do_gc: the host sees no difference, mappings off the victim stay, those on it move to pages that were free, the victim ends free and unmapped, the room gained is exactly its dead pages, and no line is taken from an empty list |
| FtlGc.GcKeeps | conv_ftl.c:735-795 | the same with just as many free pages as the victim has valid ones |
| FtlGc.CopyPagesKeeps | conv_ftl.c:675-722 | in the middle of a collection, after any part of the cleaning order: all lines but the victim are in place, copied pages are the ones no mapping points to, and the host sees the state from before |
| FtlGc.CopyLiveKeeps | conv_ftl.c:580-625 | copying one valid page: its logical page maps to the fresh copy with a matching record, and the mid-collection invariant holds with the old page added to the copied ones |
| FtlGc.EraseKeeps | conv_ftl.c:724-733 | once every valid page of the victim is copied, erasing it restores the full invariant |
| FtlGc.LiveAmongIsVpc | conv_ftl.c:675-722 | a cleaning order that lists every page once copies exactly as many pages as the line's valid count |
| FtlInvariant.ProgramKeeps | conv_ftl.c:517-538 | programming a page at either write pointer keeps the core invariant, also in the middle of a collection, and costs one page of room |
| FtlInvariant.AdvanceKeeps | conv_ftl.c:202-268 | advancing a write pointer puts the used-up line in its right place (full list or heap) and opens a free line in its stead |
| FtlInvariant.UserWriteKeeps | conv_ftl.c:952-992 | invalidating the old page and programming the new one keeps the core invariant, maps the page, and changes no other page's content |
| FtlFacts.ValidExactlyWhenMapped | conv_ftl.c:470-538 | between commands a page is PG_VALID exactly when it is maptbl of what rmap records for it |
| FtlFacts.MappedIsValid | conv_ftl.c:31-66 | a mapped logical page's page is valid and rmap leads back to it |
| FtlFacts.MappingIsInjective | conv_ftl.c:31-66 | no two logical pages are mapped to one page |
| FtlFacts.FreeFromThePointerOn | conv_ftl.c:202-285 | in the line of either write pointer a page is free exactly when its index is at or after the pointer's |
| FtlFacts.LineAccounting | conv_ftl.c:98-136 | every line is in exactly one of free list, full list, heap and the two write pointers; vpc and ipc count its valid and invalid pages; it is on the full list exactly when all are valid, in the heap exactly when pos is not 0 |
| FtlFacts.CountersAddUp | conv_ftl.c:98-136 | the three line counters and the two open lines add up to all lines, so the heap is never full |
| Geometry.PgIdxInjective | conv_ftl.c:37-51 | two valid addresses with the same ppa2pgidx are the same address |
| Geometry.PgIdxBound | conv_ftl.c:37-51 | ppa2pgidx of a valid address is below tt_pgs |
| Geometry.NextPpaRaisesIndex | conv_ftl.c:202-268 | the next page has the linear index (wordline, lun, channel, page) one higher, and the line ends exactly at its last index |
| Geometry.IndexOfPpaAt | conv_ftl.c:202-268 | every index below pgs_per_line belongs to exactly one valid page of the line |
| GcVisit.GcOrderOk | conv_ftl.c:752-789 | the loops of do_gc visit every page of the line exactly once |
| ConvFtl.ConvFtl.constructor | conv_ftl.c:313-339 | tables, lines and write pointers after conv_init_ftl represent the initial device |
| ConvFtl.ConvFtl.MarkPageInvalid | conv_ftl.c:470-515 | page, block and line counters, list moves and heap position after a page died, and nothing else |
| ConvFtl.ConvFtl.PutPage | conv_ftl.c:517-538 | map, reverse map, page status and counters after a page was put at a write pointer, and nothing else |
| ConvFtl.ConvFtl.GetNextFreeLine | conv_ftl.c:155-169 | takes the first line of the free list, or answers that there is none and changes nothing |
| ConvFtl.ConvFtl.AdvanceWritePointer | conv_ftl.c:202-268 | the pointer moves to the next page; at the end of a line the line is filed and the first free line opened |
| ConvFtl.ConvFtl.WriteOnePage | conv_ftl.c:952-992 | the in-place code of one write round is the log machine's user write |
| ConvFtl.ConvFtl.GcWritePage | conv_ftl.c:580-625 | one more page of the victim copied: the fields represent the machine one copying step further |
| ConvFtl.ConvFtl.CleanOneFlashpg | conv_ftl.c:675-722 | all pages of one flash page of the victim cleaned, valid ones copied |
| ConvFtl.ConvFtl.MarkBlockFree | conv_ftl.c:540-559 | all pages of the block free, its counters zero, one more erase for it and for no other block |
| ConvFtl.ConvFtl.SelectVictimLine | conv_ftl.c:627-648 | nothing when the heap is empty or its best line has more than an eighth valid and no force; otherwise a line of least valid count leaves the heap |
| ConvFtl.ConvFtl.MarkLineFree | conv_ftl.c:724-733 | counters zero, line at the end of the free list |
| ConvFtl.ConvFtl.CleanAndFree | conv_ftl.c:752-793 | the nested loops and the erasures are the log machine's collection of the chosen line |
| ConvFtl.ConvFtl.DoGc | conv_ftl.c:735-795 | 0 after collecting a line of least valid count with the credits to refill set to its dead pages, every block of that line and no other erased once more; -1 and no change when there was none worth it |
| ConvFtl.ConvFtl.ForegroundGc | conv_ftl.c:797-804 | collects, with force, exactly when free lines are at the threshold |
| ConvFtl.ConvFtl.CheckAndRefillWriteCredit | conv_ftl.c:88-96 | collects and adds credits exactly when none are left |
| ConvFtl.ConvFtl.ConvWrite | conv_ftl.c:906-1006 | refused without any change beyond the table or without buffer room; otherwise every page of the command holds its data, every other page reads as before, and the invariant holds again |
| HostQueues.ProcIoSq | io.c:530-560 | from one doorbell to the next: commands are taken around the ring up to the first refused one, the new position says which, and the device then has mapped exactly the pages ever written, keeps its invariant and reads back the newest data of the whole history |
| HostQueues.ProcIoCmd | conv_ftl.c:1027-1052 | the same for one command: writes and reads are accepted or refused, other commands change no table |
| HostQueues.RemembersStep | conv_ftl.c:952-994 | storing a command's pages makes the newest data of the history those of the history with the command's writes appended |
| HostQueues.PoweredUpRemembers | conv_ftl.c:313-339 | and a device after conv_init_ftl reads back the empty history |
| PriorityQueues.PQueue.Insert | pqueue/pqueue.c:104-118 | heap order and positions hold, exactly the new element is added, positions of elements outside are untouched |
| PriorityQueues.PQueue.Pop | pqueue/pqueue.c:156-168 | an element of smallest priority is taken out, nothing on an empty queue |
| PriorityQueues.PQueue.Peek | pqueue/pqueue.c:170-178 | an element of smallest priority, nothing on an empty queue |
| PriorityQueues.PQueue.Remove | pqueue/pqueue.c:144-153 | exactly the given element is taken out, order and positions hold |
| PriorityQueues.PQueue.ChangePriority | pqueue/pqueue.c:131-142 | the element's priority changes, order and positions hold, the elements are the same |
| PriorityQueues.PQueue.BubbleUp | pqueue/pqueue.c:56-70 | mends an edge into the start slot, keeping the elements |
| PriorityQueues.PQueue.PercolateDown | pqueue/pqueue.c:87-101 | mends the edges out of the start slot, keeping the elements |
| PriorityQueues.RootIsLeast | pqueue/pqueue.c:170-178 | in heap order the first slot holds a minimum |
| PriorityQueues.SubtreeIsValidCorrect | pqueue/pqueue.c:225-242 | the recursive check answers exactly whether every edge of the subtree is in order |
| PriorityQueues.IsValidDecidesHeap | pqueue/pqueue.c:244-247 | at the root it decides the heap order of the whole queue, empty ones included |
| ZmsAddress.JumpEqualsWalkExactly | zms_read_write.c:1017-1100 | get_advanced_ppa_fast equals that many steps of nextpage_interleave from every page and for every distance, unmapped results included, exactly when used_pgs is a multiple of pgs_per_flashpg |
| ZmsAddress.JumpIsWalkInBlock | zms_read_write.c:1017-1100 | on a sub-line the jump equals the steps of nextpage_normal without conditions |
| ZmsAddress.NextpageInterleave | zms_read_write.c:880-932 | the in-place carry code moves to the page of the next index in walking order, or out of the block |
| ZmsAddress.NextpageNormal | zms_read_write.c:934-946 | the next page of the block, unmapped at its end |
| ZmsAddress.LineWalkedOnce | zms_read_write.c:358-389 | from get_first_page the walk meets every page of the line exactly once in pgs_per_line steps, get_line maps each back to the line, and then the walk ends |
| ZmsAddress.PgidxInjectiveExactly | zms_read_write.c:150-173 | ppa_2_pgidx tells all pages of the namespace apart exactly when no two groups drift into each other or there is at most one wordline |
| ZmsAddress.DividedGroupsApart | zms_read_write.c:150-173 | which holds when line_groups divides the wordlines of a block |
| L2pCaches.L2pCache.constructor | ssd.c:100-127 | empty slots, no page indexed |
| L2pCaches.L2pCache.Access | zms_read_write.c:611-643 | the entry becomes the most recently used of its slot, index -1 changes nothing |
| L2pCaches.L2pCache.Replace | zms_read_write.c:551-609 | under LRU the least recently used entry that is not resident now caches the page and is the most recent; -1 and no change exactly when all are resident |
| L2pCaches.L2pCache.Insert | zms_read_write.c:645-671 | an unused entry while there is one, the victim's otherwise; the list stays the recency list |
| L2pCaches.L2pCache.InsertAndRecord | zms_read_write.c:3086-3114 | the page is cached with the granularity and residency asked for, as the most recently used of its slot, and only links of other entries change; -1 and no change exactly when the slot is full and nothing in it may be evicted; indices and entries of both namespaces agree again |
| L2pCaches.L2pCache.SetMapGran | zms_read_write.c:1281-1300 | a page not cached is inserted likewise; of a cached one exactly granularity and residency are set |
| L2pCaches.L2pCache.SetIndex | zms_read_write.c:530-538 | the index is stored, out of range changes nothing |
| L2pCaches.RecencyOrder | zms_read_write.c:611-643 | earlier in the recency list means last used earlier |
| L2pCaches.VictimIsOldest | zms_read_write.c:562-574 | the walk from the head stops at the oldest entry that is not resident, and finds none exactly when all are |
| L2pCaches.IndexExactlyWhenHeld | zms_read_write.c:530-549 | a page's index is i, not -1, exactly when entry i of its slot holds that page of that namespace |
| ChannelModels.ChannelModel.constructor | channel_model.c:16-29 | every slot of the timeline has all its credits |
| ChannelModels.ChannelModel.MoveClock | channel_model.c:44-70 | slots that have passed leave the ring, the timeline from now on is unchanged |
| ChannelModels.ChannelModel.Request | channel_model.c:31-118 | the ring does to the timeline what `Ask` does to its value, with the answer of `Ask`, from the slots as they stand when the clock is read |
| ChannelModels.ChannelModel.LaneIsTimeline | channel_model.c:44-70 | that value is the timeline from now to the end of the ring, and every slot beyond has all its credits |
| ChannelLanes.IdleChannel | channel_model.c:106-118 | on an idle channel a request is answered after its bare transfer time, whatever its size |
| ChannelLanes.BehindBusySlots | channel_model.c:80-118 | behind j used-up slots it waits for j slots, or one less when it uses its last slot to the full |
| ChannelLanes.StopIsFirstEnough | channel_model.c:84-104 | the draining stops at the first slot up to which there are credits enough |
| ChannelLanes.AskTakes | channel_model.c:80-104 | no slot before the request's own changes, and the credits left are what there was less exactly those of the request |
| ChannelLanes.Units | channel_model.c:39 | the smallest number of transfer units that hold the bytes |
| ChannelLanes.DrainConserves | channel_model.c:84-104 | credits taken and credits left add up, and something stays unmet only when every slot is empty |
| ChannelLanes.DrainShape | channel_model.c:84-104 | slots before the last one used are empty, slots after it are untouched |
| PlaneSchedules.NandPlane.GetStime | ssd.c:742-789 | completed commands leave; a command that does not migrate takes the place and start of the first migration command of another block that has not started, any other waits until the plane is free; never before its arrival |
| PlaneSchedules.NandPlane.Update | ssd.c:791-825 | every command behind an overtaking one is delayed by exactly its duration, and the plane's next free time is at or after every completion |
| PlaneSchedules.NandPlane.Read | ssd.c:866-905 | the queue stays sorted without overlaps, the command enters at the place and start that what was pending at its arrival decides and keeps the plane for the array time and then the pieces of its transfer, which take their credits from the channel and, with overlap only, from the host's link |
| ChannelLanes.Uncontended | ssd.c:884-899 | when every slot could serve the whole transfer it takes exactly the transfer time of all its pieces, and the channel gives up exactly their credits, none before the start |
| ChannelLanes.WholeUnits | ssd.c:884-899 | pieces of whole units have the units of the whole |
| ChannelLanes.WithoutOverlap | ssd.c:888-893 | without overlap the host has the data when the channel is done, and its link is not used |
| ChannelLanes.WithOverlap | ssd.c:888-893 | with overlap it is the link's answer for the last piece, asked when the channel is done with it |
| PlaneSchedules.NandPlane.Write | ssd.c:907-926 | the same for a write, complete the array time after the channel's answer to its one request |
| PlaneSchedules.NandPlane.Erase | ssd.c:928-942 | the same for an erase, for exactly the erase time |
| PlaneSchedules.NandPlane.Nop | ssd.c:944-956 | no command; the answer is when the plane is free, not before the arrival, and the plane counts as busy until then |
| PlaneSchedules.BusyConserved | ssd.c:791-825 | scheduling adds the command's own time and changes nobody's duration |
| WorkQueues.IoWorker.constructor | io.c:773-803 | all entries free, the io list empty |
| WorkQueues.IoWorker.Enqueue | io.c:331-408 | dropped without change when one free entry is left; otherwise the head of the free list enters the io list at its place |
| WorkQueues.IoWorker.InsertReqSorted | io.c:262-306 | linked in behind the last request that is due already or not later than it |
| WorkQueues.IoWorker.Visit | io.c:642-729 | an uncompleted request is copied, and completed exactly when it is due, no request twice, wherever the worker stands; no other entry changes, and the worker goes on to the next link |
| WorkQueues.IoWorker.Pass | io.c:634-729 | a whole pass visits every request of the list once, each at its own clock reading |
| WorkQueues.IoWorker.Settle | io.c:410-459 | once all requests are due, a pass and a reclaim after it complete every issued request and give every entry back |
| WorkQueues.IoWorker.EnqueuedMeans | io.c:331-408 | the new entry waits with its target, uncompleted, copied only when it is internal, and of the others only links changed |
| WorkQueues.IoWorker.Reclaim | io.c:410-459 | exactly the longest finished prefix of the io list joins the end of the free list, in order |
| WorkQueues.IoWorker.NothingLost | io.c:618-771 | every issued request was completed, once, or still waits on the io list |
| WorkQueues.InsertKeepsOrder | io.c:262-306 | i before j means target of i is at most the larger of target of j and the latest clock reading so far, and equal targets are first come first served |
| WorkQueues.EnqueueKeeps | io.c:308-371 | after an enqueue free list and io list still partition the array, doubly linked, with history and worker position intact |
| WorkQueues.ReclaimKeeps | io.c:410-459 | the same after a reclaim, also when the worker stands on an entry that was reclaimed |
| ZoneResources.ZnsFtl.Close | zns_mgmt_send.c:7-29 | an open zone becomes closed and gives back one open resource, a closed one stays, any other is refused without change |
| ZoneResources.ZnsFtl.Finish | zns_mgmt_send.c:31-64 | open, closed, empty and full zones become full and give back what they hold, read-only and offline ones are refused |
| ZoneResources.ZnsFtl.Open | zns_mgmt_send.c:66-106 | an empty, closed or open zone becomes explicitly open and takes what it lacks; which refusal is answered, in the code's order, and that it changes nothing |
| ZoneResources.ZnsFtl.Reset | zns_mgmt_send.c:133-163 | every zone but a read-only or offline one becomes empty, its write pointer at its start, and gives back what it holds |
| ZoneResources.ZnsFtl.TakeOffline | zns_mgmt_send.c:165-182 | a read-only zone goes offline, an offline one stays, any other is refused |
| ZoneResources.ZnsFtl.FlushExplicitZrwa | zns_mgmt_send.c:184-234 | the write pointer moves behind the block, and a zone flushed to its end becomes full and gives back what it holds; which refusal is answered |
| ZoneResources.ZnsFtl.Send | zns_mgmt_send.c:236-264 | the action on the zone the address lies in, all counts still the numbers of zones that hold the resource |
| ZoneResources.ZnsFtl.SendAll | zns_mgmt_send.c:266-291 | every zone in turn, each seeing the resources earlier ones freed or took; after closing all no zone is open and no open resource is held, after finishing or resetting all no resource at all, and what became of every zone |
| ZoneResources.ZnsFtl.WriteCheck | zms_read_write.c:2461-2532 | which refusal is answered; an accepted write opens an empty or closed zone implicitly, leaves an open one as it is open, advances the write pointer, and fills the zone and gives back its resources at its end |
| ZoneResources.ZoneChange | zns_ftl.h:292-326 | when one zone changes and the resources move with it, OPEN, ACTIVE and ZRWA counts are still the numbers of zones holding them, within their totals, and no release underflows |
| ZoneResources.ResetAllEmpties | zns_mgmt_send.c:266-291 | resetting all zones empties every zone that is not read only or offline |
| ZoneResources.CloseAllCloses | zns_mgmt_send.c:266-291 | closing all zones closes exactly the open ones |
| ZoneResources.FinishAllFills | zns_mgmt_send.c:266-291 | finishing all zones fills every zone that is not read only or offline |
| ZoneResources.OfflineAllTakes | zns_mgmt_send.c:266-291 | taking all zones offline takes exactly the read-only ones |
| ZoneResources.OpenAllOpens | zns_mgmt_send.c:266-291 | opening all zones: open ones end explicitly open, read-only, full and offline ones stay, and a closed or empty zone is refused only when a total it needs is used up, also at the end |
| ZoneResources.OpenAllCount | zns_mgmt_send.c:266-291 | and as many zones are open afterwards as the two totals and the zones that can be opened allow, unless the random write areas asked for ran out first |
| NodePaths.GetNodePath | f2fs-tools-1.14.0/fsck/node.c:117-189 | answers exactly for blocks in range; offset[] holds the slots of the path and noffset[] the numbers of its nodes |
| NodePaths.RoundTrip | f2fs-tools-1.14.0/fsck/dump.c:538-558 | first block of the leaf's number plus the place in the leaf is the block, for all layouts |
| NodePaths.PathKinds | f2fs-tools-1.14.0/fsck/node.h:112-126 | IS_DNODE holds for the inode and the leaf of a path and for no indirect node on it |
| NodePaths.NumberKind | f2fs-tools-1.14.0/fsck/node.h:112-126 | IS_DNODE of a node's number tells exactly whether the node holds block addresses |
| NodePaths.NumberInjective | f2fs-tools-1.14.0/fsck/node.c:117-189 | different nodes have different numbers |
| Dict.Dict.constructor | f2fs-tools-1.14.0/fsck/dict.c:324-338 | an empty dictionary: the sentinel linked to itself and black |
| Dict.Dict.Insert | f2fs-tools-1.14.0/fsck/dict.c:543-632 | the node stands after all keys not greater and before all greater ones, other nodes keep keys and order, the count is one more, and the records are again a linked red-black tree in key order |
| Dict.Dict.Lookup | f2fs-tools-1.14.0/fsck/dict.c:439-470 | the first node in order with the key, also among duplicates; 0 exactly when no node has it |
| Dict.Dict.First | f2fs-tools-1.14.0/fsck/dict.c:838-847 | the first node in order, 0 when empty |
| Dict.Dict.Next | f2fs-tools-1.14.0/fsck/dict.c:870-888 | the node after it in order, 0 for the last |
| Dict.Dict.Repair | f2fs-tools-1.14.0/fsck/dict.c:581-628 | from a tree with one red-red edge to a tree without, same nodes in the same order |
| Dict.Dict.FixLeft | f2fs-tools-1.14.0/fsck/dict.c:596-606 | red parent on the left and black uncle: the records are linked as the rotated tree, order unchanged |
| Dict.Dict.FixRight | f2fs-tools-1.14.0/fsck/dict.c:617-626 | the mirror image |
| Dict.Dict.RotateLeft | f2fs-tools-1.14.0/fsck/dict.c:83-104 | the assignments of rotate_left as one function of the records |
| Dict.Dict.RotateRight | f2fs-tools-1.14.0/fsck/dict.c:111-130 | the assignments of rotate_right as one function of the records |
| DictLinks.RotateLeftLinks | f2fs-tools-1.14.0/fsck/dict.c:83-104 | on records linked like a tree, rotate_left gives the records of the rotated tree: same order, parent and child pointers agreeing through the sentinel, keys untouched |
| DictLinks.RotateRightLinks | f2fs-tools-1.14.0/fsck/dict.c:111-130 | the same for rotate_right |
| DictLinks.UncleRedLinks | f2fs-tools-1.14.0/fsck/dict.c:587-594 | painting parent, uncle and grandparent gives the records of the recoloured tree |
| DictLinks.LinkNew | f2fs-tools-1.14.0/fsck/dict.c:570-581 | the new node is linked as a red leaf in the place found |
| Dict.Dict.PassesVerify | f2fs-tools-1.14.0/fsck/dict.c:381-406 | the colour checks of dict_verify pass between operations, and no node occurs twice |
| RedBlack.RecoloredFocus | f2fs-tools-1.14.0/fsck/dict.c:587-594 | after recolouring black heights agree, order is unchanged, and only the edge two levels up can be red-red |
| RedBlack.RotatedFits | f2fs-tools-1.14.0/fsck/dict.c:596-606 | after the rotations there is no red-red edge, black heights agree and order is unchanged |
| RedBlack.PlugKeepsColors | f2fs-tools-1.14.0/fsck/dict.c:581-630 | a fitting subtree in a fitting context gives a tree without red-red edge and with equal black heights |
| RedBlack.VerifyDecides | f2fs-tools-1.14.0/fsck/dict.c:188-211 | verify_redblack returns h exactly for trees of black height h without red-red edge |
| QuotaTree.QuotaFile.constructor | f2fs-tools-1.14.0/fsck/quotaio_v2.c:237-270 | a new file holds no dquot |
| QuotaTree.QuotaFile.BlocksSplit | f2fs-tools-1.14.0/fsck/quotaio_tree.c:90-191 | between operations blocks 2 to dqi_blocks-1 are inner nodes, data blocks or free blocks, each exactly one; the free list is acyclic; a data block is on the doubly linked list exactly when it is not full; headers count entries in use |
| QuotaTree.QuotaFile.CommitDquot | f2fs-tools-1.14.0/fsck/quotaio_v2.c:300-312 | seen as a map from ids to dquots, the file has exactly this id stored, or deleted when the dquot is a fake one; every other id is unchanged, and blocks, lists and tree are sound again; the file grows only when every freed block is in use again, by what the free list could not supply |
| QuotaTree.QuotaFile.ReadDquot | f2fs-tools-1.14.0/fsck/quotaio_tree.c:516-554 | the stored dquot and its offset, or an empty dquot with offset 0 exactly when the id is not stored |
| QuotaTree.QuotaFile.WriteDquot | f2fs-tools-1.14.0/fsck/quotaio_tree.c:320-361 | the id's entry holds the dquot, a new id gets an entry first, nothing else changes; exactly the nodes missing on its way and, when no data block has room, one data block are taken, from the free list first |
| QuotaTree.QuotaFile.DeleteDquot | f2fs-tools-1.14.0/fsck/quotaio_tree.c:445-452 | exactly this id goes; the nodes that became empty and its data block when that is empty come to the front of the free list, and the file keeps its length |
| QuotaTree.QuotaFile.BlocksConserved | f2fs-tools-1.14.0/fsck/quotaio_tree.c:90-133 | nodes, data blocks and free blocks together are always the file behind its first two blocks: none is lost |
| QuotaTree.QuotaFile.DoInsertTree | f2fs-tools-1.14.0/fsck/quotaio_tree.c:252-304 | the id's missing nodes and its leaf join the tree below this depth, nodes above still say what they said, no entry of another dquot changes |
| QuotaTree.QuotaFile.FindFreeDqentry | f2fs-tools-1.14.0/fsck/quotaio_tree.c:194-249 | the lowest unused entry of the first block with room, or of the next free block when there is none, is counted for the id; a block that becomes full leaves the list of blocks with room |
| QuotaTree.QuotaFile.RemoveTree | f2fs-tools-1.14.0/fsck/quotaio_tree.c:406-442 | the id's leaf and exactly the nodes that became empty leave the tree and are freed, the root excepted |
| QuotaTree.QuotaFile.FreeDqentry | f2fs-tools-1.14.0/fsck/quotaio_tree.c:364-403 | the entry is zeroed and counted down; the last one takes the block off the list and frees it, one of a full block puts it at the head of the list |
| QuotaTree.QuotaFile.GetFreeDqblk | f2fs-tools-1.14.0/fsck/quotaio_tree.c:90-118 | the head of the free list while there is one, the file keeping its length, otherwise the one new block past the end; blocks stay split into nodes, data and free ones |
| QuotaTree.QuotaFile.PutFreeDqblk | f2fs-tools-1.14.0/fsck/quotaio_tree.c:121-133 | the block is the head of the free list |
| QuotaTree.QuotaFile.FindTreeDqentry | f2fs-tools-1.14.0/fsck/quotaio_tree.c:481-504 | the offset of the id's entry, 0 exactly when it is not stored |
| QuotaTree.QuotaFile.FindBlockDqentry | f2fs-tools-1.14.0/fsck/quotaio_tree.c:455-478 | the first entry in use that names the id, the end of the entries when none does |
| QuotaStore.RemoveEntryKeeps | f2fs-tools-1.14.0/fsck/quotaio_tree.c:136-166 | unlinking any block of the doubly linked list of blocks with room leaves such a list of the others, and touches links only |
| QuotaStore.InsertEntryKeeps | f2fs-tools-1.14.0/fsck/quotaio_tree.c:169-191 | putting a block in front gives such a list |
| QuotaStore.ReleaseLast | f2fs-tools-1.14.0/fsck/quotaio_tree.c:382-384 | a block whose header counts one entry holds no other dquot's entry |
| QuotaStore.PutBlock | f2fs-tools-1.14.0/fsck/quotaio_tree.c:121-133 | freeing a block keeps the free list acyclic and disjoint from nodes and data blocks |
| QuotaRefs.GrownKeys | f2fs-tools-1.14.0/fsck/quotaio_tree.c:252-304 | after an insertion the tree holds the prefixes of the stored ids and no others |
| QuotaRefs.ShrunkKeys | f2fs-tools-1.14.0/fsck/quotaio_tree.c:406-442 | and after a removal |
| QuotaBlocks.EntryRoundTrip | f2fs-tools-1.14.0/fsck/quotaio_v2.c:48-88 | a written entry never looks unused, and reading gives back id and dquot exactly unless it is id 0 with nothing but an inode time of 1 |
| QuotaBlocks.PathInjective | f2fs-tools-1.14.0/fsck/quotaio_tree.c:52-55 | different ids take different ways through the tree |
| QuotaBlocks.FromBytes | f2fs-tools-1.14.0/fsck/quotaio_tree.c:52-55 | the way of an id is its bytes, the highest first |
| QuotaBlocks.EntryLayout | f2fs-tools-1.14.0/fsck/quotaio_v2.h:39-52 | the bytes of an entry that hold each limit, usage and time, little-endian |
| QuotaBlocks.BlockLayout | f2fs-tools-1.14.0/fsck/quotaio_tree.h:28-36 | the bytes of a block that hold its header, its references and the words of its entries |

## Left out

- Conventional layer: one partition, one plane per LUN, `line_groups` 1, and a line of `nchs * luns_per_ch * pgs_per_blk` pages; ZNS_PROTOTYPE line sizes are not part of this model.
- Conventional layer: `conv_read` and all latencies; garbage collection reads (`gc_read_page`) only take time and change nothing modelled.
- ConvFtl.ConvFtl.ConvWrite: whether the write buffer has room is an input, and the completion times and their scheduling are left out.
- Conventional layer: nand pages and blocks are maps from addresses, the per-line fields are sequences by line, and the host's data is a ghost map, because the program keeps no copy of it in the translation layer.
- FtlRuns.RunsAreCorrect: is about the log machine; `ConvWrite` proves page by page that the class takes exactly its steps, and `HostQueues.ProcIoSq` says it of the class over all commands.
- FtlBound.BoundIsExact: devices that are not wide are left open between the safe bound and `FillingRunsDry`; the failing side there depends on how few lines the dead pages can be spread over.
- FtlAdvertised.AdvertisedSafeExactly: builds with a fixed number of blocks per plane, LBAs of 512 bytes and pages of 4096, as the conventional drives are configured; a namespace size fixed by the configuration is not part of this model.
- HostQueues.ProcIoSq: one partition, and every command carries what the host stores; statistics, the queue entry and the completion are left out.
- PriorityQueues.PQueue.Insert: a full queue is left out: the source has the growing of the array commented out and writes past its end; the order is fixed to the comparison of victim lines, and elements are handles with their priority and position beside the heap.
- PriorityQueues.PQueue.Remove: the element must be in the queue, as the source requires.
- Integers are unbounded naturals; machine wrap-around is not modelled except where a width decides an answer (bytes of an id, 32-bit halves of 64-bit fields, the 16-bit entry count).
- ZmsAddress.NextpageInterleave: sub-lines of ConZone have another numbering and are not modelled in get_line and ppa_2_pgidx; the `tt_ppns` bound of flat indices is not claimed.
- L2pCaches.L2pCache.Access: whether a hit has the granularity asked for is not checked by the source either and not claimed.
- ConZone garbage collection, migration, reserved lines, write buffers and zone mapping.
- ChannelModels.ChannelModel.Request: one clock reading per request, not before the last one (the wall clock of the dispatching processor; a reading before it would clear the ring); credits are unbounded, so the truncation of a credit to a byte is not modelled and max_credits stays within it.
- PlaneSchedules.NandPlane.Read: an empty transfer, which leaves the source's end time unset; one clock reading for all transfers of a command, PCIe as a second credit ring, latencies by cell type as an input.
- The LUN variants `lun_getstime` and `lun_update`, which repeat the plane's for non-ConZone builds.
- WorkQueues.IoWorker.Visit: the clock may go back between readings; copying data, filling completion entries and interrupts are left out; steps are atomic, weaker memory orders are not modelled.
- WorkQueues.IoWorker.constructor: one worker; choosing a worker by queue is left out.
- ZoneResources.ZnsFtl.Send: an address past the last zone is left out; the source indexes its zone array with it unchecked.
- ZoneResources.ZnsFtl.WriteCheck: an address past the last zone is left out likewise; assumes the random write area is off (its total is 0), as it is configured; writes to the area itself and unknown zone actions are left out.
- ZoneResources.ZnsFtl.Reset: erasing the storage and discarding write buffers of the zone is left out.
- Dict.Dict.Insert: node memory is an array of records and pointers are indices, address 0 being the sentinel; keys are integers compared as such. Deletion, merging and bulk load are not compiled and not modelled.
- QuotaTree.QuotaFile.CommitDquot: reading and writing the file does not fail and allocation succeeds; a dquot's offset is the one it was read with; a stale offset, to which the source writes unchecked, is left out. Dquots are values here, updated dquots are returned.
- QuotaTree.QuotaFile.WriteDquot: stale offsets, likewise.
- QuotaTree.QuotaFile.DeleteDquot: stale offsets, likewise; the source frees the entry there unchecked.
- QuotaTree.QuotaFile.DoInsertTree: error returns for a full device and the report of an entry that is already present are unreachable under these assumptions.
- NodePaths.GetNodePath: `set_nid` and the other updates of node blocks are left out.
- The report and scan functions of the quota file, its header checks, and everything else in f2fs-tools.
