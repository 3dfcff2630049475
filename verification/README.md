# Verified models of the emulator core

Dafny models of the stateful algorithms at the core of this emulator, each with the property it
exists for. The code works by changing things in place, so the models do too: classes with
mutable fields, arrays, and pointer structures whose links are rewired step by step. Each method
is proved against a specification, and the specification carries the theorems.

| files | subject |
|---|---|
| `RamMigration.dfy`, `RamMigrationProof.dfy`, `RamMigrationErrors.dfy`, `RamMigrationImpl.dfy`, `RamMigrationRun.dfy` | live RAM migration (`arch_init.c`) |
| `RedBlackModel.dfy`, `RedBlackTree.dfy` | red-black trees (`sys-tree.h`) |
| `SplayModel.dfy`, `SplayCost.dfy`, `SplayTree.dfy` | splay trees (`sys-tree.h`) |
| `TbJumps.dfy`, `TbIndex.dfy`, `TbBitmap.dfy`, `TbCache.dfy`, `PageMap.dfy` | translated-block cache (`translate-all.c`, `cpu-exec.c`) |
| `KvmSlotModel.dfy`, `KvmSlots.dfy` | KVM memory slots (`kvm-all.c`) |
| `BlockMerge.dfy`, `Multiwrite.dfy`, `BlockBytes.dfy` | block layer (`block.c`) |
| `AioPool.dfy` | thread-pool AIO (`posix-aio-compat.c`) |
| `Tlb.dfy` | software TLB (`cputlb.c`) |
| `QemuFile.dfy`, `QemuFileRoundTrip.dfy`, `Bytes.dfy` | snapshot byte stream (`savevm.c`) |
| `Timers.dfy` | timer lists (`qemu-timer.c`) |
| `RamBlocks.dfy` | RAM block allocation and lookup (`exec.c`) |
| `Collections.dfy` | optional values and sequences, used by the others |

`dafny verify dfyconfig.toml` checks everything.

How the models are built:

- Pointer structures live in a map from pointers to records, held in a field of the class, so
  that every store of the original is one update of that map. A ghost tree, list or ring says
  what the pointers stand for, and frame conditions say which records did not change.
- Backends (the rate limiter, block drivers, stream backends, worker threads, the code generator,
  address translation, timer callbacks) are parameters: functions or scripts that say what they
  answer at each step, short counts and errors included. Each theorem holds for all of them
  unless its row names a condition.
- Aborts and error returns are results of the modelled methods, not preconditions.

Where the code departs from what it is for, the code is kept and the exact condition is proved:

- `multiwrite_merge` cuts the first of two overlapping requests at the start of the second. Data
  is lost exactly where the cut-off part is written by no later request, or where a filled gap
  covers it; non-decreasing end sectors exclude both (`BlockMerge.MergeKeepsByteIff`,
  `BlockMerge.TailIsDropped`, `BlockMerge.MergeKeepsMeaning`).
- The KVM workaround for old kernels keeps the old backing of the slots it passes over; the
  mapping is right exactly if that backing was right before (`KvmSlotModel.ExactIff`,
  `KvmSlotModel.WorkaroundKeepsOldBacking`).
- The comment above `bdrv_aio_multiwrite` lets a failed call leave some requests submitted. The
  code fails only when the very first submission is refused, so that nothing is submitted; a
  later refusal is reported through the callbacks (`Multiwrite.AioMultiwrite`).
- `qemu_fflush` takes any nonnegative count for success, so a short write of the backend loses
  bytes without an error; the stream arrives exactly if no write was short
  (`QemuFile.Writer.Fflush`, `QemuFile.ShortWriteLosesByte`).
- `posix_aio_process_queue` takes the lock anew for each entry, so a request that ends behind its
  back stays listed until the next call; all that had ended when its last pass began are gone
  (`AioPool.Pool.ProcessQueue`, `AioPool.LateEndIsMissed`). A request whose own result is
  -ECANCELED is dropped as if it had been cancelled (`AioPool.FailureIsDropped`).
- Range invalidation visits a block twice if its code runs from the end of a physical page into
  the start of the same page, and fails exactly if the range meets both parts
  (`TbCache.TbCache.InvalidatePhysRange`, `TbCache.WrappedBlockFails`).
- `qemu_run_timers` does not return if a callback keeps arming a timer for a time already due; with
  callbacks that arm for later times only it does (`Timers.FiresForever`,
  `Timers.TimerList.RunTimers`).
- `find_ram_offset` never uses a gap before the first block, only gaps that follow a block.

## Model

| member | source | states |
|---|---|---|
| `RamMigrationProof.MigrationTransfersRam` | arch_init.c:256-462 | For every run of stage 1, any interleaving of guest page writes and stage-2 calls with any number of pages per call, and stage 3: loading the whole stream into a compatible destination ends without error at the end of the stream, with destination RAM equal to source RAM at stage 3 and all other destination blocks untouched; an incompatible destination is refused with -EINVAL and no byte stored. |
| `RamMigrationProof.RunSynced` | arch_init.c:116-179 | Over every continuation of a run the loader, fed the sections as emitted, stays in step: each page is dirty at the source or already equal at the destination. |
| `RamMigrationProof.SendKeepsSync` | arch_init.c:116-179 | Sending one page keeps the invariant "dirty or equal", and the block that CONTINUE will name is the block of the last page sent. |
| `RamMigrationProof.WriteKeepsSync` | arch_init.c:256-342 | A guest write, which marks its page dirty, keeps that invariant. |
| `RamMigrationProof.RunEndsClean` | arch_init.c:256-342 | After a run that ends with a stage-3 call which sent until nothing was sendable no page is dirty, whatever happened before; that the code sends so is part of RamSaveLive and Migrate. |
| `RamMigrationProof.LoadPages` | arch_init.c:383-462 | Loading the records of any sendable sequence of pages gives the destination that has these pages copied, and consumes exactly those records. |
| `RamMigrationProof.LoadRecord` | arch_init.c:426-462 | Loading one encoded page record, compressed or full, with or without CONTINUE, stores that page and leaves the rest of the input. |
| `RamMigrationProof.LoadHeader` | arch_init.c:389-425 | Loading the stage-1 block table succeeds and changes no RAM for a compatible destination, and is refused with -EINVAL for every other. |
| `RamMigrationProof.RejectHeader` | arch_init.c:389-425 | The table is refused for an incompatible destination, before any store; that only these are refused is LoadHeader. |
| `RamMigrationProof.AddrInjective` | arch_init.c:116-179 | Different pages have different ram addresses, so dirty bits are not shared. |
| `RamMigration.SortProperties` | arch_init.c:223-254 | sort_ram_list yields a list ordered by offset with the same blocks, and keeps the block list well formed. |
| `RamMigrationImpl.IsDupPage` | arch_init.c:98-111 | The word-wise scan answers true exactly if every byte of the page equals the given byte. |
| `RamMigrationImpl.RamSender.GuestStore` | arch_init.c:116-179 | A guest store is the write step of the specification: contents replaced, page marked dirty; a migration under way stays under way. |
| `RamMigrationImpl.RamSender.NextDirty` | arch_init.c:116-179 | The do-while walk finds the first dirty page on the round-robin walk from the last page sent, or proves that none is dirty. |
| `RamMigrationImpl.RamSender.RamSaveBlock` | arch_init.c:116-179 | Sends the page that the walk finds and clears its bit; returns 0 exactly when no page is dirty, 1 exactly for a page of equal bytes and 4096 otherwise. What it puts is the word of offset and flags, the block's name unless the block is that of the page before, and the page or its first byte; the walk goes on from there. |
| `RamMigrationImpl.RamSender.SendFound` | arch_init.c:128-161 | The bytes of one page, written out: offset + 0x20 for CONTINUE + 0x02 or 0x08, the name with its length, the data; one byte for a page of equal bytes. |
| `RamMigrationImpl.PageBytesMeaning` | arch_init.c:128-161 | What can be read off those bytes: their number, the word they begin with, the name and the data. |
| `RamMigrationImpl.RamSender.BeginMigration` | arch_init.c:273-301 | The stage-1 prologue writes the block table, marks every page dirty and resets the cursor. |
| `RamMigrationImpl.RamSender.RamSaveLive` | arch_init.c:256-342 | Each call is one step of the specification with the pages it sent, emits that step's bytes, and sends fewer pages than the budget only when nothing is dirty; stage 3 ends with nothing dirty. |
| `RamMigrationImpl.RamSender.RamSave` | arch_init.c:256-342 | ram_save_live with its return value: the cancel stage and a failed dirty-bitmap sync send nothing and change nothing; otherwise the step of the specification, with 1 returned exactly in stage 2 when the rest is expected to fit the allowed downtime. |
| `RamMigrationImpl.RamLoader.HostFromStreamOffset` | arch_init.c:344-372 | Resolves a record's block by CONTINUE or by name exactly as the specification does, on every input. |
| `RamMigrationImpl.RamLoader.CheckTable` | arch_init.c:395-425 | Accepts or refuses a block table exactly as the specification does, on every input. |
| `RamMigrationImpl.RamLoader.LoadOne` | arch_init.c:383-462 | One round of the loader loop equals one step of the specification on every input, valid or not. |
| `RamMigrationImpl.RamLoader.RamLoad` | arch_init.c:374-462 | The loader equals the specification Load on every input, malformed ones and ones that end early included. |
| `RamMigrationImpl.HeaderWord` | arch_init.c:290-301 | The stream begins with a word of the size of all RAM and flag 0x04. |
| `RamMigrationErrors.CutRecord` | arch_init.c:426-462 | A stream that ends inside the flag word or the data of a record of a known block gives -EIO. |
| `RamMigrationErrors.CutSection` | arch_init.c:383-462 | So does one that ends there behind any batch of pages that a sender has sent. |
| `RamMigrationErrors.UnknownBlock` | arch_init.c:344-455 | A record of a block that the destination does not have gives -EINVAL if the page is compressed; a full page is not checked. |
| `RamMigrationRun.Migrate` | arch_init.c:256-462 | The code end to end: a sender with any RAM contents, stage 1, any script of guest stores and stage-2 calls with any page budgets, stage 3, then one ram_load per section. The source RAM ends with the stores of the script applied; a compatible destination ends with that RAM, its other blocks untouched and the stream read to its end; any other is refused with -EINVAL and keeps its RAM. |
| `RamMigrationRun.AppliedIsLatest` | arch_init.c:256-342 | With the stores of a script applied every page holds what was stored there last, or what it held before. |
| `RamMigrationRun.RunSnoc` | arch_init.c:256-342 | A run followed by one more step is a run, with the bytes of that step appended to its stream; so the calls of the code, taken one by one, make up a run. |
| `RedBlackTree.RBTree.RotateLeft` | sys-tree.h:346-364 | The pointer rewiring turns the tree at any place into its left rotation, with all parent links right and other memory untouched. |
| `RedBlackTree.RBTree.RotateRight` | sys-tree.h:366-384 | Mirror image of RotateLeft. |
| `RedBlackTree.RBTree.InsertColor` | sys-tree.h:411-453 | From one red leaf too many, restores all red-black rules and keeps the in-order sequence; terminates. |
| `RedBlackTree.RBTree.RemoveColor` | sys-tree.h:455-531 | From one black level missing below a node, restores all red-black rules and keeps the in-order sequence; terminates. |
| `RedBlackTree.RBTree.Insert` | sys-tree.h:601-629 | Keeps a red-black search tree with consistent parent links; the contents gain exactly the new element, or an element with an equal key is returned and nothing changes. |
| `RedBlackTree.RBTree.Remove` | sys-tree.h:533-599 | Keeps a red-black search tree with consistent parent links; the contents lose exactly the given element. |
| `RedBlackTree.RBTree.Transplant` | sys-tree.h:550-573 | Moves the spliced-out successor into the place of the removed node. |
| `RedBlackTree.RBTree.NFind` | sys-tree.h:650-669 | Returns the first element in key order whose key is at least the given one, or NULL if there is none. |
| `RedBlackTree.RBTree.Next` | sys-tree.h:671-691 | Returns the element that follows in key order, or NULL for the last. |
| `RedBlackModel.HeightBound` | sys-tree.h:57-65 | A red-black tree of n nodes has height at most 2 lg(n + 1). |
| `RedBlackModel.InsRecolorLeft` | sys-tree.h:418-425 | Recolouring below a left-child parent moves the violation two levels up and keeps everything else. |
| `RedBlackModel.InsRotateLeft` | sys-tree.h:426-433 | The final rotation below a left-child parent ends the violation and keeps the in-order sequence. |
| `RedBlackModel.RemRedSibLeft` | sys-tree.h:461-467 | The red-sibling case reduces to a black sibling without changing the order or the deficit. |
| `RedBlackModel.RemRecolorLeft` | sys-tree.h:468-474 | The recolouring case moves the deficit one level up. |
| `RedBlackModel.RemOuterLeft` | sys-tree.h:475-493 | The rotation cases pay back the deficit. |
| `RedBlackModel.InsertContents` | sys-tree.h:601-629 | A leaf put where the descent ends adds exactly one element to a sorted sequence that had no equal key. |
| `RedBlackModel.SuccessorContents` | sys-tree.h:542-581 | Replacing a node by its successor and splicing the successor out removes exactly that node's element. |
| `SplayTree.Head.Splay` | sys-tree.h:213-246 | Top-down splaying terminates, keeps the in-order sequence and the node set, ends with the sought key at the root whenever present and otherwise with a neighbour; its rounds cost at most 6 lg n + 1 and what the potential loses. |
| `SplayTree.Head.StepLeft` | sys-tree.h:223-232 | One zig or zig-zig step to the left keeps the three-part decomposition of the tree, and is the step of the recursive description of splaying. |
| `SplayTree.Head.StepRight` | sys-tree.h:233-243 | Mirror image of StepLeft. |
| `SplayTree.Head.AssembleRoot` | sys-tree.h:116-121 | Putting the two side trees and the middle together yields one tree with the combined order. |
| `SplayTree.Head.Insert` | sys-tree.h:168-190 | Set insertion: adds exactly the new element, or returns the one with an equal key; amortized cost at most 8 lg(n + 1) + 1. |
| `SplayTree.Head.Remove` | sys-tree.h:192-211 | Set deletion: removes exactly the element whose key equals that of the argument, or returns NULL; amortized cost at most 12 lg n + 2. |
| `SplayModel.AssembledOrder` | sys-tree.h:116-121 | The assembled tree has the in-order sequence of left part, middle and right part. |
| `SplayModel.SplayEnds` | sys-tree.h:213-246 | When the loop stops, the assembled tree has at its root the key or one of its neighbours. |
| `SplayModel.SplayFinds` | sys-tree.h:213-246 | A splayed sorted tree that contains the key has it at the root. |
| `SplayModel.InsertedOrder` | sys-tree.h:168-190 | Linking the new element above the splayed root adds exactly it, in order. |
| `SplayModel.JoinOrder` | sys-tree.h:192-211 | Joining the two subtrees after splaying the left one for the removed key removes exactly the root. |
| `SplayTree.PerformAll` | sys-tree.h:53-55 | The Balance Theorem: m lookups, insertions and removals on a tree of n nodes take at most m (12 lg(n + m) + 2) + 2 n lg n rounds over all. |
| `SplayCost.Amortized` | sys-tree.h:53-55 | With the sum of the logarithms of the subtree sizes as potential, every splay of every tree pays for its rounds. |
| `SplayCost.ZigZig` | sys-tree.h:223-232 | A rotation and a link: the potential pays for the round. |
| `SplayCost.ZigZag` | sys-tree.h:223-243 | Two links to different sides pay for both rounds. |
| `SplayCost.ZigThenZigZig` | sys-tree.h:223-243 | A link followed by a rotation and a link to the other side pay for both rounds. |
| `TbJumps.JumpTable.AddJump` | include/exec/exec-all.h:308-321 | Chains a free jump at the front of the target's ring and patches it; a jump already chained is left alone; all rings stay well formed. |
| `TbJumps.JumpTable.JmpRemove` | translate-all.c:831-858 | The ring walk terminates and takes exactly this jump out of its ring. |
| `TbJumps.JumpTable.Unlink` | translate-all.c:904-921 | After it no linked block has a jump patched to the invalidated one, every other ring lost only its outgoing entries, all rings are well formed, and both walks terminate. |
| `TbJumps.JumpTable.ResetIncoming` | translate-all.c:908-921 | Clears and unpatches exactly the jumps on the block's own ring. |
| `TbJumps.JumpTable.Link` | translate-all.c:1338-1349 | A new block starts with an empty ring and unchained jumps. |
| `TbJumps.RemoveFromRing` | translate-all.c:831-858 | Bypassing one entry keeps every ring well formed. |
| `TbJumps.AddToRing` | include/exec/exec-all.h:308-321 | Pushing a free jump keeps every ring well formed. |
| `TbJumps.DropRing` | translate-all.c:904-921 | A block without outgoing jumps whose incoming jumps are reset can leave the set of linked blocks. |
| `TbCache.LinkedIffListed` | translate-all.c:868-902 | In every state between operations a block is linked iff it is on the hash chain of its physical pc, iff it is on the list of its first page and, if it has one, of its second; each field exactly once and on no other list. |
| `TbCache.TbCache.RemoveFrom` | translate-all.c:800-829 | tb_hash_remove and tb_page_remove take out exactly the first entry of the given block, and run off the end of the list exactly when there is none. |
| `TbCache.TbCache.PhysInvalidate` | translate-all.c:868-924 | Fails exactly for a block that is not linked. Otherwise removes the block from every list, jump cache, bitmap and ring, also if both of its pages are the same, and no other block from any; all indexes stay in agreement, and chained jumps and cache slots of the other blocks are what they were. |
| `TbCache.TbCache.TakeOffCaches` | translate-all.c:895-902 | Clearing one slot per cpu removes every jump-cache entry of the block. |
| `TbCache.TbCache.LinkPage` | translate-all.c:1316-1355 | Adds the block at the front of its chain and of the lists of its pages, drops their bitmaps, and starts its ring. |
| `TbCache.TbCache.Alloc` | translate-all.c:657-670 | Fails exactly when the block array or the code buffer is full. |
| `TbCache.TbCache.Free` | translate-all.c:672-682 | Gives back the last block only. The indexes stay in agreement exactly if that block was not linked. |
| `TbCache.TbCache.Flush` | translate-all.c:728-757 | No block is linked, listed or cached afterwards. |
| `TbCache.TbCache.GenCode` | translate-all.c:982-1019 | Links one new block that describes the code under the current address map, after a flush exactly when there was no room; its generated code lies behind that of all others, and the next will begin behind it, aligned to 16. |
| `TbCache.TbCache.FindSlow` | cpu-exec.c:118-170 | Returns a linked block translated from this pc, cs base and flags every code byte of which is where the address map puts it. If any linked block is such, one is reused, its chain is permuted and nothing else changes; otherwise exactly one block is added, after a flush only when there is no room. It is then the first on its chain and in the jump-cache slot. |
| `TbCache.TbCache.Search` | cpu-exec.c:133-155 | The chain search succeeds iff any linked block translates the code that is now at pc. |
| `TbCache.MatchesIff` | cpu-exec.c:133-155 | The comparison of page addresses decides whether every code byte is where the address map puts it, for blocks on one page and on two. |
| `TbCache.MovedUpPermutes` | cpu-exec.c:162-166 | Move-to-front permutes one chain and leaves the others. |
| `TbCache.TbCache.FindFast` | cpu-exec.c:172-188 | Returns a linked block with the given pc, cs base and flags and leaves it in the jump cache; a hit changes nothing, a miss does what tb_find_slow does. |
| `TbCache.TbCache.FindPc` | translate-all.c:1359-1388 | Binary search returns the only block whose generated code can hold the address, or nothing exactly for addresses outside the buffer in use. |
| `TbCache.TbCache.ChainJump` | cpu-exec.c:576-583 | Chaining two linked blocks keeps all indexes in agreement. |
| `TbCache.TbCache.BuildBitmap` | translate-all.c:953-980 | A bit is set exactly for the bytes of the page that hold code of a listed block. |
| `TbCache.TbCache.InvalidatePageRange` | translate-all.c:1045-1152 | Exactly the blocks with a code byte in the range, as far as it lies on the first page, are unlinked; chained jumps and cache slots of the others are intact. Fails exactly if the range meets both parts of a block that continues on its own page. |
| `TbCache.TbCache.InvalidatePhysRange` | translate-all.c:1028-1036 | Exactly the blocks with a code byte in the range, over any number of pages, are unlinked; chained jumps and cache slots of the others are intact. Fails exactly if the range meets both parts of a block that continues on its own page. |
| `TbCache.TbCache.InvalidateFast` | translate-all.c:1155-1183 | For aligned accesses of 1, 2, 4 or 8 bytes the bitmap path unlinks exactly the blocks that the range invalidation would, and fails exactly when that would. |
| `TbCache.WrappedBlockFails` | translate-all.c:1074-1135 | A block translated across two virtual pages that share one physical page makes a write to that whole page invalidate it twice, and the second time fails. |
| `TbCache.SecondHit` | translate-all.c:1074-1135 | The loop meets an overlapping entry of a block that is already gone exactly at the second entry of a block both of whose entries overlap. |
| `TbCache.ClearBits` | translate-all.c:1155-1183 | A clear stretch of an exact bitmap means that no linked block has code there. |
| `TbCache.HitIffTouched` | translate-all.c:1078-1090 | A list entry passes the overlap test of its page iff its block has a code byte in that part of the range. |
| `TbIndex.OverlapIsTouch` | translate-all.c:1078-1090 | The interval test on one list entry, including blocks that run over the page end, is true exactly if a code byte of that part of the block is in the range. |
| `TbIndex.RemoveNode` | translate-all.c:800-829 | Bypassing one node keeps all lists exact. |
| `TbIndex.PushFront` | translate-all.c:1256-1275 | Threading a free field at the front of its list keeps all lists exact. |
| `TbBitmap.SetBits` | translate-all.c:926-951 | Sets exactly the bits [start, start + len) and no other, with whole bytes in the middle. |
| `TbBitmap.Probe` | translate-all.c:1171-1177 | The masked test of one bitmap byte is true iff some bit of the aligned access is set. |
| `PageMap.RadixMap.PageFindAlloc` | translate-all.c:379-427 | After it the page number leads to a descriptor, a cleared one if its block is new; every page number that led to one still leads to the same one with the same contents. |
| `PageMap.RadixMap.PageFind` | translate-all.c:429-432 | The walk down the tables finds what the map holds, or nothing exactly if a table or block is missing. |
| `PageMap.PlacesDiffer` | translate-all.c:379-427 | Different page numbers never share a descriptor. |
| `PageMap.WalkRole` | translate-all.c:397-426 | Every table or block met on the way to a page number belongs to its leading digits. |
| `KvmSlots.KvmState.LookupOverlapping` | kvm-all.c:108-144 | Finds an overlapping slot with the lowest start, and none exactly if none overlaps. |
| `KvmSlots.KvmState.AllocSlot` | kvm-all.c:73-87 | Returns a free slot outside the private ones; aborts only if all 28 are in use. |
| `KvmSlots.KvmState.SplitSlot` | kvm-all.c:731-806 | Replaces a slot by what sticks out of the range on either side; cannot abort with one slot free. |
| `KvmSlots.KvmState.ClearRange` | kvm-all.c:717-807 | The loop terminates with no overlapping slot left, or returns early with the range already mapped as asked. |
| `KvmSlots.KvmState.SetPhysMem` | kvm-all.c:693-828 | Slots stay disjoint and off the private ones in both modes; at most two more slots are live; no abort for an aligned start with two slots free. Flags below 16 map the range to the page-aligned RAM address with the ROM bit cleared, from 16 on nothing is mapped; with the workaround this holds of the part after the consumed slots; the rest of guest memory is unchanged, and a range already in place changes nothing. The unaligned cases abort or do nothing exactly as coded. |
| `KvmSlotModel.ExactIff` | kvm-all.c:750-770 | With the workaround the mapping is as asked iff the consumed slots already mapped their part as asked. |
| `KvmSlotModel.WorkaroundKeepsOldBacking` | kvm-all.c:750-770 | A concrete call for which the workaround leaves a page with its old backing. |
| `KvmSlotModel.ConsumedIsCovered` | kvm-all.c:750-770 | The part the workaround consumes is fully mapped beforehand. |
| `KvmSlotModel.SplitMaps` | kvm-all.c:731-806 | A split unmaps exactly the overlap of slot and range. |
| `KvmSlotModel.SplitCount` | kvm-all.c:731-806 | A split adds a slot only if it was the last overlapping one, and lowers the number of overlapping slots. |
| `KvmSlotModel.OverlapMeaning` | kvm-all.c:117-130 | The subtraction-only test is interval overlap for nonempty ranges; for an empty one it asks whether its start is inside the slot. |
| `KvmSlots.LoopReturns` | kvm-all.c:723-729 | The early return happens only before any slot was split, and then the range is mapped as asked. |
| `BlockMerge.MultiwriteMerge` | block.c:2099-2168 | In place, the first n requests become the merged form of the sorted batch. Requests without gaps become one that runs from the first start to the last end if their vectors fit; requests stay apart only at a gap that the driver refused or for too many vectors; no request gets more than 1024 vectors if none had; two requests are merged exactly if they touch or the driver agrees, and their vectors fit. |
| `BlockMerge.MergeInPlace` | block.c:2108-2168 | The loop over the sorted array computes the merged batch, with the same properties. |
| `BlockMerge.MergedIsSplit` | block.c:2108-2132 | Neighbours in the merged batch could not be joined: the driver refused the gap, or the vectors are too many. |
| `BlockMerge.SequentialIsOne` | block.c:2114-2118 | Requests each of which starts at or before the end of the one before become one. |
| `BlockMerge.MergedVectorsFit` | block.c:2128-2132 | Merging never gives a request more vectors than the system takes. |
| `BlockMerge.Concat` | util/iov.c:305-343 | Appends exactly the bytes asked for, from any offset and cut at the end of the source; aborts exactly if there is something to add and the offset is beyond the end. |
| `BlockMerge.CombinedData` | block.c:2134-2156 | A merged request holds the first one cut off where the second starts, zeros for a gap, then the second. |
| `BlockMerge.MergeKeepsMeaning` | block.c:2099-2168 | If end sectors do not decrease after sorting, applying the merged batch gives every byte the value that the sorted batch gives it, with gaps filled only where the disk reads as zeros. |
| `BlockMerge.MergeKeepsDisk` | block.c:2099-2168 | With a driver that agrees to fill only gaps that read as zeros, and end sectors that do not decrease, applying the merged batch to the disk gives the same whole disk as applying the sorted batch. |
| `BlockMerge.MergeKeepsDiskElsewhere` | block.c:2099-2168 | With such a driver and any sorted batch, every byte of the disk that is not dropped is the same either way. |
| `BlockMerge.MergeKeepsByte` | block.c:2099-2168 | For any sorted batch, every byte that is not dropped gets the value that the sorted batch gives it. |
| `BlockMerge.MergeKeepsByteIff` | block.c:2138-2156 | For data that tells the writers of a byte apart, merging keeps the byte iff it is not dropped: cut off and written by no later request, or covered by a filled gap. |
| `BlockMerge.TailIsDropped` | block.c:2138-2156 | Two sectors followed by the first of them again: the second sector never reaches the disk. |
| `BlockMerge.FilledIsApproved` | block.c:2120-2126 | A gap is filled only between the request being built and a later request of the batch that the driver agreed to combine with it. |
| `BlockMerge.SortSorts` | block.c:2078-2106 | The batch is sorted by start sector and is a permutation of the original. |
| `Multiwrite.AioMultiwrite` | block.c:2184-2257 | Under any mix of refused, immediate, late and failing writes: while a write is pending no callback has run; then each has run exactly once, with the first recorded error, and the control block is freed once; if the first submission is refused no callback runs, every request's error is set and the block is freed once. |
| `Multiwrite.MultiwriteCB.Cb` | block.c:2063-2076 | Records the first error, and runs the callbacks and frees the block exactly when nothing is outstanding. |
| `Multiwrite.MultiwriteCB.UserCb` | block.c:2049-2061 | Calls every callback once, in order, with the recorded error. |
| `Multiwrite.MultiwriteCB.Complete` | block.c:2063-2076 | A late completion keeps the protocol. |
| `Multiwrite.FirstErrorAppend` | block.c:2067-2069 | The recorded error is the first negative result. |
| `BlockBytes.BlockDevice.Pwrite` | block.c:1020-1067 | On success exactly the bytes of the range are replaced; on failure no byte outside it changes and every byte inside is the old or the new one; without faults every in-range write succeeds. |
| `BlockBytes.BlockDevice.Pread` | block.c:975-1018 | On success returns exactly the bytes of the range. |
| `BlockBytes.BlockDevice.WriteThenRead` | block.c:975-1067 | A read after a successful write returns the written bytes. |
| `BlockBytes.PartOfSector` | block.c:1034-1039 | Writing back a patched sector can change only the patched bytes, even if the write fails half way. |
| `AioPool.Pool.Submit` | posix-aio-compat.c:368-394 | Keeps the thread and list invariants; starts a worker exactly if none is idle and the limit allows; a waiting request always has a live worker. |
| `AioPool.Pool.Take` | posix-aio-compat.c:320-334 | A worker takes the oldest waiting request; one more is running and one worker fewer is idle. |
| `AioPool.Pool.Finish` | posix-aio-compat.c:353-356 | The result is recorded and the worker is idle again. |
| `AioPool.Pool.Exit` | posix-aio-compat.c:322-365 | A worker leaves only with an empty queue, so no waiting request is stranded. |
| `AioPool.Pool.CancelBegin` | posix-aio-compat.c:537-552 | A waiting request is withdrawn from the queue; a running one is waited for. |
| `AioPool.Pool.CancelEnd` | posix-aio-compat.c:518-561 | The request leaves the main list and its callback can never run afterwards. |
| `AioPool.Pool.WorkerStep` | posix-aio-compat.c:310-366 | A step of a worker takes the oldest request, stores a result or leaves, whenever it can; no result that is there changes. |
| `AioPool.Pool.Visit` | posix-aio-compat.c:429-468 | One entry, with any worker steps before the lock is taken for it: passed over if it is of another context or in progress, else taken off the list, and called back unless its result is -ECANCELED: with its error, with 0 for a complete transfer, with -EINVAL for a short one. |
| `AioPool.Pool.Pass` | posix-aio-compat.c:419-474 | One pass of the main loop, with any worker steps between any two entries: at most one callback, for an ended request of this context, with the right result, which thereby leaves the list; no request is called back twice. |
| `AioPool.Pool.ProcessQueue` | posix-aio-compat.c:419-474 | With workers going on between any two entries: every request of the context that had ended when the last pass began is off the list at return, so an ended one that is still listed finished during that pass; one that has gone had ended, and was called back exactly if its result is not -ECANCELED; every callback ever made got the error of its request, 0 for a complete transfer or -EINVAL for a short one; no other request has gone, and the result says whether any has. |
| `AioPool.PassMeaning` | posix-aio-compat.c:419-474 | What a pass does to the list, whatever workers do meanwhile: it takes off the called request and dropped ones of its context only, and without a call every one that had ended when it began. |
| `AioPool.LateEndIsMissed` | posix-aio-compat.c:429-468 | Two requests, the first of which ends after it has been looked at: the pass leaves it on the list although it has ended. |
| `AioPool.FailureIsDropped` | posix-aio-compat.c:439-447 | A request whose own result is -ECANCELED is dropped without a callback although nobody cancelled it. |
| `Tlb.SoftTlb.FlushPage` | cputlb.c:86-115 | Leaves no entry in any mode for any address of any page, small or large since the last full flush, that contains the address; outside the tracked region only that page is dropped. |
| `Tlb.SoftTlb.Flush` | cputlb.c:48-72 | No address is cached and nothing is tracked afterwards. |
| `Tlb.SoftTlb.AddLargePage` | cputlb.c:195-214 | The tracked region contains every large page since the last full flush, and is the smallest aligned one that joins the old region and the new page. |
| `Tlb.Widen` | cputlb.c:208-211 | The widening loop terminates with the finest mask under which the two addresses agree. |
| `Tlb.SoftTlb.SetPage` | cputlb.c:219-318 | Each comparator word of the slot stands for exactly this page if its own right is given and is -1 otherwise; the MMIO and dirty-tracking bits say how the page is to be accessed; other slots are unchanged, and a large page is tracked as the addresses that differ from it in lower bits only. |
| `Tlb.FlushedHolds` | cputlb.c:74-84 | tlb_flush_entry, which compares each comparator word under the page mask and the invalid bit, drops an entry iff it stands for the page; the flag bits and the empty word never matter. |
| `Tlb.NewStandsFor` | cputlb.c:280-318 | The comparator words that tlb_set_page builds, whatever flag bits it puts in, stand for exactly this page and the given rights. |
| `QemuFile.Writer.Fflush` | savevm.c:666-691 | One write of all that is pending. Without an error everything put has then been offered to the backend, and the backend has it all exactly if none of its writes was short, because a short count passes for success. |
| `QemuFile.ReceivedIff` | savevm.c:666-691 | Over any sequence of writes without an error: what the backend has is what it was offered iff no write was short. |
| `QemuFile.ShortWriteLosesByte` | savevm.c:666-691 | One byte put to a backend that takes nothing and says so: no error is recorded and the byte is lost. |
| `QemuFile.Writer.AddToIovec` | savevm.c:823-837 | A piece is joined to the last one exactly if it lies behind it in memory, and appended otherwise, without changing the bytes; a full vector is flushed. |
| `QemuFile.Writer.PutBuffer` | savevm.c:854-881 | Adds exactly these bytes in both modes, across any number of buffer flushes. Without an error, what the backend has and what is pending make up everything put exactly if no write was short. |
| `QemuFile.Writer.PutBufferAsync` | savevm.c:839-852 | The same for a caller's buffer passed by reference. |
| `QemuFile.Writer.PutByte` | savevm.c:883-898 | Adds exactly this byte. Without an error, what the backend has and what is pending make up everything put exactly if no write was short. |
| `QemuFile.Writer.PutBe16` | savevm.c:1041-1045 | Puts the two bytes, most significant first. |
| `QemuFile.Writer.PutBe32` | savevm.c:1047-1053 | Puts the four bytes, most significant first. |
| `QemuFile.Writer.PutBe64` | savevm.c:1055-1059 | Puts the eight bytes, most significant first. |
| `QemuFile.UnixWritev` | savevm.c:395-435 | Over any short writes and interruptions every byte of the vector goes out once, in order, and the total is returned; on an error the result is negative and a part from the front has gone out; without one the call succeeds. |
| `QemuFile.Reader.FillBuffer` | savevm.c:755-778 | Keeps the undelivered bytes and gets at least one more if there is one; records -EIO at the end of the source and a negative result other than -EAGAIN as it is. |
| `QemuFile.Reader.GetBuffer` | savevm.c:933-951 | Delivers exactly the next bytes, as many as asked for unless the source ends or a read fails, without a spurious error for requests up to the buffer size. |
| `QemuFile.Reader.GetByte` | savevm.c:953-976 | Delivers the next byte, or 0 at the end. |
| `QemuFile.Reader.GetBe16` | savevm.c:1061-1067 | With reads that do not fail: the number that the next 2 bytes write, most significant first, with zeros for those beyond the end of the source. |
| `QemuFile.Reader.GetBe32` | savevm.c:1069-1077 | With reads that do not fail: the number that the next 4 bytes write, most significant first, with zeros for those beyond the end of the source. |
| `QemuFile.Reader.GetBe64` | savevm.c:1079-1085 | With reads that do not fail: the number that the next 8 bytes write, most significant first, with zeros for those beyond the end of the source. |
| `QemuFileRoundTrip.Transfer` | savevm.c:666-1085 | Any sequence of puts in either mode to any backend, then the matching gets: unless an error was recorded, a write was short or a read failed, the same values come back in order, over any lengths of the single reads. |
| `QemuFileRoundTrip.ReadBack` | savevm.c:854-1085 | The matching gets on the bytes of any sequence of puts deliver the values in order. |
| `Bytes.BeRoundTrip` | savevm.c:1041-1085 | Decoding the big-endian bytes of a number gives the number. |
| `Bytes.FromBeHead` | savevm.c:1061-1085 | The first octet is the most significant one. |
| `Timers.TimerList.Del` | qemu-timer.c:341-357 | Takes the timer off the list if it is there, clears its deadline, and changes no other deadline. |
| `Timers.TimerList.Add` | qemu-timer.c:359-378 | Inserts behind all timers due by then and before all others; the list stays sorted, duplicate-free and exact; reports whether the timer is first. |
| `Timers.TimerList.Mod` | qemu-timer.c:399-412 | The timer is listed with the new deadline, negative times counting as 0; others are unchanged. |
| `Timers.TimerList.ModAnticipate` | qemu-timer.c:417-436 | The deadline is set if it was unset or later, else nothing changes; asks for a rearm exactly if it was set and the timer is now first on the list. |
| `Timers.TimerList.RunTimers` | qemu-timer.c:458-496 | With callbacks that arm only for later times: terminates, fires due timers in deadline order, each at most once, leaves none due; every timer that was due fired or was disarmed or moved by a callback, and timers not involved keep their deadlines. |
| `Timers.TimerList.RunRounds` | qemu-timer.c:458-496 | With any callbacks and any number of rounds of the loop: every round fires a timer that is due, the list stays sorted and exact, and fewer rounds than asked for mean that none is due any more. |
| `Timers.FiresForever` | qemu-timer.c:458-496 | A callback that arms its timer for a time already due: any number of rounds fires it that often. |
| `Timers.TimerList.Deadline` | qemu-timer.c:211-239 | The time to the soonest deadline among all listed timers, 0 if passed, -1 exactly if there is none. |
| `Timers.InsertAgrees` | qemu-timer.c:359-378 | Insertion keeps the list sorted and listed iff the deadline is not -1. |
| `Timers.WithoutAgrees` | qemu-timer.c:341-357 | Removal keeps the list sorted and listed iff the deadline is not -1. |
| `RamBlocks.RamList.FindRamOffset` | exec.c:934-967 | Returns the end of the first block that is followed by the smallest sufficient gap, 0 for an empty list, and nothing exactly if no gap after a block is large enough. |
| `RamBlocks.RamList.Alloc` | exec.c:1047-1161 | Adds one page-aligned block there, listed behind the blocks at its front that are at least as long; blocks stay aligned and pairwise disjoint whatever their order, and a list from biggest to smallest stays one. |
| `RamBlocks.RamList.Free` | exec.c:1186-1215 | Removes exactly the block at the offset; the invariants are kept, and so is the order. |
| `RamBlocks.RamList.GetRamBlock` | exec.c:494-515 | Lookup through the most recently used block equals plain linear search. |
| `RamBlocks.RamList.GetRamPtr` | exec.c:1280-1298 | The host address behind a ram address: the distance into the block that holds it, and nothing if none does. |
| `RamBlocks.RamList.SafeRamPtr` | exec.c:1303-1317 | The same without touching the most recently used block. |
| `RamBlocks.RamList.AddrFromHost` | exec.c:1321-1351 | With disjoint host ranges the cached lookup equals plain search by host address. |
| `RamBlocks.HostRoundTrip` | exec.c:1280-1351 | With disjoint host ranges, translating a ram address to its host address and back gives the same ram address. |
| `RamBlocks.GapIsFree` | exec.c:934-967 | Memory placed in the chosen gap overlaps no block. |

## Left out

- `ram_load` at version 4 and the unnamed-block format: other stream formats than the one `ram_save_live` emits.
- RamMigrationImpl.RamLoader.RamLoad: for a block name that is cut off by the end of the stream the original compares uninitialised bytes of its buffer; the model compares only the bytes that were read.
- RamMigrationImpl.RamSender.RamSave: the rate limiter and the clock are a number of pages, and the bandwidth estimate is whether the rest is expected to fit.
- RamMigrationProof.RunEndsClean: that stage 3 leaves nothing to send is part of what a run is; `RamMigrationImpl.RamSender.RamSaveLive` shows it of the code.
- RamMigrationProof.RejectHeader: one direction only, the other being `RamMigrationProof.LoadHeader`.
- `RB_FIND`, `RB_PREV`, `RB_MINMAX`, `SPLAY_FIND`, `SPLAY_NEXT` and `SPLAY_MINMAX`: variants of modelled walks that would only add easier members.
- TbCache.TbCache.PhysInvalidate: the page argument other than -1, which only the user-mode emulator passes, is not modelled.
- TbCache.TbCache.InvalidatePageRange: the restart of a block that modifies itself, the TLB write protection and the interrupt re-raise are not modelled.
- TbCache.TbCache.GenCode: the generated code is only a positive size, the guest size is at most one page, and guest addresses do not wrap.
- TbCache.TbCache.LinkPage: the page addresses are stored before the first list is changed, which no intermediate step can observe.
- The page descriptors of the block cache are a map from page numbers, absent entries being NULL; the radix tree that implements such a map is modelled on its own, for page numbers that fit the address space.
- Hash functions of the jump cache: any function.
- KvmSlots.KvmState.SetPhysMem: slot flags, the ioctl behind each slot and its failure, which aborts, are not modelled; addresses do not wrap.
- BlockMerge.MultiwriteMerge: `qsort` is one particular sort, while the meaning theorems hold for every sorted order; which buffers are freed is not modelled.
- BlockBytes.BlockDevice.Pwrite: the device does not grow, and the dirty bitmap and highest-sector statistics are not modelled.
- AioPool.Pool.ProcessQueue: callbacks that themselves use the pool are covered by single passes (`AioPool.Pool.Pass`) interleaved with other steps, not by this loop.
- The I/O done by AIO workers, signals and the notification pipe: a request ends with any result.
- SplayTree.PerformAll: an element is added only once, also after its removal.
- RamMigrationErrors.CutRecord: not for streams that end inside a block name, where the original compares bytes it has not read.
- Tlb.SoftTlb.SetPage: addresses are 32 bits wide, and the host addend and I/O index are not modelled.
- Flushing the jump cache together with the TLB.
- QemuFile.Writer.PutBufferAsync: the caller's buffer does not change before it is sent.
- QemuFile.Reader.GetBe16: no result is stated when a read of the backend fails in between; the same holds for GetBe32 and GetBe64.
- Rate limiting counters of the stream, and strings and structures built on its primitives.
- Timers.TimerList.RunTimers: callbacks arm for later times; others are covered by RunRounds, with which the loop need not end.
- The lock of the timer list and notification of the main loop.
- RamBlocks.RamList.Alloc: block names, dirty bitmaps and how host memory is obtained are not modelled.
- RamBlocks.RamList.AddrFromHost: host ranges are disjoint, which the host guarantees for memory it hands out.
- Device models, display, audio, command-line handling, the GDB stub and the monitor.
