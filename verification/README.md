# A model of the ZJUNIX kernel's schedulers, allocators, caches and trees

This project models the inductive cores of a small mips32 teaching kernel and
proves what they are for. The source changes things in place, and so does the
model: a class per structure, methods for its functions, loops where the source
has loops. Each such method is proved against a function or predicate on plain
values, and what the kernel promises is then proved about those values, over all
inputs, all runs or all reachable states.

`dafny verify dfyconfig.toml` checks everything; the files stand in one directory,
one module a file.

## What is modelled

**The run queue (`RbShape`, `RbEdits`, `RbColor`, `RbTree`, `CfsSpec`, `Clamp`,
`Cfs`, `Sched`).** The red-black tree is a heap of nodes with parent links. A ghost tree
with a hole (a path back to the root and the subtree below) says what the links
stand for: `RbEdits` shows that the link assignments of a rotation, an insertion
and the unlinking of a node are the corresponding edits of the tree, and `RbColor`
shows on values that the rounds of the two fix-ups restore the invariants. The
entity embeds its node, so a pointer to one is a pointer to the other, and the
`rb_parent_color` word is two fields. Over the tree stands the run queue with its
cached leftmost node, weight sum and count in 32-bit arithmetic (`u32`, wrapping),
the clamp at 2^31 - 1 (`U32_MAX` in `include/zjunix/cfs.h:11`), and the timer tick.
`Clamp` says in plain numbers what a charge and a tick do at the clamp and at the reset.

**Fairness and waiting (`Turns`, `Fairness`, `Starvation`, `WaitExamples`).** Ticks of a fixed ready
set are the turns of an abstract machine whose jobs have a gain and a slice. Its
invariant bounds how far any job runs ahead, and `Fairness` shows that every
clamp-free tick is such a turn. `Starvation` works on the queue itself, in its order.
What stands ahead of a waiting entity is measured in ticks: for each those that bring
it level at its own gain, and its slice once. The measure falls with every tick,
unless a heavy entity keeps the waiting one out for ever, and it is the bound of the
wait. Well below the clamp the ticks it speaks of are shown to exist. `WaitExamples`
has a pair of nice 19 whose wait is over within twelve ticks, and a pair whose second
never runs.

**The buddy allocator (`BuddySpec`, `Buddy`).** Blocks tile the managed frames,
numbered from the first one. The invariant allows what the code really leaves
behind: a split-off half whose flag is never written, and stale flags and levels
inside blocks. A page handed out carries its order, which is where `kfree` finds it.
The free frames determine the free blocks, from which it follows
that the order of calls leaves no trace.

**Semaphores and the bounded buffer (`SemSpec`, `Semaphores`, `BoundedBuffer`).**
The named semaphores are a list of objects. Runs of atomic waits and signals by any
processes are event sequences. Producer and consumer are a state machine of
interleaved steps over a ring of any size, up to any last product (5 slots and
product 100 in the source), with the semaphores created first.

**FAT (`Clock`, `CacheView`, `BlockCache`, `FatBytes`, `FatTable`, `ChainBytes`,
`FatFile`).** A cache is judged by its view: the block a reader would see. The two
victim functions differ only in the size of a block and are one method, and so are
the two read and two write functions of the block cache. The state word is its two
bits. The FAT has its own write-back, to both copies. A file is an acyclic chain of
clusters through the FAT, and reading and writing it are slices and splices of one
byte string. Where the code shifts by `fs_wa` and masks, the model divides and takes
the remainder; `FatBytes.WaExact` says why that is the same for the cluster sizes of
a FAT volume.

**Mounts (`MountSpec`, `MountWalk`, `Namespaces`).** Mounts and directory entries are
numbered and each field is a map. The invariant is a depth that falls along the parent
links.

**User memory (`PageTable`, `ChunkSpec`, `ChunkPool`).** The two-level page table over
arrays, and eight classes of chunks with their free lists in the first words of the
free chunks. The words a class keeps in its chunks are a map of its own; chunks of
different classes never overlap, which is proved.

**The page cache (`LruSpec`, `PageCache`, `GenericFile`).** Pages are known by their file
and place on the disk; hash buckets and the list in order of use are lists of such keys.

**ext2 directories (`DirSpec`, `Directory`).** Blocks of 4096 bytes, rewritten in place;
the specification is what a reader following `rec_len` finds, and the bytes of a record.

`Words`, `Bytes`, `Lists`, `Options` and `Arith` hold machine words, words in byte strings, lists
without repetition, results that may be missing, and facts about multiples.

Where code and comment differ, the code is followed. `remain 2 pages for I/O`
(`kernel/mm/buddy.c:60`) rounds the end down and reserves nothing more; `U32_MAX` is not the
largest `u32`; a doubled free (`kernel/mm/buddy.c:79-81`) does nothing rather than fail.

## Findings

Six things the source promises do not hold for every input. Each is stated with its exact
condition and an input at which it fails.

- After the overflow reset the cached leftmost node is the second one of the queue:
  `CfsSpec.UpdateCurrOk` shows the cache right if and only if the reset did not run;
  `CfsSpec.ResetLosesCache` is a queue of two that loses it.
- The tick picks through the leftmost pointer without a null test: `CfsSpec.PickUndefinedIff`
  shows that it finds null if and only if one entity is queued alone, it or the minimum comes
  within ten of the clamp, and a switch is due; `CfsSpec.LonePickIsNull` is such a queue.
- The charge compares the 32-bit sum with the clamp after it may have wrapped: `Clamp.ClampHoldsIff`
  shows that the vruntime stops at the clamp if and only if the sum is below 2^32;
  `Clamp.ChargeWraps` takes an entity from the clamp to 0. `Clamp.ClockFits` shows that no delta
  read from the clock is so large, and a tick never is.
- A tick of 60 units adds 60*1024/weight, which is 0 for the two greatest table weights:
  `Starvation.BecomesCurrentIff` shows that from a state clear of the clamp the ticks lead to a
  waiting entity if and only if none with a weight above 61440 stands strictly below it, and then
  within `WaitBound`; `Starvation.RunsIff` says the same of every clamp-free run longer than that
  bound, from any state. `WaitExamples.Starves` gives runs of every length in which the second of
  two entities never runs.
- The search for the tail of a chain of chunk pages goes to the second block each time:
  `ChunkPool.TailFoundIff` shows that it ends if and only if there are at most two;
  `ChunkPool.ThreePages` brings a class of 2048-byte chunks there by six allocations.
- A semaphore may be created with a negative count, and a signal can then find nobody to release:
  `SemSpec.SignalDefinedIff` shows that none of a run does if and only if the count is not negative
  at first or every signal comes after more waits than signals; `SemSpec.NegativeCount` has one run
  of each kind.

## Model

| member | source | states |
|---|---|---|
| `RbTree.RbRoot.Erase` | kernel/pc/rbtree.c:194-259 | erasing any node of a valid red-black tree leaves a valid red-black tree whose in-order sequence is the old one without that node, and whose node set has lost exactly it |
| `RbTree.RbRoot.EraseColor` | kernel/pc/rbtree.c:114-192 | from a tree short of one black node at a place, the recolouring climb (which terminates, the path to the root getting shorter) ends in a red-black tree with the same in-order sequence |
| `RbTree.RbRoot.EraseStepLeft` | kernel/pc/rbtree.c:121-154 | one round with the short place on the left: either the climb goes on one level up with the same shortage, or the tree is red-black; order kept |
| `RbTree.RbRoot.EraseStepRight` | kernel/pc/rbtree.c:155-188 | the mirror image of the same round |
| `RbTree.RbRoot.Insert` | include/zjunix/rbtree.h:74-81 | linking a red leaf at an empty place and rebalancing gives a red-black tree whose in-order sequence has the new node at that place and is otherwise the old one |
| `RbTree.RbRoot.InsertColor` | kernel/pc/rbtree.c:49-112 | from a tree whose only defect is a red node under a possibly red parent, recolouring and rotating restores every red-black invariant and keeps the in-order sequence |
| `RbTree.RbRoot.InsertStepLeft` | kernel/pc/rbtree.c:57-82 | one round under a left parent: the defect moves two levels up or is gone; order kept |
| `RbTree.RbRoot.InsertStepRight` | kernel/pc/rbtree.c:83-108 | the mirror image of the same round |
| `RbTree.RbRoot.RotateLeft` | kernel/pc/rbtree.c:3-24 | the link assignments turn exactly the focused subtree as a left rotation of trees does, parent links mirroring child links afterwards |
| `RbTree.RbRoot.RotateRight` | kernel/pc/rbtree.c:26-47 | the mirror image |
| `RbTree.RbRoot.Promote` | kernel/pc/rbtree.c:205-239 | putting the successor in the place of an erased node with two children: the tree is the old one with the successor moved, order as without the erased node |
| `RbTree.RbRoot.First` | kernel/pc/rbtree.c:332-342 | the node found by going left is the first of the in-order sequence, or null for none |
| `RbTree.RbRoot.Next` | kernel/pc/rbtree.c:356-382 | the node found is the one that follows in the in-order sequence, or null for the last |
| `RbColor.FitsPlug` | kernel/pc/rbtree.c:49-259 | a tree is red-black if and only if the subtree in focus and the path around it fit each other: what makes local repair sound |
| `RbColor.InsertRoundSound` | kernel/pc/rbtree.c:53-109 | on values: a round of the insertion fix-up keeps the black heights and either removes the only red-red pair or moves it up |
| `RbColor.MergedSound` | kernel/pc/rbtree.c:131-137 | on values: painting the sibling red passes the shortage of one black up by one level |
| `RbColor.SidewaysSound` | kernel/pc/rbtree.c:123-130 | on values: turning a red sibling over leaves the same shortage beside a black sibling |
| `RbColor.RefilledSound` | kernel/pc/rbtree.c:138-153 | on values: with a red nephew one or two rotations end the shortage |
| `RbColor.UnlinkSound` | kernel/pc/rbtree.c:241-258 | unlinking a node with at most one child leaves a red-black tree or one short of a black exactly where the fix-up starts |
| `RbColor.PromoteSound` | kernel/pc/rbtree.c:205-239 | after the successor has taken the place and colour of the erased node the shortage is where the successor was |
| `RbEdits.RotateLeftShape` | kernel/pc/rbtree.c:3-24 | the changed cells represent the rotated tree: refinement of the link edits by the tree edit |
| `RbEdits.PromotePlan` | kernel/pc/rbtree.c:205-239 | the two-children case of the erase refines replacing the node by its in-order successor |
| `RbShape.SuccessorFollows` | kernel/pc/rbtree.c:356-382 | the leftmost node of the right subtree, or else the nearest ancestor with the node on its left, is the in-order successor |
| `CfsSpec.ClampedOrder` | kernel/pc/cfs.c:25-28 | below the clamp the wrapped signed comparison is the order of the numbers |
| `CfsSpec.UnclampedOrderCycles` | kernel/pc/cfs.c:25-28 | three words in a circle show why the clamp is needed: without it the comparison is not transitive |
| `Cfs.CfsRq.EnqueueEntity` | kernel/pc/cfs.c:70-91 | the descent puts the entity behind every one it does not precede; the cached leftmost follows; the run queue as a value is exactly that of the specification |
| `Cfs.CfsRq.DequeueEntity` | kernel/pc/cfs.c:95-102 | the entity leaves the tree and the cache moves to its successor if it was the leftmost |
| `Cfs.CfsRq.EnqueueTaskFair` | kernel/pc/cfs.c:187-195 | every export invariant is kept and the new queue, weight sum, count and cache are those of the specification |
| `Cfs.CfsRq.DequeueTaskFair` | kernel/pc/cfs.c:199-207 | the same for taking a queued entity out |
| `Cfs.CfsRq.UpdateMinVruntime` | kernel/pc/cfs.c:131-156 | the minimum never falls and the cached leftmost is the first node of the tree again |
| `Cfs.CfsRq.UpdateCurr` | kernel/pc/cfs.c:162-182 | changing the key of the running entity while it is still linked, taking it out and putting it back ends in a valid, sorted queue equal to the specified one, clamp and overflow reset included; `Clamp.ChargeExact` and `Clamp.RestartedOnce` say what that is in numbers |
| `Cfs.CfsRq.ReassignVruntime` | kernel/pc/cfs.c:106-115 | all queued vruntimes are zero, the order of the queue is kept, and the cache is moved to the second node |
| `Cfs.CfsRq.CheckPreemptTick` | kernel/pc/cfs.c:269-279 | the flag is set exactly when the runtime since the last switch exceeds the slice of sched_slice, for a queued entity or one that is not, and never cleared |
| `Cfs.CfsRq.constructor` | kernel/pc/cfs.c:118-126 | the empty run queue is valid |
| `CfsSpec.EnqueuedOk` | kernel/pc/cfs.c:70-91 | a sorted queue of distinct, clamped entries stays so when one more goes in; the first is the old first or the newcomer |
| `CfsSpec.DequeuedOk` | kernel/pc/cfs.c:95-102 | and when one goes out; the first is the old first or the one behind it |
| `CfsSpec.EnqueueTaskFairOk` | kernel/pc/cfs.c:187-195 | weight sum and count stay those of the queued entries modulo 2^32, the cache stays right |
| `CfsSpec.DequeueTaskFairOk` | kernel/pc/cfs.c:199-207 | the same for the removal, and the sums really fall |
| `CfsSpec.ChargeCurrOk` | kernel/pc/cfs.c:162-176 | after the charge the queue is sorted with the running entity at its new place, the cache is right and the minimum has not fallen |
| `CfsSpec.UpdateCurrOk` | kernel/pc/cfs.c:162-182 | the invariants survive the whole of it, and the cached leftmost is right if and only if the overflow reset did not run |
| `CfsSpec.TickOk` | kernel/pc/pc.c:187-215 | a tick keeps every invariant, and the leftmost cache if and only if the overflow reset did not run |
| `CfsSpec.ResetLosesCache` | kernel/pc/cfs.c:106-115 | two entities at the clamp, in a valid queue with a right cache: after a tick's charge the first of the queue is the second entity and the cache names the other |
| `CfsSpec.PickUndefinedIff` | kernel/pc/pc.c:192-214 | the unchecked pick finds null if and only if, before the tick, one entity is queued alone, its charged vruntime or the minimum is within ten of the clamp, and a switch is already due or its time exceeds its slice |
| `CfsSpec.LonePickIsNull` | kernel/pc/pc.c:200-214 | a valid queue of one at which the tick picks null |
| `Clamp.WeightsFall` | include/zjunix/cfs.h:47-56 | of two neighbouring nice levels the better one has between 1.2 and 1.28 times the weight of the other; nice 0 has 1024 |
| `Clamp.ChargeExact` | kernel/pc/cfs.c:162-176 | a charge of any delta leaves every other entity alone; the one charged has the 32-bit sum of its vruntime and gain if that is below 2147483647 and 2147483647 if it is not, and delta more runtime |
| `Clamp.ClampHoldsIff` | kernel/pc/cfs.c:168-174 | the charged vruntime is the smaller of the sum and 2147483647 if and only if the sum is below 2^32 |
| `Clamp.ChargeWraps` | kernel/pc/cfs.c:168-174 | an entity of weight 1024 at the clamp, charged 2^31 + 1 units, is at 0 |
| `Clamp.ClockFits` | kernel/pc/cfs.c:162-174 | for every delta that a reading of the 32-bit clock divided by the time unit can be, and every weight, the charged vruntime is the smaller of the sum and 2147483647 |
| `Clamp.RestartsIff` | kernel/pc/cfs.c:177-181 | the charge of a tick leads to the overflow reset if and only if the minimum before it, or every vruntime after it, is within ten of the clamp |
| `Clamp.TickExact` | kernel/pc/pc.c:192-214 | a whole tick, entity by entity: 0 for all after a reset; else the running one has its vruntime plus 61440/weight, at most 2147483647, and the others keep theirs; weights stay, and only the running one has run 60 units more |
| `Clamp.RestartedOnce` | kernel/pc/cfs.c:106-115 | after a tick with a reset the minimum and all vruntimes are 0, the order is that of before the reset, and the next tick does not reset again |
| `Clamp.RunnerSaturates` | kernel/pc/cfs.c:168-174 | n ticks in a row of one entity, none with a reset, bring it from v to the smaller of v + n * (61440/weight) and 2147483647 |
| `Clamp.ClampOrRestart` | kernel/pc/cfs.c:168-181 | as many ticks of one entity as would carry it past the clamp lead it to 2147483647 or to the overflow reset |
| `Clamp.ClampMet` | kernel/pc/cfs.c:168-174 | a valid queue of two in which one tick brings the running entity, still current, to the clamp |
| `Sched.Scheduler.TaskTick` | kernel/pc/pc.c:187-221 | the tick in place is exactly the tick on values: charge, slice test, switch to the leftmost; `Clamp.TickExact` says entity by entity what that is |
| `Sched.Scheduler.TaskCreate` | kernel/pc/pc.c:264-333 | a created process joins the queue with the parent vruntime and its nice weight; queue membership and ready list agree |
| `Sched.Scheduler.TaskKill` | kernel/pc/pc.c:336-382 | a killed one leaves both; all else stays |
| `Sched.Scheduler.constructor` | kernel/pc/pc.c:104-168 | the initial scheduler is valid with the first process running |
| `Turns.BalancedTurn` | kernel/pc/pc.c:187-215 | every turn keeps the bound on how far each job has run ahead of the least one |
| `Turns.RunStaysBalanced` | kernel/pc/pc.c:187-215 | so every state of every run that starts level is balanced |
| `Fairness.TickIsTurn` | kernel/pc/pc.c:192-214 | a clamp-free tick of the run queue is one turn of the abstract machine |
| `Fairness.FairnessBound` | kernel/pc/cfs.c:162-182 | from a start at which all vruntimes are equal, nobody has time outstanding and all weights are of the table: in every state of every clamp-free run of ticks, no vruntime exceeds the queue minimum by more than (slice/60 + 1) * (60*1024/weight), in integer division |
| `Starvation.BecomesCurrentIff` | kernel/pc/pc.c:192-214 | from a state in which the waiting entity, the minimum and whoever is carried past it by a slice stay ten below the clamp: some run of ticks leads to the entity if and only if no entity of weight above 61440 has a vruntime strictly below its own, and then one of at most the bound |
| `Starvation.RunsIff` | kernel/pc/cfs.c:269-279 | in every clamp-free run longer than the bound a queued entity becomes current if and only if it is so at the start or no entity of weight above 61440 has a vruntime strictly below its own there; the bound is, for each entity ahead of it in the queue, the ticks to come level at that entity's gain and the ticks of its slice once, and what is left to an entity running behind it |
| `Starvation.LongRun` | kernel/pc/pc.c:192-214 | clamp-free runs of n ticks exist from every state in which each vruntime and the minimum are far enough below the clamp |
| `Starvation.NoStarvation` | kernel/pc/cfs.c:269-279 | in such a run, and without such an entity, it becomes current within the bound, ties in the queue included |
| `Starvation.MeasureFalls` | kernel/pc/pc.c:192-214 | while it waits, each tick makes smaller the ticks that those ahead of it in the queue may still take, together with what the one running behind it has left |
| `Starvation.AheadTick` | kernel/pc/cfs.c:70-102 | a tick changes the room taken up ahead of a waiting entity by that of the running one, before and after it is put back |
| `Starvation.KeptOut` | include/zjunix/cfs.h:47-56 | an entity of weight above 61440 strictly below a waiting one keeps it out for the whole of any run, whoever is current |
| `WaitExamples.Starves` | include/zjunix/cfs.h:47-56 | from weights 88761 and 1024 at vruntimes 0 and 1 there are clamp-free runs of every length in which the second entity is queued and never current |
| `WaitExamples.PairReached` | kernel/pc/pc.c:187-215 | two entities of weight 15 from a level start: after exactly five ticks the first stands at 20480 and the second runs from 0 |
| `WaitExamples.PairRuns` | kernel/pc/pc.c:187-215 | there the bound for the first is twelve ticks, clamp-free runs longer than it exist, and in each the first becomes current within it |
| `Fairness.GainIsQuotient` | kernel/pc/cfs.c:32-45 | a tick of 60 units gains exactly 60*1024/weight, with no 32-bit overflow for any table weight |
| `Fairness.SlicesShareThePeriod` | kernel/pc/cfs.c:235-264 | for up to 806 queued entities at any table weights the slices sched_slice gives them sum to at most the normalised period and to more than it minus their number |
| `Fairness.SliceIsFairShare` | kernel/pc/cfs.c:249-264 | for up to 806 queued entities at any table weights the 32-bit product in sched_slice does not overflow, and the slice is the period times the weight divided by the true sum of the weights |
| `Fairness.NewcomerSlice` | kernel/pc/cfs.c:249-264 | for an entity that is not queued the slice counts it and its weight in |
| `Fairness.PeriodWraps` | kernel/pc/cfs.c:235-245 | the period is 480 units for up to eight entities and 60 for each of more, the latter if and only if there are at most 3579: then the 32-bit product wraps |
| `Buddy.BuddySys.Free` | kernel/mm/buddy.c:75-118 | a page already carrying the free flag is left alone; else the block joins the free frames, no two free buddies of equal order below 4 remain, lists, counts, flags and levels agree with the blocks, the merged block is in front of its list and each list passed has lost one page, and no other live block changes |
| `Buddy.BuddySys.Alloc` | kernel/mm/buddy.c:120-157 | none is returned if and only if no aligned run of 2^k free frames exists, with nothing changed; else the page is the first of the first non-empty list, heads an aligned run of formerly free frames, which is now a live block of that order, and carries the order as its level and the allocated flag; the halves cut off are on the lists below; no other live block changes |
| `Buddy.BuddySys.Kfree` | kernel/mm/slab.c:213-219 | a page handed out is freed at the level it carries, which is the order of its block |
| `Buddy.BuddySys.AllocKfree` | kernel/mm/slab.c:193-219 | pages allocated and given back at the level read from the page: the free and the live blocks are as before |
| `Buddy.BuddySys.constructor` | kernel/mm/buddy.c:40-73 | after the initial freeing page by page only order-4 free blocks exist and they cover all managed frames; start and end are rounded to multiples of 16 |
| `Buddy.BuddySys.FindList` | kernel/mm/buddy.c:126-131 | the search finds the first non-empty list of sufficient order, and fails exactly when no free run of that size exists |
| `Buddy.BuddySys.SplitOff` | kernel/mm/buddy.c:145-153 | one halving: the upper half becomes a free block although its flag is not written; the invariants hold at every step |
| `Buddy.BuddySys.Absorb` | kernel/mm/buddy.c:96-112 | one merge: the free buddy, and nothing else, leaves its list, and the pair is one pending block that contains the page being freed |
| `Buddy.AllocFreeRestores` | kernel/mm/buddy.c:75-157 | allocating a block and freeing it at its order restores exactly the same free and live blocks |
| `Buddy.LiveDeterminesFree` | kernel/mm/buddy.c:75-157 | the history of calls does not matter: two states with the same live blocks have the same free blocks |
| `Buddy.FreeOrLive` | kernel/mm/buddy.c:75-157 | every managed frame is in a free or in a live block and never in both |
| `Buddy.NoRun` | kernel/mm/buddy.c:126-135 | without a free block of order k or more there is no aligned free run of 2^k frames |
| `Buddy.BuddyIsHead` | kernel/mm/buddy.c:97-103 | the page at the buddy index heads a block of at most the same order, so stale flags inside blocks are never taken for a free buddy |
| `Buddy.MergeFrames` | kernel/mm/buddy.c:104-112 | merging takes exactly the buddy's frames from the free ones to the block being freed, whose run the two make up, and no live frame changes |
| `BuddySpec.FreeBlockIsCanonical` | kernel/mm/buddy.c:96-116 | a block is in the free lists if and only if its run is free and the run twice its size around it is not: the free frames determine the free blocks |
| `BuddySpec.BuddyFacts` | kernel/mm/buddy.c:97-110 | flipping and clearing the order bit of an aligned index: the two buddies make one aligned block of the next order, starting at the smaller |
| `BuddySpec.RunInBlock` | kernel/mm/buddy.c:120-157 | when no two free buddies stand beside each other, every aligned free run lies within one free block |
| `Semaphores.SemaphoreList.Create` | kernel/semaphore/semaphore.c:23-37 | a taken name is refused with nothing changed; else the semaphore has the given count and nobody waiting |
| `Semaphores.SemaphoreList.Delete` | kernel/semaphore/semaphore.c:41-49 | the named semaphore, and only it, leaves the list |
| `Semaphores.SemaphoreList.Wait` | kernel/semaphore/semaphore.c:53-78 | the count falls, and a caller blocks at the end of the queue exactly when it becomes negative; a missing name and every other semaphore change nothing |
| `Semaphores.SemaphoreList.Signal` | kernel/semaphore/semaphore.c:82-107 | the count rises, and the longest waiting process is released exactly when it is still not positive |
| `SemSpec.RunKeepsCount` | kernel/semaphore/semaphore.c:53-107 | in every run by any processes count = initial + signals - waits, the queue length is max(0, -count), and the blocked ones in arrival order are the released ones followed by the waiting ones |
| `SemSpec.ReleasedInArrivalOrder` | kernel/semaphore/semaphore.c:88-100 | the k-th process released is the k-th one blocked |
| `SemSpec.PassedAtMost` | kernel/semaphore/semaphore.c:53-107 | never more processes are past their wait than initial count and signals allow, and exactly that many while somebody waits |
| `SemSpec.SignalDefinedIff` | kernel/semaphore/semaphore.c:53-107 | from any initial count: no signal of a run takes the head of an empty queue if and only if the count is not negative at first or before every signal there are more waits than signals; count and queue length along such runs |
| `SemSpec.NegativeCount` | kernel/semaphore/semaphore.c:88-95 | from -1 a signal at once finds an empty queue, and one after a wait releases the waiting process |
| `BoundedBuffer.RunKeepsInv` | kernel/semaphore/semaphore.c:194-301 | the invariant of the protocol holds in every world of every interleaving, and no step goes astray |
| `BoundedBuffer.MutualExclusion` | kernel/semaphore/semaphore.c:194-301 | producer and consumer are never both in their critical sections |
| `BoundedBuffer.ReceivedInOrder` | kernel/semaphore/semaphore.c:220-232 | the k-th product received is k |
| `BoundedBuffer.NoOverwrite` | kernel/semaphore/semaphore.c:278-286 | a write never hits the slot of an unread product |
| `BoundedBuffer.NoDeadlock` | kernel/semaphore/semaphore.c:194-301 | until the last product is received one of the two can step |
| `BoundedBuffer.LastOneOut` | kernel/semaphore/semaphore.c:225-245 | when the consumer stops, keeping the mutex, the producer has exited and nobody is left to want it |
| `BoundedBuffer.EveryRunDelivers` | kernel/semaphore/semaphore.c:194-301 | every interleaving ends within a fixed number of steps, and the ones that cannot go on have delivered all products in order |
| `Clock.Victim` | kernel/fs/fscache/fscache.c:117-160 | the two sweeps choose the nearest unreferenced clean slot; with none, the nearest clean one; with none, the slot at the hand; reference bits are cleared only where the hand has passed |
| `Clock.DirtyVictimOnlyIfAllDirty` | kernel/fs/fscache/fscache.c:6-49 | the victim is dirty if and only if every slot is |
| `Clock.ChoiceIsUnique` | kernel/fs/fscache/fscache.c:6-49 | slots and hand determine the victim and the bits left |
| `BlockCache.Cache.Read` | kernel/fs/fscache/fscache.c:67-92 | a block that is in a slot is marked referenced there and the hand stays; one that is in none is loaded, clean and referenced, where the clock chooses, and the hand moves behind it; whatever is evicted, what a reader sees of the disk does not change; the disk is written only if every slot was dirty |
| `BlockCache.Cache.WriteSlot` | kernel/fs/fscache/fscache.c:52-64 | writing a slot back changes at most its own block on the disk and nothing that is seen |
| `BlockCache.Cache.Flush` | kernel/fs/fat/fat.c:384-386 | after writing all slots back the disk is what was seen |
| `CacheView.LoadView` | kernel/fs/fscache/fscache.c:178-203 | loading a block over a clean slot leaves the view alone |
| `CacheView.PutView` | kernel/fs/fat/fat.c:582-598 | a write into a slot changes the view of exactly that block |
| `FatTable.Fat.constructor` | kernel/fs/fat/fat.c:97-103 | with empty buffers the table seen is the one on the disk |
| `FatTable.Fat.ReadSector` | kernel/fs/fat/fat.c:147-172 | the same for a sector of the table: where it is found or loaded and where the hand is; reads and evictions change no FAT entry; the disk is written only if both slots are dirty |
| `FatTable.Fat.WriteSector` | kernel/fs/fat/fat.c:128-144 | both on-disk copies are written and stay equal; no entry changes |
| `FatTable.Fat.GetEntry` | kernel/fs/fat/utils.c:59-75 | the value is the low 28 bits of the entry, in bytes: the four from 4 * (c % 128) on in sector c / 128 of the table, low byte first; no entry changes |
| `FatTable.Fat.Modify` | kernel/fs/fat/utils.c:78-99 | the low 28 bits of one entry become the new value, its high four are kept, every other entry is as before; in bytes, three and a half of that sector change and no other of any sector |
| `FatTable.Fat.Flush` | kernel/fs/fat/fat.c:344-364 | afterwards both on-disk copies, the second one table length behind the first, are the table as seen (the FAT part of the flush) |
| `FatTable.ModifiedTable` | kernel/fs/fat/utils.c:78-106 | on values: one word written in its sector changes that entry and no other |
| `FatBytes.EntriesApart` | kernel/fs/fat/utils.c:102-106 | entries of different clusters below 2^30 do not overlap |
| `FatBytes.EntriesRepeat` | kernel/fs/fat/utils.c:102-106 | from 2^30 on the shifted cluster number wraps and entries repeat |
| `Bytes.SetGet` | kernel/vfs/utils.c:31-50 | a word written little-endian reads back |
| `FatBytes.Wa` | kernel/fs/fat/utils.c:37-43 | the loop returns the position of the highest set bit |
| `FatBytes.WaExact` | kernel/fs/fat/utils.c:37-43 | on a power of two it is the exponent, so shifting by it divides by the number |
| `FatBytes.ClustersApart` | kernel/fs/fat/utils.c:109-111 | different clusters lie in disjoint runs of sectors behind the FATs |
| `FatBytes.SectorRoundTrip` | kernel/fs/fat/utils.c:109-115 | from any sector of a cluster the way back finds the cluster |
| `FatFile.File.Read` | kernel/fs/fat/fat.c:394-466 | the bytes read are the slice of the chain from the file position, cut at the file size; the chain bytes are unchanged, whatever the caches evict |
| `FatFile.File.Write` | kernel/fs/fat/fat.c:528-636 | inside the chain the flat byte string of the file becomes its splice with the bytes written, and the size grows to the end of the write |
| `FatFile.File.Seek` | kernel/fs/fat/fat.c:639-646 | the position is set, at most to the file size |
| `FatFile.WriteSeekRead` | kernel/fs/fat/fat.c:394-646 | seeking back after a write and reading returns the written bytes |
| `FatFile.File.Walk` | kernel/fs/fat/fat.c:427-431 | following the table n times from the first cluster reaches the n-th cluster of the chain |
| `FatFile.PlacesApart` | kernel/fs/fat/utils.c:109-111 | an acyclic chain has pairwise different first sectors |
| `ChainBytes.FlatSplice` | kernel/fs/fat/fat.c:581-600 | a splice inside one block of a chain is a splice of the flat string |
| `ChainBytes.FlatPart` | kernel/fs/fat/fat.c:434-458 | a part of one block is that part of the flat string |
| `Namespaces.Namespace.MoveMount` | kernel/vfs/namespace.c:75-141 | the answer is an error exactly in the three cases of the source, with nothing changed; else only the moved mount has a new parent and place, it is the last child of the new parent, nobody else changes place among the children, and every chain of parents still ends at the global root, children lists and d_mounted counts agreeing |
| `Namespaces.Namespace.IsAbove` | kernel/vfs/namespace.c:117-121 | the climbing loop terminates and tells whether the moved mount is the target or above it |
| `MountSpec.MoveKeepsTree` | kernel/vfs/namespace.c:105-125 | a move to a place not under the mount keeps every parent chain acyclic and ending at the root |
| `MountSpec.MoveUnderItselfLoops` | kernel/vfs/namespace.c:117-121 | the refused moves are the ones after which no such chain exists |
| `MountSpec.DetachForest` | kernel/vfs/namespace.c:13-26 | detaching keeps links, children lists and counts consistent |
| `MountSpec.AttachForest` | kernel/vfs/namespace.c:29-40 | attaching a detached mount does |
| `MountSpec.MoveExact` | kernel/vfs/namespace.c:13-40 | detaching and attaching, field by field: the mount goes from its place in the old list of children to the end of the new one, and one count falls and one rises |
| `Namespaces.Namespace.NextMnt` | kernel/vfs/namespace.c:279-292 | the stackless step goes to the next mount of the preorder, and to none at its end |
| `Namespaces.Namespace.Collect` | kernel/vfs/namespace.c:295-304 | the kill list is the preorder of the subtree, back to front |
| `Namespaces.Namespace.UmountTree` | kernel/vfs/namespace.c:295-318 | on a mount other than the global root: it terminates, takes down exactly the mounts under it, in reverse preorder, and leaves a consistent tree with d_mounted counting the mounts still attached; those left keep parent, place, root and the order of the children they still have |
| `Namespaces.ChildrenGoFirst` | kernel/vfs/namespace.c:306-318 | in that order every mount goes before its parent |
| `Namespaces.LastHasNoKids` | kernel/vfs/namespace.c:306-318 | whenever a mount is detached it has no child left |
| `MountWalk.PreOnce` | kernel/vfs/namespace.c:279-292 | the preorder visits no mount twice |
| `MountWalk.UnderPre` | kernel/vfs/namespace.c:279-292 | and visits everything under its root |
| `MountWalk.PreUnder` | kernel/vfs/namespace.c:279-292 | and nothing else |
| `MountWalk.PreParentsFirst` | kernel/vfs/namespace.c:279-292 | every mount after its parent |
| `MountWalk.PreInOrder` | kernel/vfs/namespace.c:279-292 | the children of a mount, each with all that is under it, come in the order of their list |
| `PageTable.AddressSpace.SetMapping` | kernel/vm/vm.c:411-426 | the two-level table as a flat map from page numbers to frames: one page changes, no other, a missing second level being made on the way; the frame is in word va >> 12 & 0x3ff of table va >> 22 |
| `PageTable.AddressSpace.VaToPa` | kernel/vm/vm.c:389-407 | the address is the frame of the page with the offset, or 0 for an unmapped page; the frame is that in word va >> 12 & 0x3ff of table va >> 22 |
| `PageTable.IndicesArePage` | kernel/vm/vm.c:262-268 | directory and table index together are the page number |
| `ChunkPool.SizeClass.Alloc` | kernel/vm/vm.c:561-599 | the address handed out translates to the first free chunk, which was not live and now is; free list and live chunks partition the pages of the class; at most the new page's mapping is added |
| `ChunkPool.SizeClass.InitBlock` | kernel/vm/vm.c:512-534 | the new frame is mapped at the first unmapped page from 0x10000 on, and the free list threads all its chunks |
| `ChunkPool.SizeClass.InitChunkList` | kernel/vm/vm.c:538-557 | the words written link every chunk of the page once, in order, ending in null |
| `ChunkPool.SizeClass.Give` | kernel/vm/vm.c:497-502 | a live chunk given back is the head of the free list |
| `ChunkPool.Pool.MemoryAlloc` | kernel/vm/vm.c:467-482 | the smallest class that fits serves the request with a chunk that was not live; no other class changes |
| `ChunkPool.SizesDouble` | kernel/vm/vm.c:432-442 | the eight classes start at 16 bytes and each is twice the one before |
| `ChunkPool.Pool.MemoryFree` | kernel/vm/vm.c:486-508 | exactly the chunk at the address stops being live, found through the page table; an address in no page of the pool is refused with nothing changed |
| `ChunkPool.Pool.constructor` | kernel/vm/vm.c:430-445 | from any address space with eight unmapped pages and eight new frames: a valid pool, each class with its one page and no live chunk, and no mapping that was there changed |
| `ChunkPool.NewHeap` | kernel/pc/pc.c:318-320 | a new user process starts with such a pool over an empty address space |
| `ChunkPool.SizeClass.InitFirst` | kernel/vm/vm.c:512-534 | the first page of a class: all its chunks free, the page mapped where nothing was |
| `ChunkPool.Pool.LiveNeverOverlap` | kernel/vm/vm.c:561-599 | live chunks never overlap, within a class or across classes, in every pool that creation, allocation and freeing can lead to |
| `ChunkPool.TailFoundIff` | kernel/vm/vm.c:592-595 | iterating the step of the tail search from the head of a chain, its guard becomes false, and then at the last block, if and only if the chain has at most two blocks |
| `ChunkPool.TailStays` | kernel/vm/vm.c:593-595 | on a longer chain the guard is true after every number of steps |
| `ChunkPool.ThreePages` | kernel/vm/vm.c:561-599 | six allocations of 2048 bytes from a new class leave it valid with three pages, all their chunks live and none free; the guard of the tail search that the next one begins is true after every number of steps |
| `ChunkSpec.GrowKeeps` | kernel/vm/vm.c:576-599 | a new page keeps the partition |
| `ChunkSpec.ChunksAre` | kernel/vm/vm.c:538-557 | the chunks of a page are its addresses in steps of the size, 4096 divided by it in number |
| `ChunkSpec.LiveApart` | kernel/vm/vm.c:538-599 | live chunks of one class are at least a chunk apart |
| `PageCache.Cache.LookUp` | kernel/vfs/vfscache/pcache.c:38-77 | the page asked for is the latest used and equals the disk; every cached page is once in the list and once in its bucket; the size is the list length and within capacity |
| `PageCache.Cache.Add` | kernel/vfs/vfscache/pcache.c:80-94 | a full cache gives up the last of the list first |
| `PageCache.Cache.PutLRU` | kernel/vfs/vfscache/pcache.c:97-114 | exactly the last page of the list goes, from list, bucket and count |
| `PageCache.Cache.Find` | kernel/vfs/vfscache/pcache.c:52-61 | the walk over one bucket finds the page if and only if it is cached |
| `LruSpec.HeldIsMostRecent` | kernel/vfs/vfscache/pcache.c:38-114 | after any run of requests the cache holds exactly the most recently requested keys, latest first, up to the capacity |
| `LruSpec.RecentByLastUse` | kernel/vfs/vfscache/pcache.c:38-114 | of two keys the one whose last request is later comes first in that order |
| `GenericFile.File.Read` | kernel/vfs/read_write.c:7-57 | from an offset within the file the bytes read are the slice of the mapped blocks cut at the file size |
| `GenericFile.File.Write` | kernel/vfs/read_write.c:61-124 | inside the mapped blocks the bytes of the file on the disk become their splice with the bytes written; cached pages equal the disk at the end; the size grows to the end of the write |
| `GenericFile.File.GetPage` | kernel/vfs/vfscache/pcache.c:6-35 | a mapped page is delivered with the contents of the disk; behind the mapped blocks the request fails |
| `GenericFile.LastPage` | kernel/vfs/read_write.c:17-29 | the last page touched may lie just behind the mapped blocks, and then none of it is wanted |
| `Directory.AppendToBlock` | kernel/vfs/ext2/dir.c:38-75 | a zeroed block takes the entry as its only record; a tiled block takes it behind the first record with room and stays exactly tiled; without such a record the block is unchanged; in bytes: ino, rec_len, name_len, file_type and name where they lie, rec_len of the record that gave up room, and nothing else |
| `Directory.Dir.Append` | kernel/vfs/ext2/dir.c:19-92 | over the direct blocks: the first block with room takes the entry, with the bytes of AppendToBlock, and no other block changes; reading by rec_len afterwards gives the old entries in order with the new one put in; a new block is mapped exactly when no block has room, behind the old ones; with all twelve full nothing changes |
| `Directory.Dir.MakeEmpty` | kernel/vfs/ext2/dir.c:94-120 | a new directory lists exactly . and .., and its block is their headers and names byte by byte and zero elsewhere |
| `DirSpec.SplitWalk` | kernel/vfs/ext2/dir.c:61-72 | splitting the first record with room changes what a reader finds by exactly the new entry |
| `DirSpec.InsertedIsInsertion` | kernel/vfs/ext2/dir.c:38-75 | the old entries keep their order and the new one is never first |
| `DirSpec.EncodedReads` | include/zjunix/vfs/ext2.h:136-148 | a record written reads back as the entry, and has its fields at the offsets of the structure |
| `DirSpec.RecordLaid` | include/zjunix/vfs/ext2.h:142-148 | what a reader takes for a record has ino in bytes 0 to 3 and rec_len in 4 and 5, low byte first, name_len in 6, file_type in 7, and the name from 8 on |
| `DirSpec.FirstRoomIsFirst` | kernel/vfs/ext2/dir.c:38-75 | no record met before the one that is split has room |
| `Directory.RoomIsSlack` | kernel/vfs/ext2/dir.c:61-63 | in a tiled block both halves of the room test say the same: rec_len less name_len + 8, rounded up to four, leaves enough |

## Left out

- Sched.Scheduler.TaskTick: context copying, state labels, the address space switch and the interrupt flag are not modelled, and the tick is taken only while the running process is queued and the pick is not null (`CfsSpec.PickUndefinedIff` says when it is).
- Sched.Scheduler.TaskCreate: process numbers, memory and file set-up are not modelled; nice values outside the weight table are outside the model, as the source indexes the table with them.
- Sched.Scheduler.TaskKill: of a process other than the running one. `task_kill` does not hand over (the exit system call does that before it calls it); killing the running process, which it accepts, leaves `cfs_rq.curr` off the tree and is not modelled.
- Cfs.CfsRq.UpdateCurr: taken only while the running entity is queued, as its key changes there while its node is linked.
- `task_wakeup` and `check_preempt_wakeup`: they change a vruntime after the node is in the tree, with a subtraction that can wrap, so the sorted-tree invariant does not cover them.
- Fairness.FairnessBound: for runs in which no vruntime reaches the clamp and no process joins or leaves.
- Starvation.RunsIff: for the same runs.
- RbTree.RbRoot.Next: `rb_prev`, `rb_last` and `rb_replace_node` are not modelled; the scheduler does not call them.
- Buddy.BuddySys.Free: frames are counted from the first managed one; the lock, reference counts, the slab fields and the pages outside the managed range are not modelled, and a page that heads a live block is freed at the order of that block.
- Buddy.BuddySys.Kfree: of a page that came from the page allocator; slab objects go another way, which is not modelled.
- Buddy.BuddySys.constructor: the frame numbers stay below 2^32, so the rounding up does not wrap.
- Semaphores.SemaphoreList.Wait: waiting and signalling are atomic; the windows in which interrupts are on before the sleep and after the release are not modelled. Counts are unbounded integers.
- Semaphores.SemaphoreList.Signal: of a semaphore whose queue has somebody when it must release; `SemSpec.SignalDefinedIff` says when that is.
- BoundedBuffer.EveryRunDelivers: the semaphores exist before the first step; with a missing one a wait returns at once and the products are unguarded.
- BlockCache.Cache.Read: blocks are the unit of the disk behind a cache, addressed by their first sector; that the clusters of a volume do not overlap is `FatBytes.ClustersApart`. Reads and writes of the disk succeed, here and everywhere.
- FatTable.Fat.Flush: FSInfo and directory buffers are not modelled.
- FatFile.File.Read: position plus count stay below 2^32; file growth (`fs_alloc`, `fs_clr_4k`), opening by path and closing are not modelled.
- FatFile.File.Write: inside the existing chain only, for the same reason.
- Namespaces.Namespace.MoveMount: path lookup and `follow_mount` happen before the call; the mount hash chains are not modelled.
- Namespaces.Namespace.UmountTree: called on the global root, which it would free without detaching, is outside the model.
- ChunkPool.Pool.MemoryAlloc: `big_chunk_alloc` is not modelled, its search restarts at the mapped page it has just found; what `kmalloc` returns for a new page is a parameter, page aligned and unused.
- ChunkPool.SizeClass.Alloc: a new page is added only to a chain of at most two, where the source's tail search ends.
- ChunkPool.Pool.MemoryFree: an address inside a page of the pool is the start of a live chunk; the source does not check it.
- PageTable.AddressSpace.VaToPa: frames are page aligned, so that or-ing the offset in adds it. TLB, shared pages and tearing a table down are not modelled.
- PageCache.Cache.Add: a page is never dirty, as no code sets that state; the write-back on eviction is not reached.
- PageCache.Cache.Find: bucket numbers are remainders; for the table size of 16 this is the mask of the source.
- GenericFile.File.Read: from an offset within the file, position plus count below 2^32.
- GenericFile.File.Write: inside the mapped blocks of one file, each block belonging to one file; allocating blocks and writing the inode are not modelled.
- Directory.Dir.Append: direct blocks of 4096 bytes; a new block reads as zeros; deletion, indirect blocks and the inode record are not modelled.
- The name spaces of paths, the directory cache, FAT directory search, ext2 block and inode allocation, the shell, drivers, `bootmm`, process numbers and the slab path: plumbing, or easy beside the rest.
