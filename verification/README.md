# Verified models of DLH's algorithms

DLH is a freestanding replacement for libc and parts of the C++ standard library. This project
models its algorithmic core in Dafny and proves what that core is for: the buddy allocator, the
smoothsort behind `qsort`, the AVL tree set and the hash set over slot arrays, the three locks, the
streaming XXH64 hasher, the Mersenne Twister, number printing and parsing, and substring search.

Code that works in place is modelled as classes and methods over fields, arrays and loops, in the
order of the original statements; what those methods compute is stated by functions and predicates
on values, and the deep properties are lemmas about these. Locks are step systems over any number of
threads. `dafny verify dfyconfig.toml` checks everything.

## How the files fit together

- **Smoothsort**: `Bits` (words, the two-word shifts, `pntz`), `Leonardo` (heaps and sifting),
  `Forest` (root lists, their bit code, trinkling), `Phases` (growing and draining on sequences),
  `Smoothsort` (the in-place methods), `ShiftLimit` (how long an array may be). `Comparators` holds
  the laws of comparison functions, which the tree set shares.
- **Buddy allocator**: `BuddyTree` (the block tree determined by root and live blocks), `FreeList`
  (circular lists in memory words), `BuddyState` and `BuddySteps` (the representation and its
  elementary steps), `BuddySpec` (all invariants at once), `BuddyReserve` (reserving memory and its
  limit), `BuddyAllocator` (the class).
  Used and unused blocks are never told apart by the stored bits; the live blocks are a ghost map
  from blocks to requested sizes, and one invariant ties bits, lists, headers and the root to it.
- **Tree set**: `TreeShape` (shapes over slots, paths with a hole, links, heights), `TreeRotate`,
  `TreeSteps`, `TreeBalance` (rotations), `TreeGrow`, `TreeShrink`, `TreeReplace` (rebalancing,
  unlinking, handing a place over), `TreeOrder` (search order and the ordered set), `TreeSpec`,
  `TreeStore` (the invariant and slot storage), `TreeSet` (the class). `SlotLists` is shared with the
  hash set.
- **Hash set**: `HashChains`, `HashSpec`, `HashSet`.
- **Locks**: `FutexMutex`, `ReaderWriterLock` (over abstract mutexes), `FutexReaderWriter` (the same on two
  futex mutexes, in one system), `RecursiveMutex`.
- **Numbers as text**: `NumberText` (the text of a number), `NumberShape` (what such a text looks like,
  character by character), `BufferStream` (the loops that print it), `NumberSyntax` (which texts are
  numbers), `NumberParser` (the loops that read them), `PrintedNumbers` (one after the other).
- **Others**: `XxHash` and `MersenneTwister`, whose results `XxHashValues` and `MersenneValues` compare
  with the published ones; `StringSearch`.

## Where the code does less than its intent

Each of these is proved as it is, with the exact condition under which the intended property holds.

- The smoothsort shifts a word by its full width once arrays grow beyond 55,555,780,070,575
  elements (`Smoothsort.MAX_LENGTH`); up to there no shift is undefined, beyond there one is
  (`ShiftLimit.ShiftsDefinedExactly`).
- `pntz` answers 0 instead of 64 when the next tree is exactly 64 orders away (`Bits.PntzExact`).
- The doubling loop of `bucket_for_request` never ends for requests above 2^63
  (`BuddyAllocator.DoublingEnds`).
- The hash set cannot make room when all slots are used up and no value is left, because
  `reorganize` skips empty sets: `increase` leaves a free slot if and only if the set is not in that
  state (`HashSets.HashSet.Increase`), and the state is reached by filling and emptying a set
  (`HashSets.FillAndDrain`). The tree set does not have this gap.
- The failure table of `String::prefix` compares only with the first character of the needle. The
  search finds the first occurrence in every haystack if and only if the needle is `Findable`
  (`StringSearch.SearchExact`, `StringSearch.BuiltSafe`), and so do the public `find`, `find_last`
  and `split` (`StringSearch.FirstExact`, `LastExact`, `SplitExact`); `ababc` in `abababc` is missed
  (`StringSearch.MissedOccurrence`).
- The integer parser takes a zero that is followed by padding for the start of a prefix and refuses
  it; every other printed number is read back (`NumberParser.UnsignedRoundTrip`).
- The test for the short way in `XXHash64::add` and `addZeros` is a 64-bit sum; the short way writes
  behind the buffer if and only if that sum wraps (`XxHash.ShortWayOverruns`), as it does with one
  byte present and the longest length (`XxHash.WrappedLength`).
- `update_max_ptr` never asks for an end at `base_ptr` + MAX_ALLOC. So a request for more than half of
  MAX_ALLOC passes the first test of `malloc`, but is served if and only if everything is free and
  RESERVE has supplied more than it was ever asked for (`BuddyAllocator.Buddy.Malloc`,
  `BuddyReserve.LimitExact`); with a RESERVE that grants exactly what it is asked for it fails
  (`BuddyAllocator.WholeRangeFails`).
- Inserting a node of another container takes a slot without making room, so it needs a free slot
  unless the value is known (`TreeSets.TreeSet.InsertForeign`, `HashSets.HashSet.InsertForeign`).

## Model

| member | source | states |
|---|---|---|
| Smoothsort.Qsort | src/libc/stdlib_qsort.cpp:176-236 | the array ends as a permutation of its input for every comparator, and ascending for every comparator that is a total preorder; the sort terminates; length up to the bound beyond which shifts are undefined |
| Smoothsort.Grow | src/libc/stdlib_qsort.cpp:192-217 | the first phase keeps a permutation and leaves, coded by the bit vector and the smallest order, a Leonardo forest over the whole array whose trees that can never be merged again are heaps with ascending roots; only the newest root is still unsifted |
| Smoothsort.Drain | src/libc/stdlib_qsort.cpp:219-236 | the second phase turns that forest into an ascending array, and is a permutation for every comparator |
| Smoothsort.SiftDown | src/libc/stdlib_qsort.cpp:112-136 | comparing along the path first and rotating once afterwards equals sinking the root by swaps with the larger child |
| Smoothsort.TrinkleRoots | src/libc/stdlib_qsort.cpp:138-174 | walking the roots by the bit code, then rotating and sifting, equals trinkling on the root list |
| Smoothsort.Cycle | src/libc/stdlib_qsort.cpp:68-87 | the chained copies through a temporary are the rotation along the path and touch nothing else |
| Smoothsort.LeonardoTable | src/libc/stdlib_qsort.cpp:189-190 | the table holds the Leonardo numbers as far as sorting this many elements can look |
| Smoothsort.RotateAt | src/libc/stdlib_qsort.cpp:68-87 | a chain of exchanges is one rotation: what it leaves at every position |
| Smoothsort.FitsFromSum | src/libc/stdlib_qsort.cpp:192-215 | a forest over a prefix within the bound has only orders whose shifts stay below a word |
| Smoothsort.VecMerge | src/libc/stdlib_qsort.cpp:193-196 | shifting right by two and setting bit 0 codes the forest with its two nearest trees and the new root merged |
| Smoothsort.VecPush | src/libc/stdlib_qsort.cpp:204-213 | shifting left by the order difference and setting bit 0 codes the forest with a new nearest tree |
| Smoothsort.VecSplit | src/libc/stdlib_qsort.cpp:225-228 | shift, exclusive or with 7 and shift back code the forest whose nearest tree gave way to its left child |
| Bits.ShlValue | src/libc/stdlib_qsort.cpp:90-99 | the two-word left shift multiplies by the power of two as long as the product fits in 128 bits |
| Bits.ShrValue | src/libc/stdlib_qsort.cpp:101-110 | the two-word right shift divides by the power of two |
| Bits.PntzExact | src/libc/stdlib_qsort.cpp:60-66 | the distance to the next tree is found exactly, unless it is 64, where the answer is 0 |
| Leonardo.SiftHeap | src/libc/stdlib_qsort.cpp:112-136 | sifting a root over two heaps gives a heap whose root is no smaller than before |
| Leonardo.HeapMax | src/libc/stdlib_qsort.cpp:112-136 | the root of a Leonardo heap is a maximum of all its elements |
| Forest.CodeNext | src/libc/stdlib_qsort.cpp:163-168 | the trailing zeros of the code say how far the next order is, and shifting by them codes the remaining forest |
| Forest.CodeMerge | src/libc/stdlib_qsort.cpp:193-196 | the code of the forest after merging two trees of adjacent order |
| Forest.CodePush | src/libc/stdlib_qsort.cpp:204-213 | the code of the forest after starting a new tree |
| Forest.TrinkleForest | src/libc/stdlib_qsort.cpp:138-174 | trinkling an almost ascending forest gives an ascending forest of heaps |
| Forest.ForestMax | src/libc/stdlib_qsort.cpp:219-234 | the head of an ascending forest is the maximum of everything left of it |
| Phases.GrowMerge | src/libc/stdlib_qsort.cpp:193-196 | sifting one of two adjacent trees keeps the forest of the growing phase |
| Phases.GrowFinal | src/libc/stdlib_qsort.cpp:198-199 | trinkling a tree that can never be merged again keeps the roots of all such trees ascending, which is what the test against the remaining length decides |
| Phases.GrowOpen | src/libc/stdlib_qsort.cpp:200-202 | a tree that will be merged later is only sifted |
| Phases.GrowDone | src/libc/stdlib_qsort.cpp:217 | at the end of the growing phase nothing but the last trinkle is missing: the forest meets the premise of `Forest.TrinkleForest` |
| Phases.DrainLeft | src/libc/stdlib_qsort.cpp:225-229 | taking a root off leaves everything above it in its final place, and its left child meets the premise of being trinkled |
| Phases.DrainRight | src/libc/stdlib_qsort.cpp:230-232 | with the left child trinkled the right child meets the premise of being trinkled too, and the forest stays ascending |
| ShiftLimit.ShiftsDefinedExactly | src/libc/stdlib_qsort.cpp:204-210 | every shift that makes room for a new tree is at least 0 and shorter than a word if and only if the array is no longer than the bound |
| BuddyAllocator.Buddy.Malloc | src/alloc_buddy.hpp:327-433 | all invariants are kept under any answers of RESERVE, and every live block keeps its bytes; a new block starts 8 bytes before the returned address and holds the request. It is the leftmost part of the block at the back of the smallest adequate list that is not empty; if all are, of the right half of the doubled root, or of the root grown to the bucket or its sibling; with nothing live it starts the range. When a list has a block at once, whether the request is served, the memory asked for and all lists afterwards are determined. An admissible request fails only if RESERVE refused the list heads, if no adequate free block exists up to bucket 0, if none does under the present root and memory for doubling it was refused or is beyond the limit, or if that is so for splitting the best free block; one for the whole range succeeds if and only if everything is free and memory already reaches to the end of the range |
| BuddyAllocator.Buddy.Free | src/alloc_buddy.hpp:454-504 | exactly the freed block stops being live, all invariants hold again and all other live blocks keep their bytes; a block whose buddy is in use goes to the back of its list and no other list changes; addresses out of range change nothing |
| BuddyAllocator.Buddy.Resize | src/alloc_buddy.hpp:440-449 | succeeds exactly when the new size belongs to the block's bucket, and then only the recorded size and its word in memory change |
| BuddyAllocator.Buddy.LowerBucketLimit | src/alloc_buddy.hpp:283-320 | the root grows until it reaches the bucket, with all live blocks and invariants kept; it stops only if the root is in use and memory for the links of its new right half was refused or lies beyond the limit |
| BuddyAllocator.Buddy.MergeUp | src/alloc_buddy.hpp:465-496 | after the loop the pending block, once listed, completes a good state |
| BuddyAllocator.Buddy.SplitDown | src/alloc_buddy.hpp:419-424 | the block ends as the leftmost block of the wanted size, with every right half listed |
| BuddyAllocator.Buddy.BucketForRequest | src/alloc_buddy.hpp:270-276 | the bucket of the smallest blocks that hold the request |
| BuddyAllocator.Buddy.PtrNode | src/alloc_buddy.hpp:234-247 | the maps between node indices and addresses are inverse to each other on every bucket |
| BuddyAllocator.Buddy.UpdateMax | src/alloc_buddy.hpp:222-224 | succeeds if and only if memory already reaches so far, or the end lies within the limit and RESERVE, called once, grants the missing bytes; the new end is what RESERVE says, else nothing changes |
| BuddyReserve.LimitExact | src/alloc_buddy.hpp:222-224 | the limit stops exactly the last block of a bucket, when it is wanted whole or has only 32 bytes |
| BuddyReserve.GrowLimit | src/alloc_buddy.hpp:304-306 | doubling the root is stopped by the limit only when blocks of 16 and 32 bytes are all there is |
| BuddyReserve.WholeTaken | src/alloc_buddy.hpp:222-224 | a live block of bucket 0 is the only one, and memory reaches to the end of the range |
| BuddyAllocator.WholeRangeFails | src/alloc_buddy.hpp:331-391 | on a new allocator the largest request that passes the first test fails although RESERVE never refuses |
| BuddyAllocator.ServedWhenFree | src/alloc_buddy.hpp:327-433 | with everything free, on a new allocator in particular, and a RESERVE that never refuses, every request for at most half of the range is served, at the start of the range |
| BuddyAllocator.FreedIsReused | src/alloc_buddy.hpp:499-502 | a block freed while its buddy is in use is the one that the next request of its size gets, at the same address |
| BuddyReserve.ChosenHere | src/alloc_buddy.hpp:356-398 | the search upwards from the bucket of the request finds the block that should be chosen |
| BuddySpec.SplitPending | src/alloc_buddy.hpp:419-424 | splitting keeps every invariant and the bytes of all live blocks |
| BuddyAllocator.BlocksSafe | src/alloc_buddy.hpp:327-433 | between any calls a live block holds its header and the whole request within reserved memory, its payload is 16-aligned, and it shares no byte with any other live block |
| BuddyAllocator.DoublingEnds | src/alloc_buddy.hpp:270-276 | in 64-bit arithmetic the doubling loop ends exactly for requests up to 2^63 |
| BuddySteps.LiveBlocksSafe | src/alloc_buddy.hpp:283-320 | in every consistent state a live block shares no byte with another live block nor with a listed one, and payloads are 16-aligned |
| BuddySteps.Tiled | src/alloc_buddy.hpp:172-201 | live and listed blocks tile exactly the current root range, each smallest block covered once |
| BuddySteps.NoBuddiesListed | src/alloc_buddy.hpp:486-496 | no consistent state has two free buddies |
| BuddySteps.AllFreed | src/alloc_buddy.hpp:454-504 | with nothing live the only listed block is the whole root |
| BuddySteps.TakeStep | src/alloc_buddy.hpp:371-412 | popping a block and flipping its parent's bit makes it live and keeps bits, lists and circles consistent |
| BuddySteps.SplitStep | src/alloc_buddy.hpp:419-424 | flipping the bit of a live block and listing its right half leaves its left half live |
| BuddySteps.MergeStep | src/alloc_buddy.hpp:472-495 | unlisting an unused buddy lets the parent stand for both halves |
| BuddySteps.ReleaseStep | src/alloc_buddy.hpp:472-502 | a block whose buddy is in use, or the root, becomes free |
| BuddySteps.GrowEmptyStep | src/alloc_buddy.hpp:291-296 | a wholly free root is replaced by a free root of twice its size |
| BuddySteps.GrowUsedStep | src/alloc_buddy.hpp:304-316 | a used root gets a free right sibling and a parent whose bits are right again |
| BuddySteps.InitStep | src/alloc_buddy.hpp:338-352 | the first reservation yields a consistent state with one free block |
| BuddyTree.TiledOnce | src/alloc_buddy.hpp:174-201 | in the block tree every smallest block lies in exactly one live or maximal unused block |
| BuddyTree.NoFreeBuddies | src/alloc_buddy.hpp:190-196 | two buddies are never both maximal unused blocks |
| BuddyTree.RootBit | src/alloc_buddy.hpp:287-291 | the bit above the root says whether anything is live |
| FreeList.PushedCircle | src/alloc_buddy.hpp:118-123 | `push` appends a cell at the back of a circular list |
| FreeList.RemovedCircle | src/alloc_buddy.hpp:131-135 | `remove` takes one cell out of its circle without being told which list it is |
| BuddyState.BlocksApart | src/alloc_buddy.hpp:226-247 | blocks of which none contains the other share no byte |
| TreeSets.TreeSet.Insert | include/dlh/container/tree.hpp:306-317 | the sequence of values becomes the old one with the value added in order; it reports whether the value is new, and the slot it returns holds an equal value |
| TreeSets.TreeSet.InsertAt | include/dlh/container/tree.hpp:925-981 | hanging in a leaf and rebalancing keeps order, balance, links and count, with or without a known parent |
| TreeSets.TreeSet.InsertNode | include/dlh/container/tree.hpp:324-335 | the value left in a slot of this set by an extraction goes back in, into that slot if it is new; the slot returned holds an equal value |
| TreeSets.TreeSet.InsertForeign | include/dlh/container/tree.hpp:324-335 | a node of another container takes the next slot without making room; right whenever there is one or the value is known |
| TreeSets.TreeSet.RebalanceInserted | include/dlh/container/tree.hpp:948-977 | from a fresh leaf upwards the loop restores all balances and keeps the order of slots |
| TreeSets.TreeSet.RebalanceErased | include/dlh/container/tree.hpp:992-1020 | before unlinking, the loop makes all balances right for the tree without the slot |
| TreeSets.TreeSet.EraseNode | include/dlh/container/tree.hpp:987-1023 | a slot with at most one child leaves the order, and the rest stays a balanced search tree |
| TreeSets.TreeSet.ExtractInner | include/dlh/container/tree.hpp:346-350 | with two children the successor is unlinked and takes the slot's place, wherever rotations have moved it |
| TreeSets.TreeSet.Extract | include/dlh/container/tree.hpp:342-359 | exactly the value of the slot leaves the set, and every invariant holds |
| TreeSets.TreeSet.Erase | include/dlh/container/tree.hpp:410-418 | removes exactly the equal value, if there is one, and tells whether there was |
| TreeSets.TreeSet.Rotate | include/dlh/container/tree.hpp:1031-1108 | simple and double rotations in both directions compute the specified array, raised slot and height report; the assertions hold |
| TreeSets.TreeSet.ReplaceNode | include/dlh/container/tree.hpp:1116-1153 | the link from above, and with children also balance and child links, pass to the replacement |
| TreeSets.TreeSet.ContainsNode | include/dlh/container/tree.hpp:845-864 | finds the slot of an equal value, or the place where the value belongs with all smaller values before and all greater behind it; there is one comparison for every slot on the path to that place, and no more than the height |
| TreeSets.TreeSet.LowerNode | include/dlh/container/tree.hpp:745-763 | the slot of the greatest value less than the given one, 0 if there is none |
| TreeSets.TreeSet.FloorNode | include/dlh/container/tree.hpp:770-787 | the slot of the greatest value not exceeding the given one |
| TreeSets.TreeSet.CeilNode | include/dlh/container/tree.hpp:794-811 | the slot of the least value not less than the given one |
| TreeSets.TreeSet.HigherNode | include/dlh/container/tree.hpp:818-836 | the slot of the least value greater than the given one |
| TreeSets.TreeSet.Find | include/dlh/container/tree.hpp:425-430 | the slot of an equal value, 0 exactly if the set has none |
| TreeSets.TreeSet.MinNode | include/dlh/container/tree.hpp:721-726 | the first slot in the order of a subtree |
| TreeSets.TreeSet.MaxNode | include/dlh/container/tree.hpp:733-738 | the last slot in the order of a subtree |
| TreeSets.TreeSet.Next | include/dlh/container/tree.hpp:37-49 | the slot that follows in the order, 0 behind the last |
| TreeSets.TreeSet.Prev | include/dlh/container/tree.hpp:51-63 | the slot that precedes in the order, 0 before the first |
| TreeSets.TreeSet.Reorder | include/dlh/container/tree.hpp:896-918 | terminates, compacts the active slots to the front, and keeps the values in order and the shape |
| TreeSets.TreeSet.Resize | include/dlh/container/tree.hpp:626-644 | succeeds exactly for sizes above the count and within 32 bits, and keeps values and shape |
| TreeSets.TreeSet.Increase | include/dlh/container/tree.hpp:880-891 | leaves a free slot whenever there was one or the doubled capacity fits 32 bits; the capacity changes only if more than half of a full set is in use, and it fails exactly when the doubled capacity wraps to too little |
| TreeSets.TreeSet.Check | include/dlh/container/tree.hpp:684-713 | the container's own consistency check never fails |
| TreeSets.TreeSet.CheckOrder | include/dlh/container/tree.hpp:693-704 | walking from begin by next visits every slot once, in ascending order of values |
| TreeSets.TreeSet.CheckNode | include/dlh/container/tree.hpp:669-680 | the recomputed height is the height, and all stored parents and balances fit |
| TreeSets.TreeSet.Clear | include/dlh/container/tree.hpp:661-664 | the set is empty afterwards; unless it was empty before, all slots are free again |
| TreeSets.TreeSet.constructor | include/dlh/container/tree.hpp:106-110 | a new set is empty and valid |
| TreeSets.DepthBound | include/dlh/container/tree.hpp:844-864 | the number of values bounds a Fibonacci number of the height |
| TreeShape.AvlBound | include/dlh/container/tree.hpp:669-680 | a balanced tree of height h has at least Fib(h + 2) - 1 slots |
| TreeSteps.RotatePlugged | include/dlh/container/tree.hpp:1031-1108 | a rotation in its place leaves consistent links for the rotated shape in the whole tree |
| TreeSteps.RotatedIdx | include/dlh/container/tree.hpp:1031-1108 | a rotation keeps the order of the slots |
| TreeBalance.RotateBal | include/dlh/container/tree.hpp:1064-1100 | the balances written by a rotation are the height differences, and the subtree loses a level unless the far child was even |
| TreeGrow.GrowEven | include/dlh/container/tree.hpp:953-974 | an even ancestor tips over and has itself grown |
| TreeGrow.GrowAbsorb | include/dlh/container/tree.hpp:953-957 | an ancestor leaning the other way absorbs the growth |
| TreeGrow.GrowRotate | include/dlh/container/tree.hpp:957-971 | an ancestor leaning the same way is rotated and the tree is balanced again |
| TreeShrink.ShrinkNear | include/dlh/container/tree.hpp:998-1010 | an ancestor leaning to the shrunken side becomes even and has itself shrunk |
| TreeShrink.ShrinkEven | include/dlh/container/tree.hpp:1001-1013 | an even ancestor tips and stops the loop |
| TreeShrink.ShrinkRotate | include/dlh/container/tree.hpp:1004-1016 | an ancestor leaning away is rotated, and the loop stops exactly when the height stays |
| TreeShrink.DelIdx | include/dlh/container/tree.hpp:987-1023 | deleting takes exactly one slot out of the order |
| TreeReplace.Unlink | include/dlh/container/tree.hpp:1021-1022 | unlinking the slot gives the balanced tree without it |
| TreeReplace.TakePlace | include/dlh/container/tree.hpp:1116-1153 | a slot outside the tree takes over links, balance and children of one inside |
| TreeOrder.AddedLaw | include/dlh/container/tree.hpp:306-317 | membership after adding, for every value: the law of a set |
| TreeOrder.RemovedLaw | include/dlh/container/tree.hpp:410-418 | membership after removing, for every value |
| TreeOrder.CutNeighbours | include/dlh/container/tree.hpp:744-836 | a cut through the order names both neighbours of a value |
| FutexMutex.MutualExclusion | src/mutex.cpp:12-48 | in every run at most one thread holds the lock, and the variable is Unlocked exactly when none does |
| FutexMutex.NoLostWakeup | src/mutex.cpp:12-48 | in every run, while a thread sleeps, another holds the lock with the mark set, is about to wake a sleeper, or is about to set the mark |
| FutexMutex.FreeIsTaken | src/mutex.cpp:12-48 | from every reachable state with a free lock and a thread in lock(), even if all of these sleep, at most two steps of such threads or of one that is waking, without interruption, give the lock to one of them |
| FutexMutex.StepKeepsOneHolder | src/mutex.cpp:12-48 | every step keeps: the variable is Unlocked exactly when nobody holds the lock |
| FutexMutex.StepKeepsCover | src/mutex.cpp:12-48 | every step keeps sleepers covered, with timeouts, interruptions and failed waits |
| FutexMutex.Refines | src/mutex.cpp:12-48 | every step is a step of an abstract lock: the acting thread takes it when free, or frees it or hands it over when it has it; a try and either locking step take it exactly when it is free, an unlock frees it, and a wait that times out ends the call without it |
| ReaderWriterLock.Exclusion | include/dlh/rwlock.hpp:17-66 | in every run a writer excludes all readers and all other writers |
| ReaderWriterLock.BlockCounts | include/dlh/rwlock.hpp:17-47 | while `reader` is free, `block` is the number of active readers; if it is positive, `global` is taken and no writer has it, else `global` is taken exactly by a writer |
| ReaderWriterLock.WaitsForWriter | include/dlh/rwlock.hpp:17-22 | a thread that waits for `global` while holding `reader` waits for a writer |
| ReaderWriterLock.NoDeadlock | include/dlh/rwlock.hpp:17-66 | in every run, as long as a thread is inside or in the middle of an operation, one of these can step |
| ReaderWriterLock.StepBlock | include/dlh/rwlock.hpp:19-44 | the counter follows the counted threads and never wraps |
| ReaderWriterLock.StepGlobal | include/dlh/rwlock.hpp:17-66 | every step keeps `global` with one writer or with the counted readers |
| FutexReaderWriter.NoDeadlock | include/dlh/rwlock.hpp:17-66 | with both mutexes run step by step on their futexes: in every run, as long as a thread is inside the lock, in the middle of an operation or asleep in one, one of these can go on by itself, without interruption |
| FutexReaderWriter.Exclusion | include/dlh/rwlock.hpp:17-66 | in every such run a writer excludes all readers and all other writers |
| FutexReaderWriter.Refines | include/dlh/rwlock.hpp:17-66 | every step of either mutex or of the counter is a step of the lock over abstract mutexes, or changes nothing there |
| FutexReaderWriter.AbstractRun | include/dlh/rwlock.hpp:17-66 | so every run is one of that lock, and what holds for its runs holds here |
| FutexReaderWriter.StepInvariant | include/dlh/rwlock.hpp:17-66 | every step keeps the invariants of both mutexes and of the lock, and the places of all threads in them fit together |
| FutexReaderWriter.AlwaysEnabled | include/dlh/rwlock.hpp:17-66 | whatever the code may do at its place, the abstract lock allows |
| RecursiveMutex.CheckIsExact | include/dlh/mutex_rec.hpp:19-29 | in every run `check` succeeds only for a thread that has the lock, and fails for such a thread only at the maximal count |
| RecursiveMutex.CountsLocks | include/dlh/mutex_rec.hpp:50-84 | only one thread has the lock, `recursion` is its locks minus its unlocks, and the owner is stored as its id or 0 for the main thread |
| RecursiveMutex.ReleasesAtZero | include/dlh/mutex_rec.hpp:77-84 | in every run only the unlock that brings the count to zero goes on to release the mutex, only that release frees it, and then every lock count is zero |
| RecursiveMutex.AssertionsHold | include/dlh/mutex_rec.hpp:19-84 | the assertions in the source hold whenever they are reached |
| RecursiveMutex.OutsiderReads | include/dlh/mutex_rec.hpp:22 | the unsynchronised reads of `owner` never mislead a thread that does not have the lock |
| RecursiveMutex.StepInvariant | include/dlh/mutex_rec.hpp:19-84 | every step keeps one thread inside and the fields as that thread sees them |
| HashSets.HashSet.FindIn | include/dlh/container/hash.hpp:748-759 | searching one bucket gives the answer of a scan over all slots; the assertions hold |
| HashSets.HashSet.Find | include/dlh/container/hash.hpp:447-449 | the slot of an equal value, or the end exactly if the set has none |
| HashSets.HashSet.Insert | include/dlh/container/hash.hpp:401-418 | the set gains the value unless it has an equal one; reports which, and the slot |
| HashSets.HashSet.Emplace | include/dlh/container/hash.hpp:379-394 | the same, with the value constructed in the free slot before the search |
| HashSets.HashSet.InsertNode | include/dlh/container/hash.hpp:425-439 | the value left in a slot of this set by an extraction goes back in, into that slot if it is new; the slot returned holds an equal value |
| HashSets.HashSet.InsertForeign | include/dlh/container/hash.hpp:425-439 | a node of another container takes the next slot without making room; right whenever there is one or the value is known |
| HashSets.HashSet.InsertAt | include/dlh/container/hash.hpp:766-784 | activating and hooking in a slot keeps all chains; the assertions hold |
| HashSets.HashSet.Extract | include/dlh/container/hash.hpp:475-503 | exactly the value of the slot leaves the set and all chains are kept; the assertions hold |
| HashSets.HashSet.Erase | include/dlh/container/hash.hpp:555-561 | removes exactly the equal value, if there is one |
| HashSets.HashSet.Bucketize | include/dlh/container/hash.hpp:717-740 | from any array without valid chains, a scan rebuilds chains that partition the active slots, with cached or fresh hash values, also when it stops early |
| HashSets.HashSet.Reorder | include/dlh/container/hash.hpp:692-711 | terminates, compacts the active slots to the front and keeps values and hash values; without change the chains stay valid |
| HashSets.HashSet.Reorganize | include/dlh/container/hash.hpp:573-576 | compacts and rebuilds, unless the set is empty |
| HashSets.HashSet.Rehash | include/dlh/container/hash.hpp:565-568 | keeps the set |
| HashSets.HashSet.Resize | include/dlh/container/hash.hpp:584-615 | succeeds exactly for sizes above the count and within 32 bits; keeps the set and rebuilds the chains |
| HashSets.HashSet.Increase | include/dlh/container/hash.hpp:668-679 | leaves a free slot if and only if the set was not full of unused slots; the capacity changes only if more than half of a full set is in use, and it fails exactly when the doubled capacity wraps to too little |
| HashSets.HashSet.Clear | include/dlh/container/hash.hpp:650-654 | the set is empty afterwards; unless it was empty before, all slots are free again, and the state in which no room can be made is neither entered nor left |
| HashSets.HashSet.constructor | include/dlh/container/hash.hpp:111-115 | a new set is empty and valid |
| HashSets.FillAndDrain | include/dlh/container/hash.hpp:668-679 | a run of insertions and removals after which `increase` cannot make room |
| HashSets.FillClearInsert | include/dlh/container/internal/elements.hpp:137-146 | a full set of sixteen slots that is cleared takes its next value into slot 1 |
| HashChains.FileIn | include/dlh/container/hash.hpp:770-780 | linking a slot in at the head of its bucket keeps every chain a doubly linked list of exactly its slots |
| HashChains.FileOut | include/dlh/container/hash.hpp:481-500 | unlinking a slot from its neighbours keeps every chain likewise |
| HashSpec.ChainDecides | include/dlh/container/hash.hpp:748-759 | no equal value in its bucket means no equal value in any active slot |
| HashSpec.BucketsMost | include/dlh/container/hash.hpp:660-663 | the number of buckets is the largest below 2^32 - 1 of which a hundredfold does not exceed slots times load percentage |
| HashSpec.RebuildDone | include/dlh/container/hash.hpp:720-739 | when as many slots as the count are filed, all active slots are |
| HashSpec.LooseMoved | include/dlh/container/hash.hpp:696-703 | a move keeps the set of values, their hash values and their distinctness |
| XxHash.XXHash64.Add | include/dlh/xxhash.hpp:129-187 | after adding a chunk the state is the fold over all full stripes of everything added, and the buffer the rest |
| XxHash.XXHash64.AddZeros | include/dlh/xxhash.hpp:68-122 | adding n zeros leaves the state of adding n zero bytes |
| XxHash.XXHash64.Hash | include/dlh/xxhash.hpp:211-256 | the XXH64 hash of everything added, which the published values below fix |
| XxHash.XXHash64.constructor | include/dlh/xxhash.hpp:60-62 | the state of a hasher that has seen nothing |
| XxHash.HashOf | include/dlh/xxhash.hpp:265-269 | the one-shot hash is XXH64 of the input |
| XxHashValues.EmptyValues | include/dlh/xxhash.hpp:225-255 | the published hashes of the empty input, with seed 0 and with the seed of the reference implementation's self test |
| XxHashValues.ValueOfA | include/dlh/xxhash.hpp:246-255 | "a" hashes to 0xD24EC4F1A98C6E5B with seed 0 |
| XxHashValues.ValueOfAbc | include/dlh/xxhash.hpp:246-255 | "abc" hashes to 0x44BC2CF5AD770999 with seed 0 |
| XxHashValues.ValueOfDigest | include/dlh/xxhash.hpp:236-255 | "message digest", a word, a half word and two bytes, hashes to 0x066ED728FCEEB3BE with seed 0 |
| XxHashValues.ValueOfSeeded | include/dlh/xxhash.hpp:225-255 | "xxhash" hashes to 0xB559B98D844E0635 with seed 20141025 |
| XxHashValues.ValueOfSpammish | include/dlh/xxhash.hpp:48-54 | "Nobody inspects the spammish repetition", one stripe and seven bytes, hashes to 0xFBCEA83C8A378BF1 with seed 0 |
| XxHashValues.ValueOfDigits | include/dlh/xxhash.hpp:48-54 | "1234567890" eight times over, two stripes and two words, hashes to 0xE04A477F19EE145D with seed 0 |
| XxHashValues.ValueOfSanity | include/dlh/xxhash.hpp:211-256 | the 101 bytes of the reference implementation's self test hash to 0xCAA65939306F1E21 with its seed |
| XxHash.HashChunks | include/dlh/xxhash.hpp:129-256 | for every split of an input into chunks the hash equals the one-shot hash |
| XxHash.SameBytesSameState | include/dlh/xxhash.hpp:68-187 | two hashers that have seen the same bytes cannot be told apart |
| XxHash.ZeroStripe | include/dlh/xxhash.hpp:100-107 | the shortened step for zeros is the general one |
| XxHash.ShortWayOverruns | include/dlh/xxhash.hpp:76-81 | the short way writes behind the buffer if and only if the sum in its test wraps |
| XxHash.WrappedLength | include/dlh/xxhash.hpp:76-81 | a case of it: one byte present and the longest length, where the 32nd write is behind the buffer |
| MersenneTwister.Random.Number | include/dlh/random.hpp:65-93 | the k-th number after seeding is the tempering of term 624 + k of the MT19937 recurrence, which the known numbers below fix |
| MersenneTwister.Random.Set | include/dlh/random.hpp:52-60 | seeding fills the array with the first 624 terms |
| MersenneTwister.Random.TwistAll | include/dlh/random.hpp:69-80 | the in-place batch twist replaces every term by the one 624 places on |
| MersenneValues.KnownNumbers | include/dlh/random.hpp:52-93 | with the seed 5489 the first eight numbers of the recurrence, from 3499211612 on, and number 228, which needs a term that has been twisted already |
| MersenneValues.FirstNumbers | include/dlh/random.hpp:65-93 | a generator with that seed returns these numbers |
| StringSearch.Prefix | src/string.cpp:18-29 | the table as built, which is a table of proper borders |
| StringSearch.Find | src/string.cpp:31-48 | terminates and returns what the search function says |
| StringSearch.SearchSound | src/string.cpp:31-48 | with any table of proper borders every hit is an occurrence at or after the start |
| StringSearch.SearchComplete | src/string.cpp:31-48 | with a safe table the result is the first occurrence, and none means none |
| StringSearch.LongestSafe | src/string.cpp:31-48 | the longest-border table is safe |
| StringSearch.SearchExact | src/string.cpp:31-48 | a table is right for every haystack and start if and only if it is safe |
| StringSearch.TrapMisses | src/string.cpp:31-48 | the haystack in which an unsafe table finds nothing although the needle occurs |
| StringSearch.BuiltSafe | src/string.cpp:18-29 | the built table is safe if and only if equal two-character or longer borders go on alike |
| StringSearch.MissedOccurrence | src/string.cpp:18-48 | `ababc` occurs in `abababc` and is not found |
| StringSearch.FindString | src/string.cpp:92-111 | the answer of the search with the built table; a hit is an occurrence; for findable needles the first one, and a miss means none |
| StringSearch.FirstExact | src/string.cpp:92-111 | `find` gives the first occurrence in every haystack if and only if the needle is findable |
| StringSearch.FindLast | src/string.cpp:125-150 | the last of the hits sought one behind the other; a hit is an occurrence; for findable needles the last one; for the empty needle 0 |
| StringSearch.LastExact | src/string.cpp:125-150 | `find_last` gives the last occurrence in every haystack if and only if the needle is findable |
| StringSearch.Split | src/string.cpp:186-203 | the hits sought one behind the other; the positions are occurrences, strictly increasing and without overlap; for findable delimiters each is the first behind the one before, and none is left out |
| StringSearch.SplitExact | src/string.cpp:186-203 | `split` goes by all occurrences in turn in every string if and only if the delimiter is findable |
| NumberText.TextLength | src/stream/buffer.cpp:45-134 | a printed number is as wide as asked for, or as long as it has to be |
| NumberText.DigitsMean | src/stream/buffer.cpp:118-127 | the digits stand for the value, without leading zeros |
| NumberText.DigitTable | src/parser/string.cpp:47-55 | the digit characters and their values, in two rows for the two letter cases |
| NumberShape.TextExact | src/stream/buffer.cpp:45-134 | the text of a number is the only one of its shape: padding on one side or between prefix and digits, the sign or the prefix asked for, zeros up to the precision, digits in one letter case that stand for the value |
| NumberShape.PlainDecimal | src/stream/buffer.cpp:103-110 | in decimal without padding, the digits stand alone or behind one character: a minus for negative numbers, else a plus or a blank as asked for |
| NumberShape.DecimalSamples | test/printf.cpp:57-81 | texts like those the tests expect, for each sign and side of the padding |
| NumberShape.HexSamples | test/printf.cpp:157-267 | likewise with prefix 0x or 0X, with precision, and with zeros as padding |
| NumberShape.OctalSamples | test/printf.cpp:160-265 | likewise in octal, where the padding follows the prefix and a zero needs none |
| BufferStreams.BufferStream.WriteFillUnsigned | src/stream/buffer.cpp:45-134 | the buffer receives the text of the number, which has the shape asked for, as far as there is room; the width is reset except for a zero without precision |
| BufferStreams.BufferStream.WriteFillSigned | src/stream/buffer.cpp:37-42 | likewise for a signed number, as unsigned 64-bit value outside decimal |
| BufferStreams.BufferStream.Put | src/stream/buffer.cpp:169-184 | one character with padding, as far as there is room |
| BufferStreams.BufferStream.Write | src/stream/buffer.cpp:158-166 | a repeated character, as far as there is room |
| BufferStreams.BufferStream.CountDigits | src/stream/buffer.cpp:52-55 | the number of digits and the highest power of the base not exceeding the value |
| BufferStreams.BufferStream.PutDigits | src/stream/buffer.cpp:119-127 | dividing by falling powers prints the digits highest first |
| NumberParser.StringToUnsigned | src/parser/string.cpp:11-70 | the loops accept exactly the texts that are unsigned numbers, and return the number |
| NumberParser.StringToSigned | src/parser/string.cpp:72-97 | the loops accept exactly the texts that are signed numbers in the range of 64 bits, and return the number |
| NumberParser.DigitsToUnsigned | src/parser/string.cpp:38-65 | the digit loop accepts exactly the grouped digits, and returns the number they denote |
| NumberParser.DigitsExact | src/parser/string.cpp:38-65 | a text is accepted with a number if and only if its characters are digits up to the base or spacers of one kind, the 64-bit value never drops from digit to digit, and the number is the value of the digits modulo 2^64 |
| NumberParser.UnsignedExact | src/parser/string.cpp:15-65 | likewise for a whole text: blanks, perhaps a plus and blanks, the prefix that the first characters announce, and grouped digits |
| NumberParser.SignedExact | src/parser/string.cpp:76-95 | likewise for signed numbers: blanks, a sign or a digit or the end, an unsigned number, and the range of 64 bits |
| NumberParser.NoNumbers | test/parser-string.cpp:59-88 | two of the texts that the tests expect to be refused |
| NumberParser.UnsignedRoundTrip | src/parser/string.cpp:11-70 | every 64-bit value, in decimal with any sign mode or in base 2, 8 or 16 with prefix, either letter case, any space-filled width and alignment, is read back, except exactly a zero with padding behind it |
| NumberParser.SignedRoundTrip | src/parser/string.cpp:72-97 | the same for signed decimal values above the least one |
| PrintedNumbers.PrintAndParse | src/stream/buffer.cpp:45-134 | printing into a buffer with room and parsing the buffer returns the value, and the output has the promised length |
| PrintedNumbers.PrintAndParseSigned | src/stream/buffer.cpp:37-42 | the same for signed decimal values above the least one, with the promised length |

## Left out

- Bits.PntzExact: the table lookup with a multiplication that counts trailing zeros is taken as the number of trailing zeros, with its answer 0 for 0; the constants of that table are not part of this model.
- Smoothsort.Cycle: elements are moved whole; copying in chunks of 256 bytes is not modelled.
- Smoothsort.Qsort: requires the length bound beyond which a shift by the full word width is undefined.
- BuddyAllocator.Buddy.Malloc: `request + HEADER_SIZE` is taken not to wrap; RESERVE is any function of the number of the call, the size and the old end that refuses or supplies at least the size behind that end.
- BuddyAllocator.Buddy.Free: the caller passes an address returned by `malloc` whose block is live, or one outside the range.
- BuddyAllocator.Buddy.FlipParentIsSplit: the bits are a sequence; packing eight of them into a byte is not modelled, nor the too small array for fewer than four buckets.
- TreeSets.TreeSet.Insert: allocation succeeds, and the set is not full at a capacity of 2^31 or more, where the doubled capacity wraps and the result of `increase` is ignored; `emplace`, which constructs the value in the free slot first, is modelled for the hash set only.
- TreeSets.TreeSet.LowerNode: the `break` out of the descent at an equal value is a return.
- HashSets.HashSet.Insert: not called in the full and empty state in which no room can be made, nor where the capacity wraps.
- TreeSets.TreeSet.InsertForeign: with no free slot and a new value the source writes behind its array; that case is excluded.
- HashSets.HashSet.InsertForeign: likewise, and so is a set without capacity, which has no bucket to search.
- HashSets.HashSet.Emplace: not called where `Insert` is not.
- FutexReaderWriter.NoDeadlock: `lock` is called without a timeout there, as in the source; that the readers as a group hold `global` is bookkeeping of the model.
- HashSets.HashSet.constructor: load percentages below 7 are excluded, for which 16 slots get no bucket and the source takes a hash value modulo 0.
- HashSets.HashSet.Rehash: values are not changed behind the set's back, so that it never has anything to repair.
- HashSets.HashSet.Resize: the bucket array is a sequence of its own; that it lies behind the slots in one allocation is not modelled.
- XxHash.XXHash64.AddZeros: the caller keeps the sum of buffer size and length below 2^64.
- XxHash.XXHash64.Hash: fewer than 2^64 bytes have been added in all; words are read as on a little-endian machine.
- BufferStreams.BufferStream.WriteFillSigned: the least 64-bit value is left out in decimal, where negating it overflows; flushing has no effect, as in the base class.
- StringSearch.FindString: null pointers are not modelled; strings end at their length.
- Iterators of the hash set, `bucket_count`, map wrappers, copy and range constructors, and conversions between the containers, which would only add easy members.
- System calls, memory mapping, files, sockets, threads, logging and start-up code; reservations and futex calls appear as steps with any outcome.
- Weak memory ordering, fork, and liveness of the locks: the step systems are sequentially consistent and state safety.
- `Vector`, `List`, `Optional`, `ByteBuffer`, string formatting and replacement, path splitting, date and time, and tables.
