# Verification of the memory tester

This project models the parts of the motherboard memory tester whose correctness is
hardest to see, and proves what they promise.

* **The red-black tree** (`Rb*.dfy`). Nodes are heap objects with child and parent links;
  `Root` carries a ghost copy of the shape below it. Every loop of the library is a method
  over those objects. The broken intermediate states are described by a context (the tree
  around a hole) and a subtree. `RbNodes` has the data and the framing lemmas, `RbRotate`,
  `RbInsert`, `RbErase`, `RbSplice`, `RbWalk` and `RbReplace` follow the C functions, and
  `RbTree`, `RbOrder`, `RbRuns` state the results on the in-order sequence.
* **The memory tests** (`MemoryDevice`, `March*.dfy`, `MovInv*.dfy`, `MovingPattern`). `Memory` is an array of
  64-bit cells behind an address decoder and one fault. The tests are methods with the loops
  of the C code, equal to passes over the device given as functions; soundness and
  completeness are lemmas about those functions. `MovInv32` has the bit arithmetic of the
  moving pattern, `MovingPattern` its passes.
* **The memory map** (`NodeMap`, `NodeMapFacts`, `BootMap`, `TaskSlices`, `TestPolicy`,
  `Pipeline`). From BIOS entries and NUMA blocks to the slices the tests write.
  `Undefined` is the outcome where the C code writes past one of its arrays.
* **Error accounting** (`LeakyBucket`, `PageHistory`, `PageErrors`, `MemLedger`, `MemDb`).
  The heap side of each table is tied to a value that the events alone determine; the
  properties of whole runs are proved of that value.

`Common` holds the page size and two facts about multiplication and division.
`dafny verify dfyconfig.toml` checks everything.

## What the code does not do

Six expectations a reader may have are false of the code. Each has a lemma with a
concrete input or the exact condition, or both.

* Not every page of the window that is asked to be tested is tested, and no error need be
  reported. `init_module` links each range through an array of one node, gives up after a
  NUMA block without a whole page, and has room for 20 regions. `Pipeline.TestedExactly` is an
  if and only if whose condition, the end of the loop, `TaskSlices.CompletesExactly` spells
  out on the region list; `Pipeline.SecondNodeInput`, `Pipeline.EmptyRegionInput` and
  `TaskSlices.OverrunIsUndefined` are the failing inputs.
* `mempage_insert` rebalances only when nothing was inserted. The page tree is a search
  tree, but it is red-black only while it is empty (`PageErrors.RedBlackOnlyEmpty`), and
  reports of ascending pages make it a list (`PageErrors.RunAscending`).
* `add_active_range` loses the lower part of a range that engulfs a region of its node.
  `NodeMapFacts.AddedExact` gives the pages covered for every input, `NodeMapFacts.KeptExactly`
  those kept after any sequence of ranges; `NodeMapFacts.EngulfingLosesPages` is an example, and
  `NodeMapFacts.ReservedInRamLosesPages` is one of a machine without an SRAT, where a reserved
  entry inside RAM costs RAM pages.
* The down passes of the moving-inversion tests skip word 0 for some lengths
  (`MovInv.Skips`), and on healthy memory a second round then reports a failure
  (`MovInv.MovInvHealthy` and `MovingPattern.Healthy32`, both if and only if); in a single
  round a stuck bit of word 0 can go unnoticed (`MovInv.MovInvFindsStuck`,
  `MovingPattern.MovInv32FindsStuck`). The 128 calls of `test_movinv_long` together do find it
  (`MovingPattern.LongFindsStuck`), and slices never have such a length
  (`Pipeline.SlicesNeverSkip`).
* The leak of the bucket is all or nothing (`LeakyBucket.AgingEmpties`): it is a tumbling
  window, not a leak, and an increment can wrap past the capacity unreported
  (`LeakyBucket.OverflowExact`, `LeakyBucket.WrapLosesOverflow`), though not with the increments
  of its callers and a capacity of 2^32 - 2^15 or less (`LeakyBucket.CallersOverflowExact`).
* A failure of the closing check of a round of `march_c` is forgotten when another round
  follows. The coupling proof therefore uses the next round's first check in its place
  (`MarchDetect.CoupledRound`).

## Model

| member | source | states |
|---|---|---|
| RbRotate.RotateLeft | testMoBoMemory/app/mem_src/mcelog/rbtree.c:26-47 | Every cell of the heap after a left rotation: the node, its right child, the grandchild that changes sides, and the parent or root link; nothing else moves |
| RbRotate.RotateLeftHolds | testMoBoMemory/app/mem_src/mcelog/rbtree.c:26-47 | On any linked tree around any node with a right child, those cell updates hold exactly the rotated shape, parent links included |
| RbRotate.RotateRight | testMoBoMemory/app/mem_src/mcelog/rbtree.c:49-70 | The mirror image of the left rotation, cell by cell |
| RbRotate.RotateRightHolds | testMoBoMemory/app/mem_src/mcelog/rbtree.c:49-70 | Those updates hold exactly the right-rotated shape, parent links included |
| RbBalance.FitsIffRedBlack | testMoBoMemory/app/mem_src/mcelog/rbtree.c:72-215 | The local condition kept by the climbing loops (subtree balanced, surroundings accept its black height and colour) holds exactly when the whole tree is red-black |
| RbInsert.RedUncle | testMoBoMemory/app/mem_src/mcelog/rbtree.c:82-92 | Recolouring parent, uncle and grandparent moves the only possible red-red clash two levels up, with everything else red-black, and keeps the order |
| RbInsert.BlackUncleRight | testMoBoMemory/app/mem_src/mcelog/rbtree.c:94-105 | With a black uncle on the right, one or two rotations and a recolouring put a black node on top, so that nothing offends any more, and keep the order |
| RbInsert.BlackUncleLeft | testMoBoMemory/app/mem_src/mcelog/rbtree.c:119-130 | The same on the other side |
| RbInsert.InsertColor | testMoBoMemory/app/mem_src/mcelog/rbtree.c:72-135 | From a tree that is red-black but for one red leaf, the loop ends with a linked red-black tree in the same order |
| RbTree.InsertColor | testMoBoMemory/app/mem_src/mcelog/rbtree.c:72-135 | The same for a root cell: linked consistently, red-black, order and node set unchanged |
| RbTree.LinkNode | testMoBoMemory/app/mem_src/mcelog/rbtree.h:156-163 | Linking at an empty link found by a descent gives exactly the old tree with one red leaf at that place |
| RbErase.SiblingTurnedRightShort | testMoBoMemory/app/mem_src/mcelog/rbtree.c:144-153 | Rotating a red sibling away keeps the subtree exactly one black level short and gives it a black sibling (so the sibling is never null) |
| RbErase.ClosedRightFits | testMoBoMemory/app/mem_src/mcelog/rbtree.c:161-176 | With a red nephew, the recolourings and rotations of the closing case restore red-black and keep the order |
| RbErase.ClosedLeftFits | testMoBoMemory/app/mem_src/mcelog/rbtree.c:195-210 | The same on the other side |
| RbErase.EraseColor | testMoBoMemory/app/mem_src/mcelog/rbtree.c:137-215 | From a subtree one black level short anywhere in a tree, the loop ends with a linked red-black tree in the same order |
| RbErase.OneChildGone | testMoBoMemory/app/mem_src/mcelog/rbtree.c:264-281 | Splicing out a node with at most one child: still red-black when the node was red, short by exactly one black level at the splice when it was black |
| RbErase.SuccessorMoved | testMoBoMemory/app/mem_src/mcelog/rbtree.c:226-262 | The same when the in-order successor takes the node's place and colour |
| RbErase.Erase | testMoBoMemory/app/mem_src/mcelog/rbtree.c:217-282 | Both cases of the removal at the heap level, with the rebalancing that follows |
| RbTree.Erase | testMoBoMemory/app/mem_src/mcelog/rbtree.c:217-282 | For every red-black tree and every node in it: the result is red-black, consistently linked, its order is the old one without that node, and the node set loses exactly that node |
| RbHeight.HeightBound | testMoBoMemory/app/mem_src/mcelog/rbtree.c:72-282 | A red-black tree of n nodes has 2^height <= (n+1)^2, that is height <= 2 log2(n+1) |
| RbOrder.First | testMoBoMemory/app/mem_src/mcelog/rbtree.c:287-297 | The first node of the order, null for the empty tree |
| RbOrder.Last | testMoBoMemory/app/mem_src/mcelog/rbtree.c:299-309 | The last node of the order |
| RbOrder.Next | testMoBoMemory/app/mem_src/mcelog/rbtree.c:311-337 | From the node at position i to the one at i+1, or null after the last |
| RbOrder.Prev | testMoBoMemory/app/mem_src/mcelog/rbtree.c:339-361 | From the node at position i to the one at i-1, or null before the first |
| RbOrder.Walk | testMoBoMemory/app/mem_src/mcelog/page.c:209-230 | First followed by repeated next visits exactly the in-order sequence and ends |
| RbOrder.NextThenPrev | testMoBoMemory/app/mem_src/mcelog/rbtree.c:311-361 | Prev undoes next |
| RbTree.ReplaceNode | testMoBoMemory/app/mem_src/mcelog/rbtree.c:363-384 | Replacing changes exactly one position of the order and keeps shape and colours; the victim leaves and the new node enters the node set |
| RbTree.SameShapeBalanced | testMoBoMemory/app/mem_src/mcelog/rbtree.c:363-384 | A tree of the same shape and colours is red-black whenever the old one is |
| RbOrder.Search | testMoBoMemory/app/mem_src/mcelog/rbtree.h:35-53 | On a sorted tree a node is found exactly when its key is present, in at most height many steps |
| RbRuns.FindLink | testMoBoMemory/app/mem_src/mcelog/rbtree.h:55-79 | The descent returns the node with the key, or the empty link with all smaller keys before it and all larger ones after it |
| RbRuns.Insert | testMoBoMemory/app/mem_src/mcelog/rbtree.h:81-91 | The documented protocol keeps red-black and sorted order; the new order is the sorted insertion, and a present key changes nothing and is returned |
| RbRuns.Run | testMoBoMemory/app/mem_src/mcelog/rbtree.h:27-91 | After any run of insertions and erasures the tree is red-black, sorted, its order is what the same run does to a sorted list, and its height is logarithmic |
| MarchTest.FillUp | testMoBoMemory/app/testlib/mem_test.c:1625-1642 | Filling in either direction is the fill pass of the specification on any device, faulty or not |
| MarchTest.VerifyAWriteB | testMoBoMemory/app/testlib/mem_test.c:1648-1692 | The checking and storing pass in either direction, stopping at the first mismatch; an empty range fails |
| MarchTest.VerifyA | testMoBoMemory/app/testlib/mem_test.c:1699-1741 | The checking pass in either direction changes nothing and gives the specified verdict |
| MarchTest.MarchCTest | testMoBoMemory/app/testlib/mem_test.c:1745-1800 | The whole of march_c computes the specified final memory and verdict for any device; the closing check of a round counts only in the last round |
| MarchDetect.MarchFindsCoupling | testMoBoMemory/app/testlib/mem_test.c:1745-1800 | march_c fails for every single coupling fault between bits of two distinct words, rising or falling aggressor, forced or inverted victim, either address order, any initial contents, any iter >= 1 |
| MarchDetect.CoupledRound | testMoBoMemory/app/testlib/mem_test.c:1769-1793 | A round's body can only succeed on such a fault if the last write left the victim wrong, which the closing check or the next round's first check then sees |
| MarchDetect.MarchFindsSolo | testMoBoMemory/app/testlib/mem_test.c:1745-1800 | march_c fails for every stuck-at bit and every failed up or down transition |
| MarchDecode.MarchDecidesInjective | testMoBoMemory/app/testlib/mem_test.c:1745-1800 | Through an arbitrary address decoder march_c, with iter >= 1, succeeds if and only if the range is not empty and the decoder is injective on it; on success every word reads the pattern |
| MarchDecode.AliasFails | testMoBoMemory/app/testlib/mem_test.c:1648-1692 | Two addresses of one cell make the first checking and storing pass fail |
| MarchTest.AddrWalkOwn | testMoBoMemory/app/testlib/mem_test.c:530-554 | Fill and verify as specified for any decoder, with and without comparison |
| MarchDecode.OwnDecidesInjective | testMoBoMemory/app/testlib/mem_test.c:489-524 | The verification accepts if and only if the decoder is injective |
| MovInv.MovInv1 | testMoBoMemory/app/testlib/mem_test.c:161-312 | The chunked passes, with the break at p == pe, compute the specified outcome for any device |
| MovInv.DownPass | testMoBoMemory/app/testlib/mem_test.c:256-289 | The chunked down pass over at least one word is one pass over every word but, for some lengths, word 0 |
| MovInv.BreakMeansSkip | testMoBoMemory/app/testlib/mem_test.c:259-275 | The break is taken only for the lengths 1 and k*SPINSZ+2, those for which word 0 counts as skipped |
| MovInv.WholePagesNeverSkip | testMoBoMemory/app/testlib/mem_test.c:256-289 | A positive multiple of 512 words is never such a length |
| MovInv.MovInvHealthy | testMoBoMemory/app/testlib/mem_test.c:161-312 | On healthy memory, for any two patterns, movinv1 succeeds if and only if comparison is off, or iter <= 1, or no word is skipped, or the patterns are equal; it leaves p1 everywhere (but for a skipped word 0) |
| MovInv.MovInvFindsStuck | testMoBoMemory/app/testlib/mem_test.c:161-312 | With comparison on and p2 the complement of p1, movinv1 reports a stuck bit if and only if it is not a bit of a skipped word 0, stuck at the pattern's value, in a single round |
| MovInv32.AdvanceFollows | testMoBoMemory/app/testlib/mem_test.c:1076-1082 | The up recurrence on (pat, k) takes the pattern for bit m to that for bit m+1 modulo 64, for both polarities |
| MovInv32.RetreatFollows | testMoBoMemory/app/testlib/mem_test.c:1150-1156 | The down recurrence takes it back by one, so it inverts the up recurrence |
| MovInv32.BackedUpFollows | testMoBoMemory/app/testlib/mem_test.c:1103-1114 | The step between the passes recomputes the pattern for bit k from lb and sval |
| MovInv32Test.MovInv32Run | testMoBoMemory/app/testlib/mem_test.c:966-1165 | On any device, faulty or not, movinv32 gives the verdict of the specified passes, in which word i holds the pattern for bit (off+i) mod 64 or its complement; on success also their final memory |
| MovingPattern.Healthy32 | testMoBoMemory/app/testlib/mem_test.c:966-1165 | On healthy memory movinv32 succeeds if and only if comparison is off, or iter <= 1, or no word is skipped, and leaves its pattern everywhere (but for a skipped word 0) |
| MovInv32Test.MovInv32OnHealthy | testMoBoMemory/app/testlib/mem_test.c:966-1165 | After a success on healthy memory word i holds the pattern for bit (off+i) mod 64, word 0 its complement if a round skipped it |
| MovingPattern.MovInv32FindsStuck | testMoBoMemory/app/testlib/mem_test.c:966-1165 | With comparison on, movinv32 reports a stuck bit if and only if it is not a bit of a skipped word 0, stuck at the pattern's value, in a single round |
| MovInv32Test.MovInvLong | testMoBoMemory/app/testlib/mem_test.c:2081-2123 | On any device test_movinv_long gives the verdict of the 64 positions of the bit, two calls each, up to the first failure; on success also their final memory |
| MovingPattern.HealthyLong | testMoBoMemory/app/testlib/mem_test.c:2081-2123 | On healthy memory, after any number of positions, it succeeds under the same condition as one call |
| MovInv32Test.LongLeaves | testMoBoMemory/app/testlib/mem_test.c:2081-2123 | After j positions healthy memory holds the moving zero that starts at bit j-1 |
| MovingPattern.LongFindsStuck | testMoBoMemory/app/testlib/mem_test.c:2081-2123 | With comparison on and iter >= 1 it reports every stuck bit, for every length: one bit cannot agree with both patterns of a position |
| NodeMap.FindActiveRegion | testMoBoMemory/driver/kmod/module_s/memtest/src/e820_kernel.c:80-107 | The out-parameters after each clip and the verdict; for lo <= hi the pages between them, when found, are exactly the whole RAM pages of the entry inside the block |
| NodeMap.ClippedExact | testMoBoMemory/driver/kmod/module_s/memtest/src/e820_kernel.c:80-107 | What is registered for an entry is exactly its whole RAM pages inside the block |
| NodeMap.Table.AddActiveRange | testMoBoMemory/driver/kmod/module_s/memtest/src/numa.c:494-543 | The table after one registration: covered, merged forward, merged backward, appended, or dropped when full |
| NodeMapFacts.AddedExact | testMoBoMemory/driver/kmod/module_s/memtest/src/numa.c:494-543 | For every table and range, the pages covered afterwards are the old ones and the new ones but for those lost: all when the table is full, and those below a region that the new range engulfs |
| NodeMapFacts.AddedGrows | testMoBoMemory/driver/kmod/module_s/memtest/src/numa.c:494-543 | The table grows by a region if and only if there is room and no region of the node meets or adjoins the range |
| NodeMapFacts.KeptExactly | testMoBoMemory/driver/kmod/module_s/memtest/src/numa.c:494-543 | For any ranges in any order, the pages covered at the end are exactly those of a range that did not lose them when it was registered |
| NodeMapFacts.EngulfingLosesPages | testMoBoMemory/driver/kmod/module_s/memtest/src/numa.c:518-523 | A concrete range that loses its first page to a forward merge |
| NodeMapFacts.NothingInvented | testMoBoMemory/driver/kmod/module_s/memtest/src/numa.c:494-543 | Whatever the ranges and the merges, no page enters the table that was not registered for that node |
| NodeMapFacts.RecordsAll | testMoBoMemory/driver/kmod/module_s/memtest/src/numa.c:494-543 | Pairwise disjoint ranges are recorded exactly, in pairwise disjoint regions, whatever order the merges happen in |
| NodeMapFacts.FewPiecesFit | testMoBoMemory/driver/kmod/module_s/memtest/src/numa.c:532-537 | At most 256 ranges are never dropped |
| NodeMap.Table.Generate | testMoBoMemory/driver/kmod/module_s/memtest/src/numa.c:132-147 | The two registration loops register the pieces of every block in order, or of every e820 entry when there is no SRAT block |
| NodeMapFacts.AllPiecesExact | testMoBoMemory/driver/kmod/module_s/memtest/src/e820_kernel.c:62-74 | The registered pieces cover exactly the whole RAM pages that lie in a block of the node |
| NodeMapFacts.AllPiecesApart | testMoBoMemory/driver/kmod/module_s/memtest/src/e820_kernel.c:62-74 | Disjoint RAM entries and disjoint blocks give pairwise disjoint pieces |
| NodeMapFacts.MapIsWanted | testMoBoMemory/driver/kmod/module_s/memtest/src/numa.c:132-159 | Safety of the node map on all inputs: every page of a node is a whole RAM page of a block of that node, or of node 0 when there is no block |
| NodeMapFacts.MapIsExact | testMoBoMemory/driver/kmod/module_s/memtest/src/numa.c:132-159 | With disjoint inputs and room in the table the map covers exactly those pages, ascending and pairwise disjoint |
| NodeMapFacts.NoSratExact | testMoBoMemory/driver/kmod/module_s/memtest/src/numa.c:145-149 | Without a block, for at most 256 entries of which none reaches into RAM of another: the pages of node 0 are exactly the whole RAM pages, and no other node has any |
| NodeMapFacts.ReservedInRamLosesPages | testMoBoMemory/driver/kmod/module_s/memtest/src/numa.c:145-149 | A concrete map without a block in which a reserved entry inside RAM costs a RAM page |
| BootMap.BootTable.Generate | testMoBoMemory/driver/kmod/module_s/memtest/src/numa.c:161-221 | The region table holds the split node map, or its first 64 regions with status -1 |
| BootMap.BootsExact | testMoBoMemory/driver/kmod/module_s/memtest/src/numa.c:161-221 | Of each node's pages exactly those at or above the limit become read/write and exactly the others read-only |
| BootMap.BootsSided | testMoBoMemory/driver/kmod/module_s/memtest/src/numa.c:161-221 | Read-only regions end at or below the limit, read/write ones start at or above it |
| BootMap.BootsConserve | testMoBoMemory/driver/kmod/module_s/memtest/src/numa.c:161-221 | The total number of pages is conserved |
| BootMap.BootsChain | testMoBoMemory/driver/kmod/module_s/memtest/src/numa.c:161-221 | A sorted disjoint map of nonempty regions becomes a sorted disjoint list of nonempty regions, longer by one at most |
| TaskSlices.CutExact | testMoBoMemory/app/mem_src/task_generator.c:577-601 | The chain of window cases is exhaustive and each case yields the intersection of region and window |
| TaskSlices.AlignedInside | testMoBoMemory/app/mem_src/task_generator.c:635-657 | A range enlarged to whole pages stays inside its region, by less than a page at each end, and is never skipped as too small |
| TaskSlices.TestConfig.InitModule | testMoBoMemory/app/mem_src/task_generator.c:473-784 | The return code and the two range lists: the loop walks backwards and prepends, and is left early for a closed device, a failed mapping, a full raw_reg or a node id past the array; an upside-down window and empty lists are errors. Every read/write range lies where mmap put the pages the window shares with its region; on success the read-only ranges hold exactly what the window shares with read-only regions |
| TaskSlices.CompletesExactly | testMoBoMemory/app/mem_src/task_generator.c:524-703 | The loop gets to its end if and only if no region above the first is empty, every range is of a node below NODE_COUNT, no mapping fails, and the window meets at most MAX_REGION regions |
| TaskSlices.SucceedsExactly | testMoBoMemory/app/mem_src/task_generator.c:524-784 | init_module succeeds if and only if the loop gets to its end and one of the lists is not empty |
| TaskSlices.FailedMapping | testMoBoMemory/app/mem_src/task_generator.c:662-667 | A failed mapping with nothing wrong above ends the loop with its error and the ranges of the regions above |
| TaskSlices.OverrunIsUndefined | testMoBoMemory/app/mem_src/task_generator.c:622-624 | Whenever nothing else is in the way, a window that meets more than 20 regions makes the loop write past raw_reg |
| TaskSlices.NothingToTest | testMoBoMemory/app/mem_src/task_generator.c:782-784 | A window that meets no region is an input-address error once the loop has got to its end |
| TestPolicy.CreateLocalTable | testMoBoMemory/app/mem_src/task_generator.c:137-155 | Row i of the table is 0..i followed by -1 |
| TestPolicy.CutRange | testMoBoMemory/app/mem_src/task_generator.c:280-305 | The slice list of one range, last slice first, with the CPU the table gives |
| TestPolicy.Policy | testMoBoMemory/app/mem_src/task_generator.c:202-314 | The core-count and CPU errors, and the slice lists of all ranges: with a CPU given (or CPU 0 in specific mode) one slice, the whole range, on that CPU; otherwise slice n on CPU n |
| TestPolicy.SlicesPartition | testMoBoMemory/app/mem_src/task_generator.c:280-305 | Every byte of a range of a page or more is in exactly one slice, and no byte outside is in any |
| TestPolicy.SlicesContiguous | testMoBoMemory/app/mem_src/task_generator.c:294-305 | Slices abut, from the range's start to its end, in both address spaces |
| TestPolicy.SliceForEachCpu | testMoBoMemory/app/mem_src/task_generator.c:282-303 | Without a chosen CPU the number of slices is the smaller of the core count and the pages of the range, slice n runs on CPU n, and each but the last has as many whole pages as every one can have |
| TestPolicy.OneSlice | testMoBoMemory/app/mem_src/task_generator.c:278-303 | With a chosen CPU there is exactly one slice, the whole range |
| TestPolicy.SliceIsWholePages | testMoBoMemory/app/mem_src/task_generator.c:282-292 | Every slice is a positive whole number of pages |
| TestPolicy.SlicesBalanced | testMoBoMemory/app/mem_src/task_generator.c:282-303 | Slices go to distinct CPUs below the core count, and the last is longer than any other by at most cores-1 pages |
| Pipeline.SlicesAreSafe | testMoBoMemory/app/mem_src/task_generator.c:524-703 | For every memory map, upright block list, limit, window, set of mappings and CPU choice, each byte of each slice is in a page at or above the limit, in a RAM entry that holds the whole page, and in a read/write region |
| Pipeline.TestedExactly | testMoBoMemory/app/mem_src/task_generator.c:202-784 | With disjoint inputs and room in the driver's tables, a byte of the window is in some slice if and only if its page is asked for (a whole RAM page of a block, at or above the limit), the loop of init_module gets to its end, and the CPU arguments fit |
| Pipeline.TestedIsAsked | testMoBoMemory/app/mem_src/task_generator.c:202-784 | Without those hypotheses: what is in a slice was asked for, the loop got to its end and the CPU arguments fit |
| Pipeline.OneNodeCompletes | testMoBoMemory/app/mem_src/task_generator.c:524-703 | With disjoint blocks of node 0 that each hold a page, or without any block, the loop gets to its end if and only if no mapping fails and the window meets at most 20 regions |
| Pipeline.SecondNodeInput | testMoBoMemory/app/mem_src/task_generator.c:629-684 | Memory on node 1: its pages are asked for, and init_module writes past test_config |
| Pipeline.EmptyRegionInput | testMoBoMemory/app/mem_src/task_generator.c:536-540 | A second block without a page: the first block's pages are asked for, and init_module fails on the closed device |
| Pipeline.RangesDisjoint | testMoBoMemory/app/mem_src/task_generator.c:524-684 | On a sorted disjoint region list no byte belongs to two ranges |
| Pipeline.BootListChain | testMoBoMemory/driver/kmod/module_s/memtest/src/numa.c:132-221 | Disjoint inputs whose blocks each hold a whole page give such a list |
| Pipeline.SlicesNeverSkip | testMoBoMemory/app/mem_src/task_generator.c:280-305 | Every slice has a length for which the moving-inversion tests visit every word |
| Pipeline.Prepare | testMoBoMemory/app/mem_src/task_generator.c:202-809 | The driver's and the tool's steps composed: the return code is that of init_module's loop or, after its success, the policy error for CPU arguments that do not fit; on success the lists are the slices of the ranges, all of them safe, and otherwise there are none |
| LeakyBucket.Bucket.constructor | testMoBoMemory/app/mem_src/mcelog/leaky-bucket.c:148-153 | An empty bucket stamped with the clock |
| LeakyBucket.Bucket.Age | testMoBoMemory/app/mem_src/mcelog/leaky-bucket.c:28-42 | The state after aging, the age computed exactly |
| LeakyBucket.Bucket.Account | testMoBoMemory/app/mem_src/mcelog/leaky-bucket.c:45-59 | The state and verdict after one increment, with 32-bit wrap-around; LeakyBucket.VerdictIsSum says what they are |
| LeakyBucket.AgingEmpties | testMoBoMemory/app/mem_src/mcelog/leaky-bucket.c:28-42 | A bucket below its capacity is emptied whenever it ages: the leak is all or nothing |
| LeakyBucket.OverflowExact | testMoBoMemory/app/mem_src/mcelog/leaky-bucket.c:45-59 | An overflow is reported if and only if the pending count reaches the capacity and the 32-bit sum does not wrap to below it |
| LeakyBucket.CallersOverflowExact | testMoBoMemory/app/mem_src/mcelog/leaky-bucket.c:45-59 | For the increments of the callers, below 2^15, and a capacity of at most 2^32 - 2^15: an overflow is reported if and only if the capacity is reached |
| LeakyBucket.WrapLosesOverflow | testMoBoMemory/app/mem_src/mcelog/leaky-bucket.c:51-52 | Beyond that capacity an increment of 2 can have its overflow lost to the wrap |
| LeakyBucket.CountBelowCapacity | testMoBoMemory/app/mem_src/mcelog/leaky-bucket.c:28-59 | After every step of every run the count is below the capacity |
| LeakyBucket.OverflowEmpties | testMoBoMemory/app/mem_src/mcelog/leaky-bucket.c:52-56 | An overflow leaves the count at zero |
| LeakyBucket.VerdictIsSum | testMoBoMemory/app/mem_src/mcelog/leaky-bucket.c:28-59 | For all increments in every run: an event overflows if and only if the increments since the last overflow or since the window began, its own included, reach the capacity (in 32 bits); the count is then zero, and otherwise that sum |
| LeakyBucket.CountIsSum | testMoBoMemory/app/mem_src/mcelog/leaky-bucket.c:28-59 | After every run the count is what has come since the last overflow or since the window began |
| LeakyBucket.BucketIsWindow | testMoBoMemory/app/mem_src/mcelog/leaky-bucket.c:28-59 | Over every run the time stamp is the beginning of the tumbling window and count plus excess is what arrived in it, exactly while that is below 2^32 and modulo 2^32 in any case |
| LeakyBucket.TriggerBudget | testMoBoMemory/app/mem_src/mcelog/leaky-bucket.c:45-59 | Overflows times capacity never exceed the total of the increments |
| LeakyBucket.UnitBucket | testMoBoMemory/app/mem_src/mcelog/leaky-bucket.c:28-59 | With unit increments the count is the window's total modulo the capacity, and overflows come at exactly every capacity-th error of the window |
| LeakyBucket.NoCapacityNoTrigger | testMoBoMemory/app/mem_src/mcelog/leaky-bucket.c:48-49 | Without a capacity nothing ever changes or overflows |
| PageErrors.Lookup | testMoBoMemory/app/mem_src/mcelog/page.c:64-79 | A page is found exactly when a node of the tree has its address |
| PageErrors.InsertLookup | testMoBoMemory/app/mem_src/mcelog/page.c:81-101 | The page present, or the new node linked as a leaf by descent; the tree stays sorted and all red |
| PageErrors.Insert | testMoBoMemory/app/mem_src/mcelog/page.c:103-110 | For a page the lookup missed the result is null, so rb_insert_color is not called and the tree is only linked |
| PageErrors.RedBlackOnlyEmpty | testMoBoMemory/app/mem_src/mcelog/page.c:106-108 | Such a tree is red-black if and only if it is empty |
| PageErrors.RunAscending | testMoBoMemory/app/mem_src/mcelog/page.c:81-207 | A run over reports of ascending pages makes a tree that is a list, as high as there are reports |
| PageErrors.PageTable.AccountPageError | testMoBoMemory/app/mem_src/mcelog/page.c:169-207 | The book moves by the specified step and offlining is attempted exactly when the step says; tree, records and book stay in agreement. What the steps of a run come to is said by PageHistory.BookIsHistory and PageHistory.OfflineExactly |
| PageErrors.Run | testMoBoMemory/app/mem_src/mcelog/page.c:169-207 | Over every event sequence the table agrees with the book that the events alone determine, the attempts at offlining are theirs, and pages were linked in the order of their first reports |
| PageErrors.PageTable.Find | testMoBoMemory/app/mem_src/mcelog/page.c:64-79 | A lookup in a reachable table finds a page exactly when it is in the book, with its record |
| PageErrors.PageTable.Dump | testMoBoMemory/app/mem_src/mcelog/page.c:209-231 | Every page is listed once, in tree order, with its record |
| PageHistory.BookIsHistory | testMoBoMemory/app/mem_src/mcelog/page.c:169-207 | After any run a page is in the book exactly when it was reported; its count is the number of its accepted events, its bucket is what they alone would fill, and it is triggered exactly if that bucket ever overflowed |
| PageHistory.AttemptedOnce | testMoBoMemory/app/mem_src/mcelog/page.c:144-207 | Offlining is attempted at most once for each page, and exactly for the pages no longer online |
| PageHistory.AttemptedExactly | testMoBoMemory/app/mem_src/mcelog/page.c:188-206 | An attempt is made exactly at the first overflow of the page's bucket, under the policies soft, hard and soft-then-hard |
| PageHistory.AttemptMeansOverflow | testMoBoMemory/app/mem_src/mcelog/page.c:188-206 | An attempt happens only on an event where that page's bucket overflows |
| PageHistory.AttemptMeansFullWindow | testMoBoMemory/app/mem_src/mcelog/page.c:188-206 | So only on a capacity-th event of the page's current window |
| PageHistory.NeverBackOnline | testMoBoMemory/app/mem_src/mcelog/page.c:157-167 | A page that has left the online state keeps its state for the rest of any run |
| PageHistory.OfflineExactly | testMoBoMemory/app/mem_src/mcelog/page.c:139-167 | In every run a page is offline if and only if, at its first overflow, the kernel accepted a call that the policy makes: soft, hard, or either of the two for soft-then-hard |
| PageHistory.FailedExactly | testMoBoMemory/app/mem_src/mcelog/page.c:139-167 | It is in the failed state if and only if the policy asked for offlining at its first overflow and the kernel accepted none of those calls |
| PageHistory.IgnoredExactly | testMoBoMemory/app/mem_src/mcelog/page.c:175-178 | A report leaves all pages as they are if and only if the policy is off, the address is not valid or the error is uncorrected |
| MemDb.HashLowBytes | testMoBoMemory/app/mem_src/mcelog/memdb.c:69-77 | Keys that agree in two bytes of the socket and one of dimm and channel share a chain |
| MemDb.SearchChain | testMoBoMemory/app/mem_src/mcelog/memdb.c:85-92 | Along a chain the record with the key is found exactly when it is there |
| MemDb.Table.GetMemdimm | testMoBoMemory/app/mem_src/mcelog/memdb.c:80-104 | The record of the key, found or added; the table keeps one record for each key, each in the chain of its hash, and md_numdimms is their number |
| MemDb.MemDimm.AccountOver | testMoBoMemory/app/mem_src/mcelog/memdb.c:187-200 | The lost errors, one less than the hardware's count, go to the corrected counter and bucket, and the flag says whether the bucket overflowed |
| MemDb.MemDimm.AccountMemdb | testMoBoMemory/app/mem_src/mcelog/memdb.c:202-220 | One error goes to the corrected or the uncorrected counter and bucket, with the same flag |
| MemDb.Table.MemoryErrorAt | testMoBoMemory/app/mem_src/mcelog/memdb.c:227-251 | The records after a memory error and the triggers it runs, for every setting of the two trackers |
| MemDb.RunAll | testMoBoMemory/app/mem_src/mcelog/memdb.c:80-251 | Over every run the table agrees with the list of records the events alone determine, md_numdimms is its length, and the triggers run are those the events determine |
| MemDb.Collect | testMoBoMemory/app/mem_src/mcelog/memdb.c:323-334 | The chains laid end to end fill an array of md_numdimms places exactly and hold every record |
| MemLedger.RunUnique | testMoBoMemory/app/mem_src/mcelog/memdb.c:80-104 | In every run there is at most one record for each key |
| MemLedger.LedgerIsHistory | testMoBoMemory/app/mem_src/mcelog/memdb.c:80-251 | In every run a key has a record if and only if an event looked it up; its corrected and uncorrected counters and buckets are what the events charged to that key and kind alone make of a record new at that time, with the thresholds of DIMMs, or for a whole socket those of sockets and the lost errors included |
| MemLedger.DimmFiresExactly | testMoBoMemory/app/mem_src/mcelog/memdb.c:202-242 | A DIMM's trigger runs if and only if the bucket filled by that place's own errors overflows |
| MemLedger.SocketFiresExactly | testMoBoMemory/app/mem_src/mcelog/memdb.c:187-251 | A socket's triggers run if and only if its bucket overflows, first with the lost errors and then with the error itself |
| MemLedger.SocketBalance | testMoBoMemory/app/mem_src/mcelog/memdb.c:187-251 | With both trackers on, the socket total is the sum over the located records plus exactly the unlocated and the lost errors, corrected and uncorrected apart |
| MemLedger.SocketRecordBalance | testMoBoMemory/app/mem_src/mcelog/memdb.c:187-251 | The same stated of the one socket record |
| MemLedger.DimmCounts | testMoBoMemory/app/mem_src/mcelog/memdb.c:202-242 | A DIMM's record counts exactly the errors reported at its place |

## Left out

- RbNodes.Node: the parent pointer and the colour share one word in the C code; here they are two fields, and pointer alignment is not modelled.
- RbOrder.Search: the example search and insertion in the comment of rbtree.h are modelled with integer keys.
- RbRuns.Run: an erasure of a node that the tree does not hold is skipped, since rb_erase requires its node to be linked.
- MarchTest.MarchCTest: addresses are indices, so the comparison of pointers below address zero cannot wrap; the iteration count is not negative.
- MovInv.MovInv1: chunk ends are indices, so the pointer wrap-around checks of the chunk loops have nothing to do, and segs is 1 as in the code; a round needs at least one word, since without any the C code writes the word before the buffer.
- MovInv.DownPass: needs at least one word, for the same reason.
- MovInv32Test.MovInv32Run: a round needs at least one word, as in movinv1; for a failing run only the verdict is stated, not the memory it leaves.
- block_move, modtst, movinvr, bit_fade, addr_walk_ones and the cache tests are not modelled.
- NodeMapFacts.SortedByStart: the kernel's sort() is a stable insertion sort here; only its being an ascending permutation is used.
- NodeMapFacts.MapIsExact: needs disjoint entries and blocks and a table with room; without them NodeMapFacts.MapIsWanted, NodeMapFacts.AddedExact and NodeMapFacts.KeptExactly still hold.
- NodeMap.Clipped: the sum of address and size of an e820 entry does not wrap at 64 bits; SRAT parsing is a list of blocks with start <= end.
- TaskSlices.TestConfig.InitModule: mmap is a list of answers, and open and ioctl fail only after the close for an empty region; what happens after a write past an array is left open (Undefined); the list-information mode, the clear-ECC exit and the listing of untestable ranges are not modelled.
- TestPolicy.Policy: mode ALL without a CPU leaves the CPU table null in the C code and is not modelled; malloc never fails.
- Pipeline.Prepare: the status of the region table is ignored, as the driver ignores it, so an overflowing table is used as it is.
- Pipeline.TestedExactly: needs disjoint entries and blocks and room in the driver's two tables; without them Pipeline.TestedIsAsked and Pipeline.SlicesAreSafe still hold.
- LeakyBucket.Bucket.Age: the age is the exact quotient here, while the C code converts a double to unsigned; the overflow of that conversion, when the quotient reaches 2^32 (capacity 10000 and agetime 1 after about five days), is left out, and below it any age of the capacity or more empties the bucket in both.
- LeakyBucket.Usable: a bucket with a capacity has a positive age time, as the rate parser gives it; the parser itself is not modelled.
- PageErrors.Insert: stated for an address not in the tree, which is how its only caller uses it; for a present one the C code would recolour from the present node, in a tree with a red root.
- PageHistory.Charge: the trigger script, the messages and the memdimm record that the trigger looks up are not modelled; counts do not wrap at 64 bits.
- MemDb.Collect: the qsort and the printing after it are not modelled.
- MemDb.Table.MemoryErrorAt: a trigger is a flag; what it prints and the script it runs are not modelled; counters do not wrap at 64 bits.
- db.c, dimm.c and diskdb.c are marked obsolete in the repository and are not modelled.
- The machine-check decoders, option parsing, device and process plumbing are not modelled.
