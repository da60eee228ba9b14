# Verified models of the emulator core

A Dafny model of the memory core and the support containers of the emulator engine, with
proofs of what they promise. The model follows the C code branch by branch: objects that
are updated in place are classes whose fields and arrays are updated in place, pointer
structures live in explicit memory (a map from the addresses in use to records, so that
freeing is visible and an access to freed memory cannot be proved), and loops are loops.
Each such method is proved against a specification on plain values, and the promises are
lemmas and invariants about those values.

| file | component |
|---|---|
| RadixMap, RadixCompact, FlatMap, Dispatch | the physical dispatch map: page radix tree, compaction, sub-page tables, lookup |
| FlatAccess | chunked reads and writes through the dispatch map |
| RamBlocks | placement and lookup of RAM blocks |
| AvlShape, GTreeStore, GTreeWalk, GTree, SortedPairs | the threaded AVL tree |
| Exits | the set of exit addresses kept in that tree |
| Probing, HashSlots, HashTable | the open-addressing hash table |
| MemoryView, MemoryEffects, MemorySharing, MemoryMap | guest memory: mapping, access, splitting, unmapping, protection, memory shared with the caller |
| LinkedList, HookState, Hooks | linked lists, and hooks on them with deferred deletion over nested runs |
| Glob, Pattern, PatternSpec | the glob compiler and matcher |
| MersenneTwister | the random number generator |
| MergeOrder, ListSort | the stable list sort |
| Arithmetic, Words, Wrappers, Addresses | shared definitions |

`dafny verify dfyconfig.toml` checks everything.

What comes from outside the modelled code is a parameter or an oracle: whether an allocation
succeeds (`allocFails` in MemoryMap, `hostOk` in RamBlocks), the verdict on an instruction
or opcode in `UcHookAdd`, what devices answer in FlatAccess, the program counter in
`MemProtect`, and the API calls that callbacks make while the emulation runs (`Action` in
Hooks). An `abort` is a result: `ok == false` when `phys_section_add` runs out of section
numbers, `None` in RamBlocks.

## Findings

Six promises do not hold for all inputs. The code is modelled as it is, and each one
comes with an input that shows it and the exact condition under which it holds.

- A region that ends at 2^64 stores its end as zero. `split_region` then takes a range
  that starts at the first byte of the region for one that covers it, so that unmapping or
  protecting its first page affects all of it (`TopPageLost`, `TopPageProtected`).
  `UnmapExactIff` and `ProtectExactIff` give the condition. A range that starts inside such
  a region, behind its first byte, is refused with UC_ERR_NOMEM and no effect (`MemUnmap`,
  `MemProtect`).
- Memory given with `uc_mem_map_ptr` is shared with the guest until the region is split
  while a block of the engine, rounded up to host pages, spans it; then the pieces are
  copies (`SharingLost`). `SplitRegion`, `MemUnmap` and `MemProtect` state that sharing
  survives exactly when there is no such block, and `NeverOverlaid` that there is none when
  target pages are whole host pages.
- The upper length bound of a compiled pattern is a 32-bit counter that grows by four for
  each joker. It wraps for 2^30 jokers without a star (`WrappedBound`);
  `BoundIsHarmless` gives the condition.
- `string_reverse` takes its length as a signed integer and returns null from 2^31 on. A
  pattern matched from the end is then matched against no string (`NullReversed`); `Match`
  gives the condition.
- `g_pattern_match_string` truncates the length of the string to 32 bits, so that longer
  strings are judged by a wrong length (`LongRefused`); `Match` says what the answer is.
- A device access truncates the length to 32 bits. Where a multiple of 2^32 bytes is left at
  a byte that is not RAM, reading and writing make no progress (`UnassignedRead`); `Read`
  and `Write` give the condition.

The position `g_pattern_spec_new` records for the last joker is that of the first joker
behind the last literal or star (`Canonicalize`, `JokersFromEndIs`). Only the choice of the
strategy depends on it, and every choice is proved right.

`mapped_block_cache_index` is never written by the code; the lookup is proved for every value.

## Model

| member | source | states |
|---|---|---|
| `RadixMap.SlotFilled` | uni/src/main/cpp/unicorn/qemu/exec.c:157-167 | filling part of one slot extends what has been filled of the node, and no other page changes |
| `RadixMap.SlotCost` | uni/src/main/cpp/unicorn/qemu/exec.c:144-181 | the nodes used so far and those one more slot may need stay within the bound for the range |
| `RadixMap.FillWhole` | uni/src/main/cpp/unicorn/qemu/exec.c:158-162 | turning an aligned slot into a leaf fills exactly its pages |
| `RadixMap.FillPart` | uni/src/main/cpp/unicorn/qemu/exec.c:163-165 | filling the node a slot links to fills exactly that part of the range |
| `Dispatch.AddressSpaceDispatch.NodeAlloc` | uni/src/main/cpp/unicorn/qemu/exec.c:124-142 | a new node is all unassigned; the two asserts on the node counters hold |
| `Dispatch.AddressSpaceDispatch.FillSlot` | uni/src/main/cpp/unicorn/qemu/exec.c:157-167 | one turn of the filling loop: exactly the pages of this slot inside the range get the leaf, and neither the other slots nor the nodes below them change |
| `Dispatch.AddressSpaceDispatch.SetLevel` | uni/src/main/cpp/unicorn/qemu/exec.c:144-168 | exactly the given pages map to the leaf, free or taken before, every other page to what it did, within the allocation bound of the level; no leaf may lie partly inside the range, since its section number would be followed as a node |
| `Dispatch.AddressSpaceDispatch.PhysPageSet` | uni/src/main/cpp/unicorn/qemu/exec.c:170-181 | any page range that cuts no larger leaf is set exactly, whatever was there before, with at most 2 * levels - 1 new nodes, so the reservation of 3 * levels suffices |
| `RadixMap.VacantUncut` | uni/src/main/cpp/unicorn/qemu/exec.c:156-167 | a range of free pages cuts no leaf, so every call in the code may be made |
| `RadixMap.UncutRest` | uni/src/main/cpp/unicorn/qemu/exec.c:156-167 | filling one slot leaves the leaves of the slots behind it as they were |
| `RadixMap.SlotIsLink` | uni/src/main/cpp/unicorn/qemu/exec.c:158-165 | a slot that the range enters and does not fill whole links to a node, so following it is sound |
| `Dispatch.AddressSpaceDispatch.EnsureNode` | uni/src/main/cpp/unicorn/qemu/exec.c:151-154 | an empty link gets a fresh node, and no page changes |
| `Dispatch.AddressSpaceDispatch.NodeReserve` | uni/src/main/cpp/unicorn/qemu/exec.c:115-122 | there is room for the nodes asked for, and the hint for the next allocation |
| `RadixCompact.WalkWithin` | uni/src/main/cpp/unicorn/qemu/exec.c:255-279 | whatever a walk from a link reaches, for any index at all, is assigned to some page of the own range of the link |
| `RadixCompact.ApproximatesTrans` | uni/src/main/cpp/unicorn/qemu/exec.c:186-235 | compacting a subtree and then the link to it is one compaction |
| `RadixCompact.LinkSkips` | uni/src/main/cpp/unicorn/qemu/exec.c:210-234 | skipping a node with one used slot: assigned pages keep their section, and a straying walk reaches only sections assigned inside the range |
| `RadixCompact.SlotCompacted` | uni/src/main/cpp/unicorn/qemu/exec.c:198-208 | compacting one child leaves the node an approximation of what it was |
| `RadixCompact.SkippingOk` | uni/src/main/cpp/unicorn/qemu/exec.c:223-234 | a link that skips levels still leads to a node of the right place |
| `FlatMap.CompactionPreservesFind` | uni/src/main/cpp/unicorn/qemu/exec.c:186-279 | for every address, the search of the compacted map gives the section the search of the full map gives: straying addresses fail the coverage test because every section covers exactly its pages |
| `FlatMap.FindExact` | uni/src/main/cpp/unicorn/qemu/exec.c:244-279 | before compaction the coverage test never rejects the section of a page |
| `FlatMap.CoversIsHolds` | uni/src/main/cpp/unicorn/qemu/exec.c:244-253 | the coverage test with its 128-bit size case is membership in the section |
| `FlatMap.RegisterBacking` | uni/src/main/cpp/unicorn/qemu/exec.c:900-911 | mapping whole pages to a section makes every address in them resolve to it and no other address change |
| `FlatMap.RegisterTable` | uni/src/main/cpp/unicorn/qemu/exec.c:884-889 | a new sub-page table on a free page leaves every address resolved as before |
| `FlatMap.RegisterBytes` | uni/src/main/cpp/unicorn/qemu/exec.c:1340-1358 | registering bytes in a sub-page table makes exactly these bytes resolve to the section |
| `FlatMap.PiecesMerge` | uni/src/main/cpp/unicorn/qemu/exec.c:920-956 | a range added in head, middle and tail pieces answers like the whole range |
| `Dispatch.LevelsSuffice` | uni/src/main/cpp/unicorn/qemu/exec.c:60-65 | six or seven levels of 512 slots cover every page of the 64-bit space, for all page sizes from 2 bytes to 64 KiB |
| `Dispatch.AddressSpaceDispatch.RegisterSubpage` | uni/src/main/cpp/unicorn/qemu/exec.c:869-897 | the bytes of the piece resolve to it, the page gets a table if it had none, and the assert on what was there before holds |
| `Dispatch.AddressSpaceDispatch.SubpageFor` | uni/src/main/cpp/unicorn/qemu/exec.c:875-892 | the table of a page: the one it has, or a new one that changes no answer |
| `Dispatch.AddressSpaceDispatch.SubpageRegister` | uni/src/main/cpp/unicorn/qemu/exec.c:1340-1358 | the loop stores the section number in exactly the bytes of the piece |
| `Dispatch.AddressSpaceDispatch.RegisterMultipage` | uni/src/main/cpp/unicorn/qemu/exec.c:900-911 | all pages of the piece resolve to it, all other addresses as before |
| `Dispatch.AddressSpaceDispatch.AddHead` | uni/src/main/cpp/unicorn/qemu/exec.c:925-939 | the unaligned head of a range is registered, what remains starts on a page |
| `Dispatch.AddressSpaceDispatch.AddWhole` | uni/src/main/cpp/unicorn/qemu/exec.c:941-952 | the whole pages of what remains are registered |
| `Dispatch.AddressSpaceDispatch.FlatviewAddToDispatch` | uni/src/main/cpp/unicorn/qemu/exec.c:920-956 | adding a range disjoint from those added so far keeps the map in agreement with the set of ranges; unaligned bounds and several ranges in one page included; it fails only when every section number is in use |
| `Dispatch.AddressSpaceDispatch.PhysPageFind` | uni/src/main/cpp/unicorn/qemu/exec.c:255-279 | the loop over the levels computes the search, for compacted and full maps |
| `Dispatch.AddressSpaceDispatch.PhysPageCompact` | uni/src/main/cpp/unicorn/qemu/exec.c:186-235 | the recursive compaction, updating entries in place, leaves an approximation of the full map, in which no link leads to a node with a single used entry that it could have skipped |
| `Dispatch.AddressSpaceDispatch.DispatchCompact` | uni/src/main/cpp/unicorn/qemu/exec.c:237-242 | from the map under construction to the map that is searched: the same ranges, the same sections, and nothing left to skip |
| `Dispatch.AddressSpaceDispatch.constructor` | uni/src/main/cpp/unicorn/qemu/exec.c:1413-1429 | an empty map in which every address is unassigned |
| `Dispatch.AddressSpaceDispatch.LookupRegion` | uni/src/main/cpp/unicorn/qemu/exec.c:282-302 | for every address and whatever the most recently used entry, the answer is the section the plain set of ranges gives, and it is the most recently used one from then on |
| `Dispatch.AddressSpaceDispatch.TranslateInternal` | uni/src/main/cpp/unicorn/qemu/exec.c:306-338 | section, offset in the region, and for RAM a length clamped to the section |
| `Dispatch.MruHit` | uni/src/main/cpp/unicorn/qemu/exec.c:289-296 | a most recently used section that covers the address is the one the page map holds for it |
| `Dispatch.RightIsUnique` | uni/src/main/cpp/unicorn/qemu/exec.c:282-302 | the answer the set of ranges gives is unique up to the piece: region and translated offset are determined |
| `Dispatch.DispatchOf` | uni/src/main/cpp/unicorn/qemu/exec.c:920-956 | for every list of pairwise disjoint ranges: adding all and compacting gives a map that answers right for all of them; it fails only when all 2^pageBits section numbers are in use, and five per range are always enough |
| `FlatAccess.MemoryAccessSize` | uni/src/main/cpp/unicorn/qemu/exec.c:1491-1520 | zero for a length of zero; otherwise the largest power of two within the length asked for and the limit of the region that divides the address unless unaligned accesses are allowed |
| `FlatAccess.Pow2Floor` | uni/src/main/cpp/unicorn/qemu/include/qemu/host-utils.h:522-529 | the largest power of two that is not above n, and zero for zero |
| `FlatAccess.FlatView.DeviceSize` | uni/src/main/cpp/unicorn/qemu/exec.c:1540-1541 | the largest access the device allows for the length truncated to 32 bits, aligned words of four bytes where nothing is mapped, and nothing exactly when the truncated length is zero |
| `FlatAccess.FlatView.Translate` | uni/src/main/cpp/unicorn/qemu/exec.c:472-486 | the section that holds the address, and what one access may take: for RAM what the section holds, otherwise the rest |
| `FlatAccess.FlatView.CopyIn` | uni/src/main/cpp/unicorn/qemu/exec.c:1178-1193 | the RAM case of one step: the bytes are copied to their place, the clamp by the block length never bites |
| `FlatAccess.FlatView.WriteChunk` | uni/src/main/cpp/unicorn/qemu/exec.c:1539-1564 | one step writes its bytes to RAM, or sends them to the device at the translated address; it makes no progress exactly when the truncated length is zero |
| `FlatAccess.FlatView.Write` | uni/src/main/cpp/unicorn/qemu/exec.c:1528-1589 | for every range, wrapped past 2^64 or not, over RAM, read-only RAM and devices: every byte of writable RAM in it that is not aliased is written, unless a device access before may go over into it; no other byte of RAM and no read-only RAM changes; inside one device exactly the bytes of the range are sent, in order and to the translated addresses; the loop fails to progress if a multiple of 2^32 bytes is left at a byte that is not RAM, and otherwise only in a stretch of 2^32 bytes of read-only RAM |
| `FlatAccess.FlatView.Read` | uni/src/main/cpp/unicorn/qemu/exec.c:1592-1648 | for every range: every byte read is the byte of RAM behind its address or the answer of the device there at the translated address, unless a device access before may go over into it; the loop fails to progress if and only if a multiple of 2^32 bytes is left at some byte that is not RAM |
| `FlatAccess.FlatView.RamBefore` | uni/src/main/cpp/unicorn/qemu/exec.c:1592-1648 | behind nothing but RAM no device access goes over into a byte |
| `FlatAccess.FlatView.DeviceBefore` | uni/src/main/cpp/unicorn/qemu/exec.c:1592-1648 | inside one region none does |
| `FlatAccess.FlatView.ChunkSteady` | uni/src/main/cpp/unicorn/qemu/exec.c:1539-1568 | no step jumps over a place where the loop would stop progressing |
| `FlatAccess.Unstuck` | uni/src/main/cpp/unicorn/qemu/exec.c:1491-1520 | short ranges and ranges of RAM have no such place |
| `FlatAccess.UnassignedRead` | uni/src/main/cpp/unicorn/qemu/exec.c:1592-1648 | the input for which it fails: 2^32 bytes read where nothing is mapped |
| `FlatAccess.FlatView.WriteThenRead` | uni/src/main/cpp/unicorn/qemu/exec.c:1528-1648 | what was written to RAM is read back and nothing else changed, for ranges of any length, wrapped past 2^64 or not |
| `RamBlocks.RamList.FindRamOffset` | uni/src/main/cpp/unicorn/qemu/exec.c:957-1007 | zero for an empty list; otherwise an aligned free space behind a block, or at zero when a block leaves no room below the top, whose gap is smallest; no offset only if behind no block the next aligned address starts free space of the size |
| `RamBlocks.CandidateBehind` | uni/src/main/cpp/unicorn/qemu/exec.c:979-980 | the candidate is the one aligned address less than an alignment behind the end of the block, or zero past the top |
| `RamBlocks.RamList.Closest` | uni/src/main/cpp/unicorn/qemu/exec.c:983-990 | the inner loop finds the closest block at or after the candidate |
| `RamBlocks.GapIsFree` | uni/src/main/cpp/unicorn/qemu/exec.c:972-1000 | the space found is aligned, ends below RAM_ADDR_MAX and meets no block, also when rounding up wraps to zero |
| `RamBlocks.NewBlockFits` | uni/src/main/cpp/unicorn/qemu/exec.c:1040 | where the search puts a block it is aligned and meets no other block |
| `RamBlocks.RamList.RamBlockAdd` | uni/src/main/cpp/unicorn/qemu/exec.c:1035-1082 | the list stays ordered from biggest to smallest, disjoint and aligned; the new block is at the best fit |
| `RamBlocks.RamList.GetRamBlock` | uni/src/main/cpp/unicorn/qemu/exec.c:785-805 | the block that holds the address, the same with and without the most recently used entry |
| `RamBlocks.HitHolds` | uni/src/main/cpp/unicorn/qemu/exec.c:790-796 | the unsigned subtraction test is membership, and at most one block passes it |
| `RamBlocks.RamList.RamFree` | uni/src/main/cpp/unicorn/qemu/exec.c:1136-1152 | one block leaves the list, the shortcut is reset, all invariants stay |
| `AvlShape.RotateLeftExact` | uni/src/main/cpp/unicorn/glib_compat/gtree.c:1177-1215 | the closed balance formulas of the left rotation give true height differences for all balances, and the in-order list stays |
| `AvlShape.RotateRightExact` | uni/src/main/cpp/unicorn/glib_compat/gtree.c:1217-1255 | the same for the right rotation |
| `AvlShape.BalanceAvl` | uni/src/main/cpp/unicorn/glib_compat/gtree.c:1035-1051 | rebalancing a node that is off by two gives a balanced tree with the same list, and says how its height changed |
| `AvlShape.GrownStep` | uni/src/main/cpp/unicorn/glib_compat/gtree.c:507-533 | one turn of the insertion loop: stop when the balance is zero, else the parent has grown |
| `AvlShape.ShrunkStep` | uni/src/main/cpp/unicorn/glib_compat/gtree.c:755-781 | one turn of the removal loop: stop when the balance is not zero, else the parent has shrunk |
| `AvlShape.ReplacedBySuccessor` | uni/src/main/cpp/unicorn/glib_compat/gtree.c:700-750 | after the successor took the place of a node with two children, the path to rebalance starts at the right node and the list lost exactly one element |
| `AvlShape.AvlSize` | uni/src/main/cpp/unicorn/glib_compat/gtree.c:67 | a balanced tree of height h holds at least Fib(h + 2) - 1 nodes |
| `GTree.HeightFits` | uni/src/main/cpp/unicorn/glib_compat/gtree.c:67 | with fewer than 433494436 nodes the height is at most 40, the size of the path array |
| `AvlShape.SparseShape` | uni/src/main/cpp/unicorn/glib_compat/gtree.c:67 | the balanced trees with the fewest nodes for their height exist and have exactly Fib(h + 2) - 1 nodes |
| `GTree.LimitIsSharp` | uni/src/main/cpp/unicorn/glib_compat/gtree.c:414-460 | the limit is sharp: a balanced search tree of 433494436 nodes has a node at depth 40, for which the path array has no entry |
| `GTreeStore.RotatedLeft` | uni/src/main/cpp/unicorn/glib_compat/gtree.c:1177-1215 | the link and thread updates of the left rotation store the rotated tree |
| `GTreeStore.RotatedRight` | uni/src/main/cpp/unicorn/glib_compat/gtree.c:1217-1255 | the same for the right rotation |
| `GTreeStore.AttachedLeft` | uni/src/main/cpp/unicorn/glib_compat/gtree.c:464-477 | hanging a leaf on the left keeps all links and threads |
| `GTreeStore.AttachedRight` | uni/src/main/cpp/unicorn/glib_compat/gtree.c:486-499 | the same on the right |
| `GTreeStore.Spliced` | uni/src/main/cpp/unicorn/glib_compat/gtree.c:642-699 | bypassing a node with at most one child stores the tree without it |
| `GTreeStore.PromotionStored` | uni/src/main/cpp/unicorn/glib_compat/gtree.c:719-749 | the link, thread and flag updates that move the successor up store the tree without the removed node |
| `GTreeStore.ThreadSkips` | uni/src/main/cpp/unicorn/glib_compat/gtree.c:661-699 | the thread that led to a removed node leads to its neighbour |
| `GTreeStore.ParentSkips` | uni/src/main/cpp/unicorn/glib_compat/gtree.c:644-698 | the link or thread of the parent skips the removed node |
| `GTreeStore.PromotionLinked` | uni/src/main/cpp/unicorn/glib_compat/gtree.c:744-749 | the parent is linked to the successor |
| `GTreeWalk.StepDown` | uni/src/main/cpp/unicorn/glib_compat/gtree.c:250-261 | the first node over child links is the next one in order |
| `GTreeWalk.StepUp` | uni/src/main/cpp/unicorn/glib_compat/gtree.c:250-261 | a thread leads to the next node in order |
| `GTreeWalk.HeightByBalance` | uni/src/main/cpp/unicorn/glib_compat/gtree.c:996-1018 | adding up what the balance bytes say along the left edge gives the height |
| `GTree.GTree.NodeRotateLeft` | uni/src/main/cpp/unicorn/glib_compat/gtree.c:1177-1215 | in place: the memory holds the rotated tree, no other node changes |
| `GTree.GTree.NodeRotateRight` | uni/src/main/cpp/unicorn/glib_compat/gtree.c:1217-1255 | the same for the right rotation |
| `GTree.GTree.NodeBalance` | uni/src/main/cpp/unicorn/glib_compat/gtree.c:1035-1051 | in place: the memory holds the rebalanced tree |
| `GTree.GTree.Search` | uni/src/main/cpp/unicorn/glib_compat/gtree.c:428-501 | ends at the key or at the node that lacks the child for it; the path array holds the way down and is not overrun |
| `GTree.GTree.AttachLeaf` | uni/src/main/cpp/unicorn/glib_compat/gtree.c:464-499 | the new leaf takes over the thread of its parent on its side |
| `GTree.GTree.RebalanceAt` | uni/src/main/cpp/unicorn/glib_compat/gtree.c:509-522 | rotation and the redirected link of the parent, or of the root |
| `GTree.GTree.RestoreGrown` | uni/src/main/cpp/unicorn/glib_compat/gtree.c:507-533 | the loop up the path ends with a balanced tree with the same list |
| `GTree.GTree.InsertInternal` | uni/src/main/cpp/unicorn/glib_compat/gtree.c:411-534 | strict order, exact balance bytes in -1..1 and threads are kept, and the list of pairs changes exactly at the key |
| `GTree.GTree.Insert` | uni/src/main/cpp/unicorn/glib_compat/gtree.c:372-381 | an equal key keeps its key and gets the value |
| `GTree.GTree.Replace` | uni/src/main/cpp/unicorn/glib_compat/gtree.c:399-408 | an equal key is replaced too |
| `GTree.GTree.SpliceOut` | uni/src/main/cpp/unicorn/glib_compat/gtree.c:642-699 | a node with at most one child leaves: link of the parent, balance and threads |
| `GTree.GTree.BypassNode` | uni/src/main/cpp/unicorn/glib_compat/gtree.c:644-698 | the link and balance of the parent of a node that is bypassed |
| `GTree.GTree.FindSuccessor` | uni/src/main/cpp/unicorn/glib_compat/gtree.c:702-717 | the way down to the successor on the path array, with the entry of the removed node taken over |
| `GTree.GTree.UnlinkSuccessor` | uni/src/main/cpp/unicorn/glib_compat/gtree.c:719-732 | the successor leaves its parent |
| `GTree.GTree.PromoteSuccessor` | uni/src/main/cpp/unicorn/glib_compat/gtree.c:719-749 | the successor takes over both subtrees, the balance and the thread of the left one |
| `GTree.GTree.RestoreShrunk` | uni/src/main/cpp/unicorn/glib_compat/gtree.c:753-781 | the loop up the path ends with a balanced tree with the same list |
| `GTree.GTree.Detach` | uni/src/main/cpp/unicorn/glib_compat/gtree.c:635-781 | the node leaves the tree, whatever children it has, and the tree is balanced |
| `GTree.GTree.RemoveInternal` | uni/src/main/cpp/unicorn/glib_compat/gtree.c:595-796 | exactly the pair of the key goes; its node and no other is freed; says whether there was one |
| `GTree.GTree.TreeLookup` | uni/src/main/cpp/unicorn/glib_compat/gtree.c:810-819 | the value of the key in the list of pairs, if any |
| `GTree.GTree.TreeHeight` | uni/src/main/cpp/unicorn/glib_compat/gtree.c:996-1018 | the true height |
| `GTree.GTree.NodeNext` | uni/src/main/cpp/unicorn/glib_compat/gtree.c:250-261 | the next node in order, reading only the node and its right subtree |
| `GTree.GTree.First` | uni/src/main/cpp/unicorn/glib_compat/gtree.c:222-235 | the first node of a subtree |
| `GTree.GTree.Last` | uni/src/main/cpp/unicorn/glib_compat/gtree.c:735-736 | the last node of a subtree |
| `GTree.GTree.Foreach` | uni/src/main/cpp/unicorn/glib_compat/gtree.c:874-892 | visits the pairs in key order up to the one where the callback stops |
| `GTree.GTree.RemoveAll` | uni/src/main/cpp/unicorn/glib_compat/gtree.c:263-287 | every node is freed once and none is read after it was freed |
| `SortedPairs.LookupInserted` | uni/src/main/cpp/unicorn/glib_compat/gtree.c:372-408 | insertion changes the lookup of exactly the given key |
| `SortedPairs.LookupRemoved` | uni/src/main/cpp/unicorn/glib_compat/gtree.c:551-564 | removal changes the lookup of exactly the given key |
| `SortedPairs.InsertedAt` | uni/src/main/cpp/unicorn/glib_compat/gtree.c:440-455 | an equal key gets the value and keeps its key, or has it replaced |
| `SortedPairs.InsertedBetween` | uni/src/main/cpp/unicorn/glib_compat/gtree.c:457-505 | a new key comes between the smaller and the larger ones |
| `Exits.ExitsOrder` | uni/src/main/cpp/unicorn/uc.c:200-212 | the comparison of exits is a strict order, as the tree needs |
| `Exits.Engine.AddExit` | uni/src/main/cpp/unicorn/include/uc_priv.h:415-420 | the address is added to the exits, the others stay |
| `Exits.Engine.WriteExits` | uni/src/main/cpp/unicorn/uc.c:2231-2240 | the exits are exactly the distinct values of the array, in increasing order; refused without the exits mode |
| `Exits.Engine.ReadExits` | uni/src/main/cpp/unicorn/uc.c:2219-2230 | the strictly increasing list of all exits, if the array is large enough |
| `Exits.Engine.ExitsCount` | uni/src/main/cpp/unicorn/uc.c:2206-2217 | the number of exits |
| `Exits.Engine.AddrIsExit` | uni/src/main/cpp/unicorn/include/uc_priv.h:424-431 | membership in the exits, or equality with the exit of the current level |
| `Probing.ProbesDiffer` | uni/src/main/cpp/unicorn/glib_compat/glib_compat.c:580-612 | triangular steps modulo 2^n: two different steps below the size never meet |
| `Probing.ProbesReach` | uni/src/main/cpp/unicorn/glib_compat/glib_compat.c:580-612 | every slot is visited within size steps |
| `HashTable.ModFits` | uni/src/main/cpp/unicorn/glib_compat/glib_compat.c:620-665 | every prime of the table is at most its table size and more than half of it, so the first slot is in range |
| `HashSlots.ProbeEnds` | uni/src/main/cpp/unicorn/glib_compat/glib_compat.c:899-926 | a table with fewer used slots than its size has an unused slot on every probe sequence |
| `HashSlots.ProbeMisses` | uni/src/main/cpp/unicorn/glib_compat/glib_compat.c:899-926 | where a probe stops at an unused slot the key is nowhere in the table |
| `HashSlots.EntryAdded` | uni/src/main/cpp/unicorn/glib_compat/glib_compat.c:783-835 | storing a missing key in the slot found changes the lookup of exactly the keys equal to it, also over a tombstone |
| `HashSlots.EntryReplaced` | uni/src/main/cpp/unicorn/glib_compat/glib_compat.c:783-835 | overwriting the entry of an equal key changes exactly its lookup |
| `HashSlots.EntryRemoved` | uni/src/main/cpp/unicorn/glib_compat/glib_compat.c:1091-1109 | a tombstone removes exactly the equal keys and breaks no probe sequence |
| `HashTable.FindClosestShift` | uni/src/main/cpp/unicorn/glib_compat/glib_compat.c:676-684 | the number of bits of n |
| `HashTable.GHashTable.constructor` | uni/src/main/cpp/unicorn/glib_compat/glib_compat.c:998-1018 | an empty table of eight slots |
| `HashTable.GHashTable.SetShift` | uni/src/main/cpp/unicorn/glib_compat/glib_compat.c:659-674 | size, prime modulus and mask belong together |
| `HashTable.GHashTable.LookupNode` | uni/src/main/cpp/unicorn/glib_compat/glib_compat.c:884-929 | ends within size steps at the slot of the key or, if there is none, at an unused one |
| `HashTable.GHashTable.LookupNodeForInsertion` | uni/src/main/cpp/unicorn/glib_compat/glib_compat.c:560-618 | the slot of the key, or the first tombstone or unused slot on its probe sequence |
| `HashTable.GHashTable.FindUnused` | uni/src/main/cpp/unicorn/glib_compat/glib_compat.c:733-738 | the probe of the resize loop ends |
| `HashTable.GHashTable.Store` | uni/src/main/cpp/unicorn/glib_compat/glib_compat.c:730-740 | one entry moves to the new slots |
| `HashTable.GHashTable.MoveEntry` | uni/src/main/cpp/unicorn/glib_compat/glib_compat.c:722-740 | the new slots answer like the old ones read so far |
| `HashTable.GHashTable.MoveEntries` | uni/src/main/cpp/unicorn/glib_compat/glib_compat.c:720-741 | all old entries and only they are in the new slots, with no tombstones |
| `HashTable.GHashTable.Resize` | uni/src/main/cpp/unicorn/glib_compat/glib_compat.c:709-746 | every lookup is unchanged, noccupied equals nnodes, and the size is the smallest of at least eight slots that is more than twice that |
| `HashTable.GHashTable.MaybeResize` | uni/src/main/cpp/unicorn/glib_compat/glib_compat.c:757-765 | the table is rebuilt exactly when it is too empty or too full, the new size is the least that has room, and noccupied stays below the size; every lookup is unchanged |
| `HashTable.GHashTable.InsertInternal` | uni/src/main/cpp/unicorn/glib_compat/glib_compat.c:783-835 | the abstract map changes at exactly the keys equal to the given one; nnodes is its size |
| `HashTable.GHashTable.Insert` | uni/src/main/cpp/unicorn/glib_compat/glib_compat.c:859-865 | an equal key is kept, its value replaced |
| `HashTable.GHashTable.Replace` | uni/src/main/cpp/unicorn/glib_compat/glib_compat.c:838-843 | key and value are replaced |
| `HashTable.GHashTable.Lookup` | uni/src/main/cpp/unicorn/glib_compat/glib_compat.c:943-955 | the value in the abstract map, if any |
| `HashTable.GHashTable.Remove` | uni/src/main/cpp/unicorn/glib_compat/glib_compat.c:1123-1143 | the keys equal to the given one go, and whether there was one; then the table has at most four slots for each entry, or eight |
| `HashTable.GHashTable.RemoveAll` | uni/src/main/cpp/unicorn/glib_compat/glib_compat.c:1031-1077 | nothing is left, in eight slots |
| `MemoryMap.Memory.BSearchMappedBlocks` | uni/src/main/cpp/unicorn/uc.c:933-956 | all regions before the index end at or below the address, all from it on end above it; the end of a region at the top of memory is stored as zero |
| `MemoryMap.Memory.MemoryMapping` | uni/src/main/cpp/unicorn/uc.c:1532-1560 | the one region that holds the address, or none, for every value of the cache index |
| `MemoryMap.Memory.CheckMemArea` | uni/src/main/cpp/unicorn/uc.c:550-566 | holds exactly when every byte of the range, modulo 2^64, is mapped |
| `MemoryMap.Memory.MemoryOverlap` | uni/src/main/cpp/unicorn/uc.c:959-976 | holds exactly when some byte of the range is mapped |
| `MemoryMap.Memory.MemMapCheck` | uni/src/main/cpp/unicorn/uc.c:1011-1045 | which error for which arguments, in both directions |
| `MemoryMap.Memory.MemMap` | uni/src/main/cpp/unicorn/uc.c:979-1009 | the region is inserted at its place in the sorted disjoint list, within the allocated capacity |
| `MemoryMap.Memory.MemoryMapRam` | uni/src/main/cpp/unicorn/qemu/softmmu/memory.c:41-59 | fresh zero memory that no other region uses, or nothing |
| `MemoryMap.Memory.UcMemMap` | uni/src/main/cpp/unicorn/uc.c:1048-1065 | exactly the range becomes mapped, zero, with the permissions; errors change nothing |
| `MemoryMap.Memory.UcMemMapPtr` | uni/src/main/cpp/unicorn/uc.c:1068-1090 | exactly the range becomes mapped and shows the memory of the caller |
| `MemoryMap.Memory.MemRead` | uni/src/main/cpp/unicorn/uc.c:569-610 | the bytes of the range in order, over any number of regions, or the error |
| `MemoryMap.Memory.WriteMem` | uni/src/main/cpp/unicorn/uc.c:644-648 | one region is written, unless it is read-only |
| `MemoryMap.Memory.WriteChunk` | uni/src/main/cpp/unicorn/uc.c:635-655 | protected memory is written too and protected again |
| `MemoryMap.Memory.MemWrite` | uni/src/main/cpp/unicorn/uc.c:613-668 | all bytes are written or none; every host byte behind the range holds what was written there last, every other one is unchanged |
| `MemoryEffects.WriteShows` | uni/src/main/cpp/unicorn/uc.c:569-668 | when no two regions share memory, reading after a write gives the bytes written in the range and the old ones elsewhere, with the permissions as they were |
| `MemoryMap.Memory.MemoryUnmap` | uni/src/main/cpp/unicorn/qemu/softmmu/memory.c:151-175 | exactly the bytes of the region become unmapped, and only memory the engine owns is freed |
| `MemoryMap.Memory.CopyRegion` | uni/src/main/cpp/unicorn/uc.c:1118-1131 | the bytes of the region, or nothing if it is larger than INT_MAX |
| `MemoryMap.Memory.FindBlock` | uni/src/main/cpp/unicorn/uc.c:1255-1268 | the block found passes the test and is a biggest one that does, as the order of the list makes the first one, or none does |
| `MemoryEffects.OwnBlock` | uni/src/main/cpp/unicorn/uc.c:1255-1275 | a block of caller memory that passes the test is the one of the region itself |
| `MemoryMap.Memory.TakeBackup` | uni/src/main/cpp/unicorn/uc.c:1255-1281 | the backup yields the bytes of the region; it is the memory of the caller if and only if the region has such memory and no block of the engine spans it |
| `MemoryMap.Memory.BlockFound` | uni/src/main/cpp/unicorn/uc.c:1255-1275 | the scan finds memory of the caller exactly when the region has it and no block of the engine, rounded up to host pages, spans the region |
| `MemoryMap.Memory.OverlaidBigger` | uni/src/main/cpp/unicorn/qemu/exec.c:1056-1072 | such a block of the engine is bigger than the block of the region and therefore comes first in the list |
| `MemoryMap.Memory.NeverOverlaid` | uni/src/main/cpp/unicorn/uc.c:1255-1275 | when target pages are whole host pages no block of the engine spans another region |
| `MemoryMap.SharingLost` | uni/src/main/cpp/unicorn/uc.c:1255-1332 | the input for which sharing is lost, by the calls themselves: 1 KiB target pages, 4 KiB host pages, caller memory mapped behind a region of the engine and its first page protected; no address of the region shows the memory of the caller any more |
| `MemorySharing.SplitSharing` | uni/src/main/cpp/unicorn/uc.c:1255-1366 | after a split the addresses still mapped show the memory of the caller as before, except those of the split region when a block of the engine spans it |
| `MemorySharing.GoneSharing` | uni/src/main/cpp/unicorn/uc.c:1506-1526 | a region that is unmapped takes no sharing of another one with it |
| `MemoryMap.Memory.NothingLost` | uni/src/main/cpp/unicorn/uc.c:1255-1366 | with target pages of whole host pages one round of a call keeps all sharing |
| `MemoryMap.Memory.SharingStep` | uni/src/main/cpp/unicorn/uc.c:1501-1527 | one round keeps the statement on sharing: none is new, and a call inside one region is one round |
| `MemoryMap.Memory.Remap` | uni/src/main/cpp/unicorn/uc.c:1319-1332 | one piece is mapped again with the bytes it had |
| `MemoryMap.Memory.RemapSome` | uni/src/main/cpp/unicorn/uc.c:1334-1349 | a piece that is empty or to be deleted is left out |
| `MemoryMap.Memory.Rebuild` | uni/src/main/cpp/unicorn/uc.c:1308-1366 | the pieces on both sides, and the middle unless deleted, show the old bytes and permissions |
| `MemoryMap.Memory.SplitRegion` | uni/src/main/cpp/unicorn/uc.c:1227-1378 | deleting: exactly the part is gone; keeping: nothing shows and the part is a region of its own; the pieces keep the memory of the caller, each at its place, if and only if no block of the engine spans the region, and are copies otherwise; fails without effect inside a region that reaches the top of memory |
| `MemoryMap.Memory.UnmapStep` | uni/src/main/cpp/unicorn/uc.c:1506-1526 | one round of the loop of uc_mem_unmap |
| `MemoryMap.Memory.UnmapRange` | uni/src/main/cpp/unicorn/uc.c:1501-1527 | the loop, over any number of regions, splits and wrap-around; with the splitting that calls it back it terminates |
| `MemoryMap.Memory.MemUnmap` | uni/src/main/cpp/unicorn/uc.c:1469-1529 | on success the range and nothing else is unmapped, except as UnmapExactIff says; errors up to the check change nothing; a range that starts behind the first byte of a region reaching 2^64 is refused without effect; when no allocation fails and the other regions can be split, it succeeds if and only if the range does not start so; inside one region exactly the addresses still mapped stay shared with the caller, unless the region is split while a block of the engine spans it, no sharing is ever new, and with target pages of whole host pages all of it is kept; regions outside the range are untouched |
| `MemoryEffects.UnmapExactIff` | uni/src/main/cpp/unicorn/uc.c:1469-1529 | a successful unmap removes exactly the range if and only if the range does not start a region that reaches 2^64 without finishing it |
| `MemoryMap.TopPageLost` | uni/src/main/cpp/unicorn/uc.c:1237-1243 | the input for which it fails, by the calls themselves: two pages mapped at the top of memory, the first one unmapped with success, and the last byte, readable before, is unmapped |
| `MemoryMap.Memory.ProtectStep` | uni/src/main/cpp/unicorn/uc.c:1424-1440 | one round of the loop of uc_mem_protect: the part is a region with the new permissions that is read-only unless it may be written |
| `MemoryEffects.SettledStep` | uni/src/main/cpp/unicorn/uc.c:1424-1457 | the regions the range has come over stay as read-only as their permissions say |
| `MemoryEffects.PermissionBits` | uni/src/main/cpp/unicorn/uc.c:1433-1440 | which permissions allow writing and execution |
| `MemoryMap.Memory.ProtectRange` | uni/src/main/cpp/unicorn/uc.c:1421-1453 | the loop, and whether execution was removed anywhere in the range |
| `MemoryMap.Memory.MemProtect` | uni/src/main/cpp/unicorn/uc.c:1381-1466 | on success exactly the range has the new permissions and no content changes, except as ProtectExactIff says; the regions of the range are read-only exactly if they may not be written, and regions outside it are untouched; refusal without effect, the condition for success and what is shared are as for MemUnmap; when the emulation is asked to quit |
| `MemoryMap.TopPageProtected` | uni/src/main/cpp/unicorn/uc.c:1237-1243 | the same for protecting: the first of two pages is protected with success, and the last byte has the new permissions |
| `MemoryEffects.EnteredChunk` | uni/src/main/cpp/unicorn/uc.c:1250-1253 | a range that starts behind the first byte of a region reaching 2^64 neither covers it nor can split it |
| `MemoryEffects.ProtectExactIff` | uni/src/main/cpp/unicorn/uc.c:1381-1466 | a successful protect changes exactly the range if and only if no region that reaches 2^64 with other permissions is started and not finished |
| `LinkedList.List.Insert` | uni/src/main/cpp/unicorn/list.c:30-47 | the data comes first |
| `LinkedList.List.Append` | uni/src/main/cpp/unicorn/list.c:51-66 | the data comes last; head, tail and links stay right |
| `LinkedList.List.Remove` | uni/src/main/cpp/unicorn/list.c:69-98 | the first item with the data is unlinked and freed, and the tail moves when it was the last |
| `LinkedList.List.Exists` | uni/src/main/cpp/unicorn/list.c:101-117 | whether the data is in the list |
| `LinkedList.List.Clear` | uni/src/main/cpp/unicorn/list.c:13-26 | every item is freed and its data handed to the destructor once, in order |
| `Hooks.Engine.Link` | uni/src/main/cpp/unicorn/uc.c:35-51 | the hook is on the linked list, at its front or back, and has one reference more |
| `Hooks.Engine.PutOn` | uni/src/main/cpp/unicorn/uc.c:35-51 | the linked list holds the data in front or at the end, and no other list changes |
| `Hooks.Engine.TakeFrom` | uni/src/main/cpp/unicorn/uc.c:724 | the first item with the hook is unlinked from this list, and no other list changes |
| `Hooks.Engine.IsOn` | uni/src/main/cpp/unicorn/uc.c:1693 | whether the linked list has the hook |
| `Hooks.Engine.Note` | uni/src/main/cpp/unicorn/uc.c:1699 | the hook is at the end of the linked list of hooks to delete |
| `Hooks.Engine.Noted` | uni/src/main/cpp/unicorn/uc.c:719-720 | following the links reads the hooks to delete in order |
| `Hooks.Engine.LinkAll` | uni/src/main/cpp/unicorn/uc.c:1649-1668 | the loop over the bits of the type puts the hook on exactly the lists asked for |
| `Hooks.Engine.UcHookAdd` | uni/src/main/cpp/unicorn/uc.c:1563-1677 | the hook is on exactly the lists of its type, behind the hooks there or in front of them, with as many references, or refused and freed; no other hook changes |
| `Hooks.WantedBits` | uni/src/main/cpp/unicorn/uc.c:1586-1668 | which lists a type word asks for, by its bits |
| `Hooks.Engine.UcHookDel` | uni/src/main/cpp/unicorn/uc.c:1680-1704 | the hook is marked and noted once for every list it is on; nothing is removed yet, and unknown handles do nothing |
| `Hooks.Engine.HookDelete` | uni/src/main/cpp/unicorn/uc.c:61-71 | the last reference frees the hook |
| `Hooks.Engine.TakeOff` | uni/src/main/cpp/unicorn/uc.c:722-727 | the hook goes off the first list that has it |
| `Hooks.Engine.TakeAllOff` | uni/src/main/cpp/unicorn/uc.c:719-728 | the assert that every hook noted is marked holds; no list holds a deleted hook any more, the others keep their order, and no hook is freed yet |
| `Hooks.Engine.ClearList` | uni/src/main/cpp/unicorn/uc.c:730 | the last mention of each deleted hook frees it |
| `Hooks.Engine.ClearDeletedHooks` | uni/src/main/cpp/unicorn/uc.c:714-731 | exactly the deleted hooks are off the lists and freed, each once, however often they were deleted |
| `Hooks.Engine.Close` | uni/src/main/cpp/unicorn/uc.c:484-489 | no hook is left |
| `Hooks.Engine.DropList` | uni/src/main/cpp/unicorn/list.c:13-26 | clearing a list takes away one reference for each item and frees the hooks that lose their last one |
| `Hooks.Engine.constructor` | uni/src/main/cpp/unicorn/uc.c:214-226 | no hooks, no level and no explicit exits |
| `Hooks.Engine.SetCountHook` | uni/src/main/cpp/unicorn/uc.c:844-868 | the counting hook comes to the front of the code hooks, is deleted, or stays as it is |
| `Hooks.CodeHook` | uni/src/main/cpp/unicorn/uc.c:854-862 | the counting hook goes on one list and cannot be refused |
| `Hooks.Engine.EmuStart` | uni/src/main/cpp/unicorn/uc.c:733-892 | a run stores its exit address unless the exits are set explicitly; nested_level and the exits of the outer levels are as before; while a level is active no hook is freed and none leaves a list; the lists grow by exactly the hooks that the calls in effect add, in their order and with their types, with the counting hooks in front, and every hook they delete is marked, or gone after the outermost run; every hook that nobody deleted is on its lists; how the exits are set and whether instructions are counted afterwards; too deep nesting changes nothing |
| `Hooks.Engine.Run` | uni/src/main/cpp/unicorn/uc.c:733-892 | the same over every sequence of additions, deletions and arbitrarily nested runs, with references equal to occurrences throughout; a hook that no call at any depth deletes survives on its lists |
| `Hooks.Engine.Act` | uni/src/main/cpp/unicorn/uc.c:733-892 | the same for one call |
| `Hooks.Engine.Leave` | uni/src/main/cpp/unicorn/uc.c:882-892 | the level goes down, and after the last one exactly the marked hooks are off the lists and freed |
| `Hooks.SweptDeleted` | uni/src/main/cpp/unicorn/uc.c:714-731 | a hook that a callback deleted, or that was marked before, is in no list and not in memory after the outermost run |
| `Hooks.MadeTrans` | uni/src/main/cpp/unicorn/uc.c:733-892 | what two sequences of calls make of the hooks one after the other is what both together make |
| `Hooks.Concat` | uni/src/main/cpp/unicorn/uc.c:733-892 | what calls add, delete, set and count over a sequence is that of its parts in turn |
| `Pattern.PhMatch` | uni/src/main/cpp/unicorn/glib_compat/gpattern.c:77-152 | true exactly when the pattern matches; a failure after a wildcard is final for every later start |
| `Pattern.Wildcard` | uni/src/main/cpp/unicorn/glib_compat/gpattern.c:99-137 | stars absorb stars, jokers eat one character each, then the rest decides |
| `Pattern.Retry` | uni/src/main/cpp/unicorn/glib_compat/gpattern.c:115-137 | trying every occurrence of the next literal, with the cut-off at the next wildcard, is matching behind a star |
| `Pattern.NoLaterStart` | uni/src/main/cpp/unicorn/glib_compat/gpattern.c:126-135 | the cut-off loses no match |
| `Glob.GlobReverse` | uni/src/main/cpp/unicorn/glib_compat/gpattern.c:219-230 | matching backwards is matching |
| `Glob.StarJokers` | uni/src/main/cpp/unicorn/glib_compat/gpattern.c:286-313 | stars and jokers in a row may be reordered and stars merged |
| `PatternSpec.StringReverse` | uni/src/main/cpp/unicorn/glib_compat/gpattern.c:154-172 | the reverse, or nothing for a length that is not positive |
| `PatternSpec.Canonicalize` | uni/src/main/cpp/unicorn/glib_compat/gpattern.c:273-328 | the canonical pattern is the one Canon gives, it is equivalent, its length and the length bounds are right, and the positions are those of the first and last star, the first joker, and the last joker or the first of those at the end |
| `PatternSpec.WriteJokers` | uni/src/main/cpp/unicorn/glib_compat/gpattern.c:303-322 | pending jokers are written out, and which positions are recorded for them |
| `PatternSpec.SpecNew` | uni/src/main/cpp/unicorn/glib_compat/gpattern.c:262-367 | the compiled form and strategy mean the pattern, and which patterns are matched from the end or by their tail; the reversed pattern is never null |
| `PatternSpec.Match` | uni/src/main/cpp/unicorn/glib_compat/gpattern.c:202-252 | all five strategies, for strings of every length: the reversed string is null if and only if the pattern is matched from the end, no reversed string is given, the length is within the bounds and is 2^31 or more; otherwise the answer is true exactly when the pattern matches and the string is within the bound, and for strings of 2^32 characters or more it is what LongAnswer says of each strategy |
| `PatternSpec.MatchString` | uni/src/main/cpp/unicorn/glib_compat/gpattern.c:394-400 | compiling and matching is glob matching, exactly when the bound is harmless, with the same conditions on the length; below 2^31 characters there always is a result |
| `PatternSpec.NullReversed` | uni/src/main/cpp/unicorn/glib_compat/gpattern.c:219-230 | the input without a result: a pattern matched from the end and a string of 2^31 characters that it matches |
| `PatternSpec.LongRefused` | uni/src/main/cpp/unicorn/glib_compat/gpattern.c:394-400 | the input whose length is truncated: a string of 2^32 + 1 characters that the pattern matches is refused |
| `PatternSpec.FromEndIs` | uni/src/main/cpp/unicorn/glib_compat/gpattern.c:331-360 | whether a pattern is matched from the end or by its tail, from the positions of its stars |
| `PatternSpec.JokersFromEndIs` | uni/src/main/cpp/unicorn/glib_compat/gpattern.c:322-360 | the same for a pattern without a star, from the positions of its jokers |
| `PatternSpec.BoundIsHarmless` | uni/src/main/cpp/unicorn/glib_compat/gpattern.c:300 | the bound rejects no match if and only if the pattern has a star or its 32-bit counter did not wrap below the length of the pattern |
| `PatternSpec.ShortPatterns` | uni/src/main/cpp/unicorn/glib_compat/gpattern.c:300 | patterns below 2^30 characters are never affected |
| `PatternSpec.WrappedBound` | uni/src/main/cpp/unicorn/glib_compat/gpattern.c:300 | the input for which it fails: 2^30 jokers |
| `PatternSpec.MatchLength` | uni/src/main/cpp/unicorn/glib_compat/gpattern.c:210-212 | the length bounds are implied by matching |
| `MersenneTwister.GRand.SetSeed` | uni/src/main/cpp/unicorn/glib_compat/grand.c:106-140 | the state holds the first 624 words of the sequence of the seed |
| `MersenneTwister.GRand.Regenerate` | uni/src/main/cpp/unicorn/glib_compat/grand.c:359-374 | the three loops, in place, step every word 624 places along the recurrence |
| `MersenneTwister.GRand.Int` | uni/src/main/cpp/unicorn/glib_compat/grand.c:351-383 | the k-th number drawn is the tempered word 624 + k of the sequence |
| `MersenneTwister.TwistLinear` | uni/src/main/cpp/unicorn/glib_compat/grand.c:361-372 | the recurrence is linear over exclusive or |
| `MersenneTwister.TwistBasis` | uni/src/main/cpp/unicorn/glib_compat/grand.c:361-372 | its images of all single bits, as numbers |
| `MersenneTwister.TemperLinear` | uni/src/main/cpp/unicorn/glib_compat/grand.c:377-380 | tempering is linear |
| `MersenneTwister.TemperBasis` | uni/src/main/cpp/unicorn/glib_compat/grand.c:377-380 | its images of all single bits, as numbers |
| `MersenneTwister.SeedSamples` | uni/src/main/cpp/unicorn/glib_compat/grand.c:106-140 | what the seeding makes of single bits and of words of known sequences |
| `MersenneTwister.SeedIndex` | uni/src/main/cpp/unicorn/glib_compat/grand.c:106-140 | the index of a word is added to what the seeding makes of the word before |
| `MersenneTwister.Recurrence` | uni/src/main/cpp/unicorn/glib_compat/grand.c:361-372 | the sequence with the parameters 624 and 397 written out |
| `MersenneTwister.TemperBijective` | uni/src/main/cpp/unicorn/glib_compat/grand.c:376-380 | tempering is a bijection on 32-bit words, with its inverse |
| `MergeOrder.MergedSorted` | uni/src/main/cpp/unicorn/glib_compat/glib_compat.c:190-223 | merging sorted lists gives a sorted list |
| `MergeOrder.MergedStable` | uni/src/main/cpp/unicorn/glib_compat/glib_compat.c:190-223 | merging keeps the order of equivalent nodes, those of the first list first |
| `MergeOrder.MergedSame` | uni/src/main/cpp/unicorn/glib_compat/glib_compat.c:190-223 | merging loses and adds no node |
| `MergeOrder.SortedStable` | uni/src/main/cpp/unicorn/glib_compat/glib_compat.c:225-252 | the sort sorts and is stable |
| `ListSort.MergingStep` | uni/src/main/cpp/unicorn/glib_compat/glib_compat.c:205-217 | hanging a node behind the last one keeps both chains of links |
| `ListSort.Sorter.SortMerge` | uni/src/main/cpp/unicorn/glib_compat/glib_compat.c:190-223 | in place: the nodes are linked both ways in merged order, the first with no predecessor |
| `ListSort.Sorter.Middle` | uni/src/main/cpp/unicorn/glib_compat/glib_compat.c:236-245 | the slow pointer stops before the middle |
| `ListSort.Sorter.SortReal` | uni/src/main/cpp/unicorn/glib_compat/glib_compat.c:225-252 | in place: the nodes are linked in sorted order, two or more of them both ways, whatever the prev links were |
| `ListSort.Sorter.Sort` | uni/src/main/cpp/unicorn/glib_compat/glib_compat.c:279-282 | a sorted stable permutation of the same nodes; data and all other nodes are untouched |

## Left out

- Dispatch.AddressSpaceDispatch.FlatviewAddToDispatch: page sizes are 2 to 2^16 bytes, and ranges are RAM or device regions that do not overlap, as a flat view guarantees.
- GTree.GTree.InsertInternal: requires fewer than 433494436 nodes, the number up to which the 40-entry path array suffices; LimitIsSharp shows a balanced tree of that many nodes for which it does not. RemoveInternal and the exits have the same limit.
- HashTable.GHashTable.InsertInternal: requires fewer than 2^29 entries, since sizes are signed 32-bit integers in the code; value and key destructors are not modelled.
- PatternSpec.SpecNew: requires a pattern below 2^32 characters whose canonical text is below 2^31, since positions are signed 32-bit integers in the code; every pattern below 2^31 characters will do. MatchString has the same limit.
- PatternSpec.Match: bytes stand for characters, as in the code.
- FlatAccess.FlatView.Write: read-only RAM of 2^32 bytes and more is the one case in which only a necessary condition for a lack of progress is stated: an unaligned device access before it can skip its first bytes. What devices do with the bytes sent to them is not modelled.
- FlatAccess.FlatView.Read: requires at least one byte, as the callers check; devices answer from an oracle.
- MemoryMap.Memory.SplitRegion: called on a part of one region, as both callers do; the list of RAM blocks is represented by its order from the biggest to the smallest block, and among equally big ones the scan takes any.
- MemoryMap.Memory.MemUnmap: only RAM regions occur; MMIO regions are split in the same way but their callbacks are foreign code. `mem_redirect`, which the MIPS and PowerPC targets set, is absent. TLB flushes are not modelled. For a range over several regions and host pages larger than target pages it is stated that no sharing is new, and not which region loses it: splitting one region changes which blocks span the next.
- Hooks.Engine.UcHookAdd: allocation of hooks and list items is taken to succeed; `hooks_count` and the translated regions of a hook are not modelled.
- Hooks.Engine.EmuStart: registers, timers and the translated code are not modelled; what callbacks do is a list of actions.
- Translation of guest code, register access, contexts and threads: they delegate to code that is not part of this model.
- IOMMU translation, breakpoints, watchpoints and bounce buffers in `qemu/exec.c`: they depend on foreign callbacks and host calls.
- `g_slist_sort`: the same algorithm without prev links.
- `g_tree_traverse`, `g_tree_search` and `g_hash_table_foreach`: visiting or searching the nodes in order with a callback that may stop the visit; the callbacks are foreign code.
- `garray.c`, `gmem.c`, `gslice.c`, `glist.c`: growth arithmetic and thin wrappers.
- Java, JNI and Android layers, samples and generated constants.
