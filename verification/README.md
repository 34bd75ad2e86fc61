# Embassies, in Dafny

A model of the data structures and protocols that the Embassies client kernel is built on, with proofs of
what they are relied on for. Each part takes the shape of its source: objects with fields that methods
update, recursion where the source recurses, loops where it loops.

- **AVL trees** (`AvlShape`, `AvlSpec`, `AvlNodes`, `AvlSearch`, `AvlWalk`, `Avl`). Trees are built of nodes in a store, with
  parent links and balance factors. Each in-place operation is proved to leave in the store the tree that a
  function on values describes. What that function keeps (order, exact balance, contents) is proved of the function.
- **Range allocation** (`Ranges`, `RangeTrees`, `RangeUnion`, `CoalescingSpec`, `CoalescingAllocator`), on top of the
  AVL trees: free ranges in two trees, allocated fragments in a third, reference-counted owners. What is free and what
  is allocated is stated point by point, and the trees are searched with the signed comparison of the source.
- **The incrementally resizing hash table** (`HashTable`), with the potential that makes its growth sound.
- **The binned allocator** (`LiteLog2`, `Sums`, `CheesySpec`, `CheesyMalloc`), with byte-exact accounting.
- **Merkle-tree installation** (`MerkleTree`, `BlockCache`, `CachedFile`): what is known, tentative and validated as
  replies arrive, and the blocks of data under the leaves.
- **SHA-1 buffering** (`Sha1`), with the block function left open.
- **Domain names and certificate chains** (`DomainSpec`, `DomainName`, `PubKey`).
- **The recursive mutex** (`RecursiveMutex`), as every interleaving of its threads.

`Words` and `Options` are shared types. Some predicates stand behind a trivially true one (`Seen` in `Folding`,
`Opened` in `Avl`), so that proofs that only pass them on do not unfold them; asserting it, or a call of `Open` or
`Look`, unfolds them.

Where the code and its comments differ, the model follows the code:

- `lite_log2(0)` is 1, not 0.
- The AVL checker compares children with their parents only, so it does not imply search order.
- A validated node is tied to the file's hash exactly when all nodes above it are validated too; a node whose parent
  is only tentative can be validated without that.
- The recursive mutex keeps threads apart, but a thread that calls `lock` while another is inside blocks all of them.
- Ranges and sizes are compared by a signed 32-bit difference. Beyond 2^31 a search can run backwards; the results on
  allocating, freeing and listing ranges say exactly when, and what happens then.
- Names are compared as null-terminated text, but a name read from a buffer may hold nulls. The results on `==`,
  `suffix` and certificate chains hold for any bytes and say what changes where there is a null.
- The check of a subdomain reads past its text exactly where a last label of one character is no letter.
- Blocks are kept by hash. Where two blocks of a file are named alike, data sent for the second is not compared with what
  the first left; the results on installing data say exactly which bytes are those sent.
- Installing data is said to imply hashes at the leaves; the code looks the leaf up and stops if it is not known.

## Model

| member | source | states |
|---|---|---|
| AvlShape.RotationRight | common/utils/avl2logic.h:572-744 | a node two too heavy on the right is an exact AVL tree again after the rotation its child's balance calls for, one level shorter unless the child was balanced |
| AvlShape.RotationLeft | common/utils/avl2logic.h:572-744 | the mirror image, for a node two too heavy on the left |
| AvlShape.SingleRotatedItems | common/utils/avl2logic.h:572-633 | a single rotation, with or without the balance repair of a deletion, keeps the in-order items |
| AvlShape.DoubleRotatedItems | common/utils/avl2logic.h:635-744 | a double rotation keeps the in-order items |
| AvlShape.GrowOk | common/utils/avl2logic.h:492-570 | the upward walk after an insertion, from any place in any AVL tree, ends in an exact AVL tree with the same items |
| AvlShape.ShrinkOk | common/utils/avl2logic.h:880-960 | the upward walk after a deletion, from any place in any AVL tree, ends in an exact AVL tree with the same items |
| AvlShape.PlugAvl | common/utils/avl2logic.h:349-399 | a tree seen as a subtree in a context is AVL exactly when the subtree is and the context fits its height |
| AvlSpec.InsertedOk | common/utils/avl2logic.h:401-490 | inserting an absent key puts exactly one item among the old ones, keeps order and exact balance, and adds one binding to the map |
| AvlSpec.RemovedAtOk | common/utils/avl2logic.h:746-878 | taking any node out of any AVL tree leaves the other items in order and an exact AVL tree, whichever of the leaf, thin and successor cases applies |
| AvlSpec.RemovedOk | common/utils/avl2logic.h:746-878 | removing a present key takes exactly that item out, keeps order and balance, and removes one binding from the map |
| AvlSpec.RunOk | common/utils/avl2.h:573-628 | after every run of insertions and removals the tree is AVL and ordered and represents the map that the run describes |
| Avl.AVLTree.constructor | common/utils/avl2.h:355-364 | a new tree is valid and empty |
| Avl.AVLTree.Promote | common/utils/avl2logic.h:592-606 | only the link from the parent, or the root, is redirected |
| Avl.AVLTree.SingleRotate | common/utils/avl2logic.h:572-633 | the nodes in memory, with parent links, are those of the rotated subtree in the same context |
| Avl.AVLTree.DoubleRotate | common/utils/avl2logic.h:635-744 | the same for the double rotation |
| Avl.AVLTree.RightAdded | common/utils/avl2logic.h:492-530 | memory holds the tree that the upward walk of an insertion describes; the recursion ends at the root at the latest |
| Avl.AVLTree.LeftAdded | common/utils/avl2logic.h:532-570 | the same on the left |
| Avl.AVLTree.GotOneShorter | common/utils/avl2logic.h:880-960 | memory holds the tree that the upward walk of a deletion describes; the recursion ends at the root at the latest and no assertion fires |
| Avl.AVLTree.RotateShrunk | common/utils/avl2logic.h:911-945 | the rotation of a deletion returns the new subtree root and whether the subtree kept its height |
| Avl.AVLTree.Insert | common/utils/avl2logic.h:401-490 | an absent key is added, nothing else changes, the tree stays valid, and the insertion counter moves by one in 32 bits; a null node is refused |
| Avl.AVLTree.RemoveNode | common/utils/avl2logic.h:746-878 | any node is taken out in place: memory holds the tree without it, its cell is gone, the deletion counter moves |
| Avl.AVLTree.ThinNode | common/utils/avl2logic.h:746-878 | a node with a missing child is a leaf or has a leaf of the matching balance, so the assertions of the removal cannot fire |
| Avl.AVLTree.Remove | common/utils/avl2.h:610-628 | returns what was bound to the key, or nothing; the key and only the key is gone; the tree stays valid |
| Avl.AVLTree.Lookup | common/utils/avl2.h:240-254 | finds the binding exactly when the key is present |
| Avl.AVLTree.FirstLessThan | common/utils/avl2.h:269-332 | the greatest smaller key with its value, or nothing exactly when there is none |
| Avl.AVLTree.FirstLessThanOrEqualTo | common/utils/avl2.h:269-332 | the greatest key that is no greater, or nothing exactly when there is none |
| Avl.AVLTree.FirstGreaterThan | common/utils/avl2.h:388-451 | the least greater key, or nothing exactly when there is none |
| Avl.AVLTree.FirstGreaterThanOrEqualTo | common/utils/avl2.h:388-451 | the least key that is no smaller, or nothing exactly when there is none |
| Avl.AVLTree.FindMin | common/utils/avl2.h:481-501 | the least key and its value; nothing exactly when the tree is empty |
| Avl.AVLTree.Size | common/utils/avl2.h:467-479 | insertions minus deletions is the number of keys, across any wrap-around of the counters that leaves them ordered |
| Avl.AVLTree.Check | common/utils/avl2.h:524-570 | the consistency check passes in every valid state: its depths and counts agree, and its walk sees every node |
| AvlWalk.Walk | common/utils/avl2.h:541-567 | the walk without a stack terminates, sees every node, and none of its assertions on the keys it passes fires |
| AvlWalk.Advance | common/utils/avl2.h:541-567 | one turn goes to the child or parent that comes next: what is left to see shrinks by the node just reached, and the way left gets shorter |
| Avl.AVLTree.FirstLessThanOrEqualToBy | common/utils/avl2.h:269-332 | with any comparison of keys: what is found compares as at or below, and is the true floor for every key the comparison agrees with |
| Avl.AVLTree.FirstGreaterThanOrEqualToBy | common/utils/avl2.h:388-451 | the same for the ceiling; with a comparison that runs backwards something is found exactly when the root compares as above |
| Avl.AVLTree.FirstGreaterThanBy | common/utils/avl2.h:388-451 | the same for what lies strictly above |
| Avl.CountZero | common/utils/avl2.h:454-479 | with the counters taken modulo 2^32, equal counters mean an empty tree and ordered ones give the size |
| AvlSearch.FindFirstLessThanOk | common/utils/avl2logic.h:156-187 | the recursive search returns the true greatest smaller node |
| AvlSearch.FindFirstLessThanOrEqualToOk | common/utils/avl2logic.h:206-243 | the recursive search returns the true greatest node that is no greater |
| AvlSearch.FindFirstGreaterThanOk | common/utils/avl2logic.h:262-292 | the recursive search returns the true least greater node |
| AvlSearch.FindFirstGreaterThanOrEqualToOk | common/utils/avl2logic.h:311-347 | the recursive search returns the true least node that is no smaller |
| AvlSearch.BackwardsRoot | common/utils/avl2logic.h:262-347 | with a comparison that runs backwards the root alone decides whether a search upwards finds anything |
| AvlSearch.CheckExact | common/utils/avl2logic.h:349-399 | the checker passes exactly when parent links, balance factors and parent-child order are right, and then returns height and node count |
| AvlSearch.CheckMissesSearchOrder | common/utils/avl2logic.h:349-399 | a tree, returned, that is out of search order and yet passes the checker, which compares children with their parents only |
| AvlSearch.SortedChildOrdered | common/utils/avl2logic.h:349-399 | a tree in search order always satisfies what the checker compares |
| Ranges.IntersectPoints | common/utils/CoalescingAllocator.cpp:26-29 | the intersection has exactly the common points, and is empty only when there are none |
| Ranges.SizeCounts | common/utils/CoalescingAllocator.h:35-35 | the size of a range is the number of its points, and 0 for an inverted one |
| Ranges.Diff32Exact | common/utils/CoalescingAllocator.cpp:31-51 | comparing by a 32-bit signed difference orders two words rightly exactly when they are less than 2^31 apart |
| Ranges.KeysAgree | common/utils/CoalescingAllocator.cpp:31-51 | below 2^31 both comparison functions order ranges as the integer keys of the trees do |
| Ranges.SpacedUnique | common/utils/CoalescingAllocator.cpp:128-203 | ranges that do not touch are determined by the points they cover |
| RangeTrees.SightIsCmp | common/utils/CoalescingAllocator.cpp:31-51 | what the searches compare with is the comparison of the source, by start and by size |
| RangeTrees.StartAgrees | common/utils/CoalescingAllocator.cpp:45-51 | a start up to 2^31 is sought in the order of the tree |
| RangeTrees.StartBackwards | common/utils/CoalescingAllocator.cpp:45-51 | a start beyond 2^31 is sought backwards: exactly the entries more than 2^31 below it are taken for ones above |
| RangeTrees.SizeAgrees | common/utils/CoalescingAllocator.cpp:31-43 | a size up to 2^31 is sought in the order of the tree |
| RangeTrees.SizeBackwards | common/utils/CoalescingAllocator.cpp:31-43 | a size beyond 2^31 is sought backwards: exactly the ranges more than 2^31 smaller are taken for larger ones |
| RangeUnions.RangeUnion.Accumulate | common/utils/RangeUnion.cpp:17-46 | terminates; the union covers exactly the old points and the new range; its ranges never touch or overlap |
| RangeUnions.RangeUnion.FirstRange | common/utils/RangeUnion.cpp:49-55 | the range with the least start, or nothing exactly when empty |
| RangeUnions.RangeUnion.NextRange | common/utils/RangeUnion.cpp:57-63 | for every 32-bit start: the next range in order, or nothing exactly when there is none, if and only if the start is not beyond 2^31 with a root more than 2^31 below it; otherwise a range that lies before |
| RangeUnions.RangeUnion.List | common/utils/RangeUnion.cpp:49-63 | walking from first to next lists every range once, in order |
| CoalescingSpec.Neighbours | common/utils/CoalescingAllocator.cpp:149-203 | looking at the two neighbouring free ranges detects every overlap with a free range, and nothing else |
| CoalescingSpec.JoinRight | common/utils/CoalescingAllocator.cpp:149-203 | merging with the range to the right leaves one that touches nothing on the right and covers the same points |
| CoalescingSpec.JoinLeft | common/utils/CoalescingAllocator.cpp:149-203 | merging with the range to the left then leaves one that touches nothing |
| CoalescingSpec.CeilingIsBestFit | common/utils/CoalescingAllocator.cpp:205-261 | the least upper key in the by-size tree is the smallest range that fits, lowest start first; no key means no range fits |
| CoalescingSpec.CutPoints | common/utils/CoalescingAllocator.cpp:285-312 | cutting an overlap out of an allocated fragment takes exactly its points from their owner |
| CoalescingSpec.CutFragments | common/utils/CoalescingAllocator.cpp:285-312 | how many fragments each object has after a cut |
| CoalescingSpec.RefsAllocate | common/utils/CoalescingAllocator.cpp:53-93 | a new object starts with one fragment and one reference |
| CoalescingSpec.RefsCut | common/utils/CoalescingAllocator.cpp:285-312 | after a cut every count is again the number of fragments, and an object dies exactly when its last fragment goes |
| CoalescingSpec.FreedAll | common/utils/CoalescingAllocator.cpp:314-352 | what the freeing loop has done at its end, point by point and owner by owner, with no point made or lost |
| CoalescingSpec.FreedConserves | common/utils/CoalescingAllocator.cpp:314-352 | freeing neither makes nor loses points |
| CoalescingSpec.FreedBehind | common/utils/CoalescingAllocator.cpp:314-352 | freeing that begins at a fragment before the range asked for frees points outside that range |
| CoalescingSpec.UserOn | common/utils/CoalescingAllocator.cpp:263-352 | what a lookup finds before and after freeing: nothing for a point freed, the same user for any other |
| CoalescingSpec.HandOutConserves | common/utils/CoalescingAllocator.cpp:205-261 | allocating neither makes nor loses points |
| CoalescingAllocators.CoalescingAllocator.constructor | common/utils/CoalescingAllocator.cpp:104-113 | an empty allocator satisfies the invariant |
| CoalescingAllocators.CoalescingAllocator.RemoveFreeRangeByStart | common/utils/CoalescingAllocator.cpp:128-137 | the range leaves both trees |
| CoalescingAllocators.CoalescingAllocator.InsertCoalescedFreeRange | common/utils/CoalescingAllocator.cpp:139-147 | the range enters both trees |
| CoalescingAllocators.CoalescingAllocator.CreateEmptyRangeNoLock | common/utils/CoalescingAllocator.cpp:149-203 | exactly the new points become free, free ranges never touch, both trees agree, and the recursion is at most one level deep |
| CoalescingAllocators.CoalescingAllocator.CreateEmptyRange | common/utils/CoalescingAllocator.cpp:121-126 | the whole invariant is kept when the range is new to the allocator |
| CoalescingAllocators.CoalescingAllocator.AllocateRange | common/utils/CoalescingAllocator.cpp:205-261 | for every 32-bit size: succeeds exactly when some free range is large enough; then it is the front of the smallest such range, lowest start first, and points are conserved; otherwise nothing changes; stops at its assertion exactly when the size is beyond 2^31 and the root of the tree more than 2^31 smaller |
| CoalescingAllocators.CoalescingAllocator.FindFit | common/utils/CoalescingAllocator.cpp:205-222 | the search by size finds the best fit or that there is none, except for a misread size, where it finds a range that is too small |
| CoalescingAllocators.CoalescingAllocator.LookupValue | common/utils/CoalescingAllocator.cpp:263-283 | for every 32-bit value: finds the fragment that holds a point, and the user it is held for, exactly when it is held |
| CoalescingAllocators.CoalescingAllocator.AddRef | common/utils/CoalescingAllocator.cpp:64-67 | one more reference to that object alone |
| CoalescingAllocators.CoalescingAllocator.DropRef | common/utils/CoalescingAllocator.cpp:69-76 | one fewer; the object is destroyed exactly when that was the last |
| CoalescingAllocators.CoalescingAllocator.FreeSubrange | common/utils/CoalescingAllocator.cpp:285-312 | the overlap turns from its owner's into free, the owner is destroyed at most once, after the pieces are accounted for, and the users behind the objects left are the same |
| CoalescingAllocators.CoalescingAllocator.FreeRange | common/utils/CoalescingAllocator.cpp:314-352 | terminates on every 32-bit range; what leaves its owners becomes free, owner by owner, every point left is held for the user it was held for, and points are conserved; exactly the range asked for is freed if and only if it is empty or its start is not beyond 2^31 with a root more than 2^31 below it |
| CoalescingAllocators.FreesOutside | common/utils/CoalescingAllocator.cpp:314-352 | with one fragment at 0x1000, freeing 0xF0000000 to 0xF0001000 frees the fragment |
| HashTables.HashTable.constructor | common/utils/hash_table.c:86-99 | a new table is valid, empty and within its potential |
| HashTables.HashTable.ShiftOne | common/utils/hash_table.c:140-175 | one datum, if there is one, moves from the old subtable to its place in the new one; the contents stay |
| HashTables.HashTable.LinkFound | common/utils/hash_table.c:127-138 | searching both subtables finds a match exactly when the contents have one |
| HashTables.HashTable.Lookup | common/utils/hash_table.c:221-235 | returns a stored match exactly when there is one; the contents stay, and on a hit one datum migrates if any is left to |
| HashTables.HashTable.Grow | common/utils/hash_table.c:119-125 | with the old subtable empty, growing keeps the contents and doubles the buckets |
| HashTables.HashTable.InsertInner | common/utils/hash_table.c:177-209 | adds the datum exactly when no match is present; the buckets double exactly when this makes the load four a bucket, and then the old subtable is empty already |
| HashTables.HashTable.Remove | common/utils/hash_table.c:237-251 | the match of a present key leaves and nothing else; the count follows |
| HashTables.HashTable.VisitEvery | common/utils/hash_table.c:253-273 | visits each datum exactly once |
| HashTables.HashTable.RemoveEvery | common/utils/hash_table.c:275-302 | hands every datum over exactly once and leaves an empty table; the count, taken down link by link, ends at 0, so the closing assertion cannot fire |
| HashTables.HashTable.EmptySubtable | common/utils/hash_table.c:275-294 | one subtable is handed over link by link, and both counts go down by as many |
| HashTables.HashTable.Subtract | common/utils/hash_table.c:304-319 | what is left is exactly what matches nothing in the other table, which stays as it was |
| HashTables.LoadLimit | common/utils/hash_table.c:177-209 | the division in the load test is the bound the potential argument needs |
| HashTables.MoveVictim | common/utils/hash_table.c:140-175 | moving a datum keeps unique keys, placement by hash and both counts |
| LiteLog2.Log2 | common/utils/lite_log2.c:7-23 | the number of binary digits of every positive word; 1 for 0 |
| LiteLog2.BitLengthBounds | common/utils/lite_log2.c:7-23 | the digit count is the least power of two above the number |
| CheesySpec.BlockLengthOk | common/utils/cheesymalloc.c:122-144 | a block holds its request and its own length leads back to the bin it came from |
| CheesySpec.RoundUpPagesBounds | common/utils/cheesymalloc.c:22-23 | a mapping is whole pages and holds the length |
| CheesySpec.RoundUpPagesLeast | common/utils/cheesymalloc.c:22-23 | no smaller number of whole pages would hold it |
| CheesySpec.FitsUnlessWrapped | common/utils/cheesymalloc.c:250-251 | adding the overhead in 32 bits gives a block that fits exactly when the sum does not wrap around, with the bin the code computes for a sum of 0 |
| CheesySpec.BigMappingHoldsOne | common/utils/cheesymalloc.c:165-207 | a mapping for a big block has no room for a second one, so the assertion against it cannot fire |
| CheesySpec.LiveApart | common/utils/cheesymalloc.c:232-344 | any two allocations are apart by at least a tail and a header |
| CheesySpec.LiveMapped | common/utils/cheesymalloc.c:289-300 | every allocation lies strictly between its header and its tail inside one mapping |
| CheesySpec.TotalSplits | common/utils/cheesymalloc.c:219-230 | every byte of a block is counted once as free, overhead, unused or its owner's |
| CheesySpec.Balanced | common/utils/cheesymalloc.c:219-230 | the five usage counters sum to the mapped bytes |
| CheesySpec.CountersFit | common/utils/cheesymalloc.c:219-230 | no counter is negative or exceeds what is mapped, which fits 32 bits, so none wraps around |
| CheesyMalloc.Arena.constructor | common/utils/cheesymalloc.c:42-59 | an empty arena satisfies the invariant |
| CheesyMalloc.Arena.InsertFreeList | common/utils/cheesymalloc.c:110-120 | the block heads the list of its bin and its bytes are counted as free |
| CheesyMalloc.Arena.CarveAll | common/utils/cheesymalloc.c:159-216 | cutting a mapping up keeps layout, lists and counters; as many blocks as fit are cut, one after the other with a byte between, all but the first are listed, and what is in no block is the fragmentation |
| CheesyMalloc.Arena.CreateSpace | common/utils/cheesymalloc.c:122-217 | one mapping of the fewest whole pages is added; the block at its start is the caller's, as many more as fit are listed, and nothing else changes |
| CheesyMalloc.Arena.CheckAccounting | common/utils/cheesymalloc.c:219-230 | the allocator's own check passes in every valid state: the five counters add up to the mapped bytes |
| CheesyMalloc.Arena.Malloc | common/utils/cheesymalloc.c:232-344 | a block not in use becomes the caller's with the length asked for and no other allocation changes; a listed block is reused first in; otherwise the fewest whole pages are mapped and cut up, and the rest is listed; every counter keeps its meaning over the blocks |
| CheesyMalloc.Arena.Free | common/utils/cheesymalloc.c:346-455 | the allocation and no other ends; its block heads the bin it came from, or its mapping, of whole pages, is given back with the very length it was mapped with |
| MerkleTrees.Family | common/zftp_module/tree_math.c:26-51 | parent, child and sibling indices fit together |
| MerkleTrees.LevelInTree | common/zftp_module/tree_math.c:17-24 | the level computed for a node never lies below the leaves, so the assertion on it cannot fire |
| MerkleTrees.CeilLg2 | common/zftp_module/zftp_protocol.h:209-215 | the loop counts binary digits |
| MerkleTrees.DepthFits | common/zftp_module/zftp_protocol.h:217-223 | the tree has a leaf for every block and is as shallow as that allows |
| MerkleTrees.BlocksCover | common/zftp_module/zftp_protocol.h:203-206 | the blocks cover the file exactly when rounding its length up stays inside 32 bits |
| MerkleTrees.MarkStep | common/zftp_module/ZCachedFile.cpp:134-160 | marking a node keeps the invariant but for a parent that can now be hashed |
| MerkleTrees.CheckStep | common/zftp_module/ZCachedFile.cpp:730-768 | validating a waiting pair keeps the invariant |
| MerkleTrees.PathAuthentic | common/zftp_module/ZCachedFile.cpp:730-768 | a node validated all the way up is tied to the root by hashes, in the middle of an installation too |
| MerkleTrees.PathIff | common/zftp_module/ZCachedFile.cpp:882-939 | between replies a node is validated all the way up exactly when every step from it to the root hashes right |
| MerkleTrees.AuthenticRecomputes | common/zftp_module/ZCachedFile.cpp:89-109 | such a node, hashed upwards with its siblings, gives the root's hash |
| MerkleTrees.AuthenticUnique | common/zftp_module/ZCachedFile.cpp:89-109 | two trees with one root hash agree on every such node, or two different pairs with the same hash are returned |
| MerkleTrees.LeafInTree | common/zftp_module/tree_math.c:10-15 | every block of the file has its leaf inside the tree |
| MerkleTrees.LeavesAreBottom | common/zftp_module/zftp_protocol.h:241-251 | the leaves are exactly the nodes of the tree without children in it, column by column |
| MerkleTrees.LeafParent | common/zftp_module/zftp_protocol.h:241-251 | two neighbouring leaves share the parent at half their column, left and right |
| BlockCaches.PutAsTold | common/zftp_module/ZCachedFile.cpp:823-827 | a piece puts the bytes of the payload at their own places: a byte that is new, and told for the first time, is as told |
| BlockCaches.PutElse | common/zftp_module/ZCachedFile.cpp:823-838 | nothing but the bytes told becomes new, and the zeros that complete the last block |
| BlockCaches.ToldIff | common/zftp_module/ZCachedFile.cpp:804-842 | after the data is installed every new byte is as told if and only if no two bytes told for one place, in blocks named alike, are told differently |
| BlockCaches.DeliveredSame | common/zftp_module/ZCachedFile.cpp:918-927 | validating hashes does not touch what was delivered |
| BlockCaches.TakingExact | common/zftp_module/ZBlockCacheRecord.cpp:71-100 | a piece is taken exactly when it is there already or comes next and a block it makes whole has the right hash; what is there stays, what is new is appended |
| BlockCaches.GrowTrans | common/zftp_module/ZBlockCacheRecord.cpp:102-117 | blocks only grow, so a cache that ends as it began never changed |
| CachedFiles.CachedFile.constructor | common/zftp_module/ZCachedFile.cpp:31-42 | a file known by its hash alone satisfies the invariant |
| CachedFiles.CachedFile.MarkNodeTentative | common/zftp_module/ZCachedFile.cpp:134-160 | the node and every ancestor that can now be hashed become known, nothing known changes, and what can be validated is tracked |
| CachedFiles.CachedFile.InstallMerkleRecords | common/zftp_module/ZCachedFile.cpp:844-881 | known hashes never change, every new hash was sent or follows from its children, and it stops exactly at a record that contradicts a validated hash |
| CachedFiles.CachedFile.ValidateChildren | common/zftp_module/ZCachedFile.cpp:730-768 | two children are validated together exactly when they hash to their parent |
| CachedFiles.CachedFile.ValidateTentativeHashes | common/zftp_module/ZCachedFile.cpp:770-802 | whatever the order, exactly the waiting pairs that match are validated and nothing is left waiting |
| CachedFiles.CachedFile.FindRootRecord | common/zftp_module/ZCachedFile.cpp:631-642 | the first record for the root, or nothing exactly when there is none |
| CachedFiles.CachedFile.InstallMetadata | common/zftp_module/ZCachedFile.cpp:644-712 | metadata and root are fixed once, exactly by a reply whose metadata and first root hash give the file's hash |
| CachedFiles.CachedFile.TreeSizeIs | common/zftp_module/ZCachedFile.cpp:692-700 | the tree is a full one over the fewest leaves that are a power of two and enough for the blocks |
| CachedFiles.CachedFile.InstallHashes | common/zftp_module/ZCachedFile.cpp:882-915 | metadata and records: nothing known changes, every new hash is accounted for, it stops exactly at a contradiction, and reports a change exactly when there is one |
| CachedFiles.CachedFile.InstallPiece | common/zftp_module/ZCachedFile.cpp:806-839 | a piece is installed exactly when it lies in the file and the payload, its leaf is known, it is there already or comes next, and a block it makes whole has the right hash; then the block at its leaf, and no other, has the bytes of the payload at their places, and a change is reported exactly when they are new |
| CachedFiles.CachedFile.InstallData | common/zftp_module/ZCachedFile.cpp:804-842 | block by block; unless it stops every byte of the range has arrived, each that is new and told for the first time is the payload's, or 0 past its end, nothing else is new, and a change is reported exactly when some byte had not arrived |
| CachedFiles.CachedFile.InstallReply | common/zftp_module/ZCachedFile.cpp:882-939 | keeps the invariant on every reply, takes nothing back, accounts for every new hash, delivers every byte sent as above unless it stops, reports a change exactly when a node changed or a byte had not arrived, counts progress by that, and never fires its assertion on new data |
| CachedFiles.CachedFile.LeadsToFileHash | common/zftp_module/ZCachedFile.cpp:675-688 | a node validated all the way up leads, with the metadata, to the hash the file is named by |
| CachedFiles.CachedFile.BlockLeadsToFileHash | common/zftp_module/ZBlockCacheRecord.cpp:126-144 | a whole block under a leaf validated all the way up leads, hashed, with the metadata to the hash the file is named by |
| CachedFiles.CachesAgree | common/zftp_module/ZCachedFile.cpp:644-688 | two caches of one file agree on metadata and on every node validated all the way up, or two different inputs with the same hash are returned |
| CachedFiles.ValidatedYetUnchecked | common/zftp_module/ZCachedFile.cpp:753-761 | a reachable state with a validated leaf that is not tied to the root, because its parent is only tentative |
| CachedFiles.SecondCopyUnread | common/zftp_module/ZCachedFile.cpp:818-827 | with two blocks named alike, what is sent for the second is not looked at: its first byte can differ from the payload's |
| Sha1.PadFills | common/crypto/sha-openssl.cpp:243-262 | padding fills whole blocks |
| Sha1.PadZerosFewest | common/crypto/sha-openssl.cpp:251-258 | no fewer zeros would |
| Sha1.FoldAppend | common/crypto/sha-openssl.cpp:97-99 | folding two runs of whole blocks one after the other is folding them together |
| Sha1.FoldOne | common/crypto/sha-openssl.cpp:97-99 | folding one block is the block function; folding none changes nothing |
| Sha1.ReadBigEndian | common/crypto/sha-openssl.cpp:239-241 | the four bytes written for a word spell it, the most significant first |
| Sha1.PadSpells | common/crypto/sha-openssl.cpp:250-260 | padding is the message, 0x80, zeros, and the bit length modulo 2^64 as 8 bytes, the most significant first |
| Sha1.DigestSpells | common/crypto/sha-openssl.cpp:264-265 | the 20 bytes of the digest spell the five chaining words in order |
| Sha1.CountsMore | common/crypto/sha-openssl.cpp:122-128 | adding a length word by word keeps the 64-bit bit count across every carry |
| Sha1.CarryTests | common/crypto/sha-openssl.cpp:125-127 | both tests for a carry, against either part of the sum, are right |
| Sha1.Context.constructor | common/crypto/sha-openssl.cpp:101-110 | a new context stands for the empty message |
| Sha1.Context.Absorb | common/crypto/sha-openssl.cpp:113-169 | the context stands for the message so far with the chunk after it |
| Sha1.Context.Update | common/crypto/sha-openssl.cpp:172-201 | the same, for the path that folds whole blocks without copying them |
| Sha1.Context.CountDirect | common/crypto/sha-openssl.cpp:189-193 | the second way of counting keeps the same count |
| Sha1.Context.Final | common/crypto/sha-openssl.cpp:243-268 | the digest is that of FIPS 180-4: it spells, the most significant byte first, the words of the fold over the whole padded message |
| Sha1.HashChunks | common/crypto/sha-openssl.cpp:101-268 | however a message is cut into updates the digest is that of the whole message, spelled out as above |
| DomainSpec.SplitJoin | common/crypto/DomainName.cpp:306-330 | splitting dotted text gives the labels that were joined |
| DomainSpec.JoinSplit | common/crypto/DomainName.cpp:306-330 | joining the labels of a text gives the text |
| DomainSpec.EndsWithIffUnder | common/crypto/DomainName.cpp:361-392 | comparing text from the end up to a dot is comparing lists of labels |
| DomainSpec.UnderTransitive | common/crypto/DomainName.cpp:361-392 | lying under a name is transitive |
| DomainSpec.DecodeWire | common/crypto/DomainName.cpp:76-123 | the wire form of any labels is decoded back exactly when it fits the limit |
| DomainSpec.DecodeSound | common/crypto/DomainName.cpp:76-123 | whatever decodes is the wire form at the front of the buffer |
| DomainSpec.Characters | common/crypto/DomainName.cpp:135-151 | the byte classes of the grammar are those of the ASCII characters the source names |
| DomainSpec.LowerIs | common/crypto/DomainName.cpp:251-257 | the lower-case form has no upper-case letter, and every other byte is the text's own |
| DomainSpec.LowerSame | common/crypto/DomainName.cpp:251-257 | two texts have one lower-case form if and only if they differ in the case of letters only |
| DomainNames.CheckLabel | common/crypto/DomainName.cpp:159-181 | the longest run of label characters, when that is a label; otherwise no label stops where such a run does |
| DomainNames.CheckSubdomain | common/crypto/DomainName.cpp:187-221 | up to 254 characters: exactly the grammar is accepted, and the code reads past the text exactly when its last character is no letter and stands alone or after a dot that the grammar precedes |
| DomainNames.CheckDomainName | common/crypto/DomainName.cpp:239-249 | the same, with the root |
| DomainNames.Parse | common/crypto/DomainName.cpp:260-297 | accepts exactly the terminated names of the grammar and makes a name with the right size and label count, each byte the text's own or 32 above an upper-case letter; undefined exactly where the check reads past the text |
| DomainNames.ParseBoth | common/crypto/DomainName.cpp:251-297 | two texts that are accepted make names that compare equal if and only if the texts differ in the case of letters only |
| DomainNames.ReadsPastOnce | common/crypto/DomainName.cpp:187-221 | a.1 is a text that the check reads past |
| DomainNames.Serialize | common/crypto/DomainName.cpp:306-330 | writes exactly the wire form of the labels, in as many bytes as the size says, and touches nothing beyond |
| DomainNames.FromWire | common/crypto/DomainName.cpp:76-123 | accepts exactly the buffers that decode within 255 bytes and makes the name of the labels decoded |
| DomainNames.RoundTrip | common/crypto/DomainName.cpp:76-330 | writing a name and reading it back gives an equal name exactly when its text has at most 253 characters |
| DomainNames.Suffix | common/crypto/DomainName.cpp:361-392 | for names with any bytes: holds exactly when the parent is no longer and its labels, up to a null, are a tail of the child's; reads before the child exactly when its text is shorter than the parent's and ends it |
| DomainNames.SuffixNullFree | common/crypto/DomainName.cpp:361-392 | with no null in the child nothing is read before it; with none in either name the labels alone decide |
| DomainNames.Equal | common/crypto/DomainName.cpp:399-411 | for names with any bytes: holds exactly when sizes and counts agree and the left text, up to a null, begins the right name; for a left name without a null exactly for equal names |
| DomainNames.SameIffNullFree | common/crypto/DomainName.cpp:399-411 | the comparison is equality, whatever the right side, if and only if the left name has no null |
| DomainNames.EmbeddedNull | common/crypto/DomainName.cpp:76-123 | two wire names, returned, that differ in bytes and labels and yet compare equal |
| PubKeys.RecordsEqual | common/crypto/ZPubKeyRecord.cpp:140-156 | holds exactly when the fields agree and the owners compare equal; for a left owner without a null exactly for equal records |
| PubKeys.Verify | common/crypto/ZCert.cpp:153-190 | holds exactly when type and time are right, the signer's name compares equal to the key's, and the signature checks, each spelled out; a signer without a null is then the key's owner |
| PubKeys.VerifyLabel | common/crypto/ZPubKey.cpp:156-182 | holds exactly when some beginning of the chain is verified link by link from the anchor and ends in this key; every certificate of it is in time and has a signature that the key before it accepts; the name of a key without a null then lies under the anchor's |
| PubKeys.UnderIffNullFree | common/crypto/ZPubKey.cpp:156-182 | every key that some chain reaches lies under its anchor if and only if its name has no null |
| PubKeys.CheckLink | common/crypto/ZPubKey.cpp:160-178 | one turn of the loop: holds exactly when the certificate verifies and endorses a key under the current one |
| PubKeys.ChainUnder | common/crypto/ZPubKey.cpp:150-182 | along verified links the names stay under the anchor's name |
| RecursiveMutex.StepInv | common/utils/SyncFactory_Zutex.cpp:43-72 | every step of every thread keeps the invariant |
| RecursiveMutex.RunInv | common/utils/SyncFactory_Zutex.cpp:43-72 | every state of every run of any number of threads satisfies it |
| RecursiveMutex.MutualExclusion | common/utils/SyncFactory_Zutex.cpp:43-72 | in every run at most one thread is inside; outside the inner section the main mutex is held exactly by the thread named as owner, nested as deep as the depth says |
| RecursiveMutex.BlockedIff | common/utils/SyncFactory_Zutex.cpp:43-72 | the thread in the inner section is blocked exactly when it waits for the main mutex while another thread is inside |
| RecursiveMutex.UnlockReturns | common/utils/SyncFactory_Zutex.cpp:59-72 | with the owner mutex free the thread inside has a run of its own through unlock: its nesting is one less, and at the last the main mutex is free |
| RecursiveMutex.LockReturns | common/utils/SyncFactory_Zutex.cpp:43-57 | with the owner mutex free a thread has a run of its own through lock if no other is inside: it holds the main mutex, one deeper |
| RecursiveMutex.StuckForever | common/utils/SyncFactory_Zutex.cpp:55-64 | from then on no call of either operation ever returns, in any continuation |
| RecursiveMutex.ContentionSticks | common/utils/SyncFactory_Zutex.cpp:46-55 | three steps of a thread that calls `lock` while another is inside lead there |

## Left out

- Locks around the trees, the allocators and the hash table: each operation is atomic. Only the recursive mutex is
  interleaved.
- Node addresses and object identities are unbounded integers, and the memory factories never fail.
- RangeUnions.RangeUnion.Accumulate: ranges that end at 2^31 or beyond are not modelled, so all ranges kept are below.
- CoalescingAllocators.CoalescingAllocator.CreateEmptyRange: that the new range overlaps nothing allocated is asked of
  the caller, since the code does not check it; the range ends below 2^31.
- Avl.AVLTree.Size: asks that the 32-bit counters are ordered, as the code's own assertion does.
- HashTables.HashTable.VisitEvery: the callback leaves the table alone; counts do not wrap around at 2^32.
- CheesyMalloc.Arena.Malloc: requests that the code stops at (2^29 bytes with the overhead, or more) and those whose
  sum with the overhead wraps around in 32 bits are excluded; CheesySpec.FitsUnlessWrapped says what goes wrong there.
- CheesyMalloc.Arena.Free: the guard words are not modelled; what is freed is allocated.
- The memory-mapping interface of the allocator is a parameter: it returns a region that is free, and never fails.
- CachedFiles.CachedFile.InstallReply: status, waiters and statistics are not modelled, and records name places inside
  the tree.
- CachedFiles.CachedFile.InstallData: where a piece begins past the end of the payload the code reads there; the model
  stops. Blocks are kept for one file, and are not written to disk.
- Images and the origin-file path of the file cache, `_compute_missing_set` and the request builder.
- The SHA-1 block function and `SHA1_Final`, a second way of finishing that nothing uses.
- DomainNames.Parse: text of more than 254 characters is not modelled; 8-bit counters run over there.
- DomainNames.CheckSubdomain: nothing is said of text longer than 254 characters; where the code reads past the text
  the verdict says so.
- The `ByteStream` variants of the domain-name constructor and of `serialize`, which repeat the array ones.
- RSA, and the construction of keys and records: the signature check is a parameter, and the time is one value.
- RecursiveMutex.MutualExclusion: the nesting depth does not wrap around at 2^32.
- Sockets, threads, logging and Berkeley DB, which are calls into the host, and text formatting.
- The quicksort, the linked list and the ordered collection: nothing modelled here calls them. The linked list holds
  the waiters of the file cache, which are left out above.
