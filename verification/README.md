# Proofs about a collection of in-memory and persistent index structures

The repository holds C and C++ implementations of index structures for main memory and for byte-addressable
persistent memory. This project models eight of them and proves what they are for: whatever is inserted, deleted,
updated, split, merged or crashed, a lookup answers as a finite map (or a sorted sequence with duplicates) would.

| Modules | Structure | Main results |
|---|---|---|
| CssTree | CSS-tree: a 17-way implicit directory over a sorted array (`csb+/csb.c`) | the search, which only computes indices, returns the leftmost equal entry of the array |
| CsbShape, CsbGrowth, CsbCells, CsbLinks, CsbSteps, CsbNodeSteps, CsbLeaves, CsbLevels, CsbTree, CsbRuns | CSB+-tree: the children of a node lie in one group (`csb+/csb.c`) | bulk load, then any run of insertions and lazy deletions: the tree stays a tree of equal depth with contiguous groups, the leaf list stays the in-order leaf sequence, and the contents are exactly those of a sorted multi-map |
| ArtNode, ArtShape, ArtOrder, ArtTree, ArtProofs, Art, ArtRuns | adaptive radix tree (`libart/src/art.c`) | over any run the tree is a finite map; its shape depends on the stored keys only; nodes are resized at most once in two changes; exactly when `art_minimum` gives the least key |
| OrdNode, OrdTree, OrdLookup, OrdRuns | ordered adaptive radix tree over tuple identifiers (`ART/ART_cpp/ART.cpp`) | children stay in unsigned byte order through all layouts, so that the first and the last leaf hold the least and the greatest key; when exactly the optimistic lookup agrees with the pessimistic one |
| KeyRanges, NodeWeb, LeafStarts | B+-trees with parent pointers, however their nodes store entries | ranges, separators, parent pointers and pending splits stated node by node; what one split, one entry into a parent and one new root do to them; which keys share a leaf, told by the operations alone |
| WbNode, WbPlaces, WbCrash, WbShape, WbTree, WbLeaves, WbStale, WbRuns, WbAtomic | wB+-tree in persistent memory (`wb+tree/slot_only/wbtree.c`) | the map property over runs, and the exact answer of a lookup of any key after any run, leaves that have been emptied included; whatever words a crash at any point of a change without a split leaves, they are the old tree or the new one; after a crash at any point of a split, undoing the log gives the old tree; when the change is over, a crash leaves the new one |
| FpBits, FpNode, FpShape, FpTree, FpRuns | FPTree (`FPTree/Integer/FPTree.c`) | the map property over runs, through leaf splits that sort and inner splits of any depth; the leaf list is the sequence of all leaves; a scan from any key after any run returns the smallest keys from the start of that key's leaf on |
| RadixShape, RadixTree, RadixScan | write-atomic radix tree, two forms (`write_atomic_radix_tree`) | the sibling list is the in-order list of leaves; the scan along it and the scan by climbing parent pointers return the same values, those of the smallest keys |
| JenkinsHash | string hash (`FPTree/String/jenkins_hash.c`) | the three loops for the three alignments compute one function of the bytes; mixing, block absorption and final mixing lose no information; the values for given keys, up to three blocks |
| SortedPairs, SetFacts | shared facts about sorted sequences of entries and about finite sets | |

Pointer structures are classes whose memory is a map from addresses to cells, reassigned step by step as the code
does; ghost fields hold the abstract tree, and `Valid()` ties memory to it. Ordered contents are sequences of
`Pair(key, tid)`; `PutPair` and `DropPair` insert and remove an entry of such a sequence.

Seven findings about the code, each with a proof:

* A CSS-tree search leaves the array if and only if the key is above the last one and the last leaf number of the
  directory dangles: `CssTree.FindBlock`. It happens with as few as two blocks (`CssTree.SmallestException`).
* After CSB+ deletions, search can miss a remaining duplicate of the deleted key, because search looks at one leaf
  only: `CsbRuns.HiddenDuplicate` builds an index, deletes and searches. `CsbRuns.RemoveKeepsReach` says when, in terms
  of the tree before the deletion.
* A wB+ leaf that deletions have emptied (or that was never filled) still answers a lookup of the key in its first
  entry, and an update overwrites that entry: `WbTree.Tree.Lookup` and `WbTree.Tree.Update` say exactly with what,
  `WbRuns.LookupAfterRun` says it for every run and key in terms of the operations, and `WbRuns.StaleAnswer` is an
  example.
* In the ordered adaptive radix tree `lookup` does not compare a leaf whose key has been used up, even when it has
  skipped a path on the way. With keys of at most nine bytes this never matters; with longer ones some key that is not
  stored is found: `OrdLookup.RightForShortKeys`, `OrdLookup.LookupIsRight` for one tree, `OrdRuns.Misled` for a run.
* In the adaptive radix tree of libart, a Node16 orders key bytes as signed numbers when one is added and a Node4 as
  unsigned ones; growing and shrinking copy the list as it is. `ArtNode.AddKeepsOrder` says which additions break the
  ascending order. Bytes from 128 on leave their mark even after their keys are gone: `ArtRuns.NotLeast` is a run that
  ends with three keys of bytes below 128, of which `art_minimum` does not return the least. Without such bytes it
  always does (`ArtRuns.LeastAfterRun`); in general it does if and only if each node on the way has its least byte first
  (`Art.RadixMap.Minimum`).
* An FPTree range scan starts at the first entry of the leaf that covers the start key, so it may return smaller keys:
  `FpRuns.SmallerKeyFirst` is a run of two insertions and a scan, and `FpRuns.RangeAfterRun` says for every run, start
  key and count what is returned, and exactly when it is not what was asked for.
* A radix-tree insertion of a null value unbinds the key and reports failure; `RadixTree.Tree.Insert` states both.

## Model

| member | source | states |
|---|---|---|
| CssTree.ShapeOf | csb+/csb.c:5131-5139 | the directory dimensions: the least number of levels whose 17-fold fan-out reaches the number of blocks, the count of shallow and of dangling leaves, and the equation that ties them to the number of blocks |
| CssTree.BulkLoad | csb+/csb.c:5125-5167 | every directory slot holds the greatest key of the array blocks under its child, where leaves past the deepest level are the tail of the array and dangling leaf numbers stand for its last block |
| CssTree.NeighboursMeet | csb+/csb.c:5140-5163 | heap numbering keeps array order: the first leaf of a subtree is ranked right behind the last leaf of the subtree before it, on every level |
| CssTree.RanksOrdered | csb+/csb.c:5140-5163 | on one level, subtrees further right end at array blocks further right, across the fold between deep and shallow leaves |
| CssTree.CoversLeaf | csb+/csb.c:5169-5261 | when the descent reaches a leaf number, everything before its block is too small and the block holds the first entry that is not, so no dangling leaf is ever read |
| CssTree.Search | csb+/csb.c:5169-5261 | the tid of the leftmost entry with the key, or 0 when the array has none, for every sorted array and every key that is not above the last one (and above it too, unless the directory is the exception below) |
| CssTree.FindBlock | csb+/csb.c:5169-5200 | for every key: the descent ends at a block inside the array if and only if the key is not above the last one or the last leaf number is a block, and then everything before that block is too small and the first entry that is not is in it |
| CssTree.SmallestException | csb+/csb.c:5131-5139 | two blocks give a directory whose last leaf number dangles |
| CsbTree.FindEntry | csb+/csb.c:3183-3203 | binary search in a leaf gives the number of smaller entries |
| CsbTree.OpenSlot | csb+/csb.c:3205-3237 | shifting inside a node with room equals inserting into the used part of its array |
| CsbTree.SpillOver | csb+/csb.c:3358-3383 | both branches of the split of a full array share out the same sequence with the new element, one element more going left |
| CsbGrowth.LeafParted | csb+/csb.c:3357-3385 | a full leaf and a new entry become leaves of four and three entries, separated by the fourth key, with nothing lost, and every key that routing reached is still reached |
| CsbGrowth.KidParted | csb+/csb.c:3418-3425 | a separator and a second kid in the place of a kid that parted: the node still covers its range, has one entry more, and routes to every key it routed to and to the new one |
| CsbGrowth.NodeParted | csb+/csb.c:3513-3545 | sixteen kids cut eight and eight around the eighth of fifteen separators, which moves up: contents, separators, equal depth and routing are kept |
| CsbTree.Index.MakeRoom | csb+/csb.c:3284-3332 | a gap behind any kid of a group: the larger copy, or the split 8/8, moves every other node to its place in the new group or groups and touches nothing else |
| CsbTree.Index.SplitGroup | csb+/csb.c:3300-3331 | for each of the fifteen child indices, the in-place and out-of-place copies put all sixteen places in order without overwriting a node that is still needed |
| CsbTree.Index.LinkNewGroup | csb+/csb.c:3290-3299 | after a group of leaves has been copied, the doubly linked list runs through the new copies in order |
| CsbTree.Index.LinkSplitGroup | csb+/csb.c:3332-3347 | after a group of leaves has been split, the list runs through both groups in order, back and forth, neighbours included |
| CsbLinks.LinkedIsThreeChains | csb+/csb.c:3284-3347 | a doubly linked list is the same as three chains that agree at the seams; so rewiring a group touches its ends only |
| CsbCells.KidSplit | csb+/csb.c:3284-3331 | when a kid becomes two and its group moves, memory still holds every subtree of the group, each in its own cells |
| CsbTree.Index.InsertInto | csb+/csb.c:3176-3570 | one level of the recursive insertion, at any child index, height and outcome: memory afterwards holds the group with the kid grown or parted, cells outside are as before, and the leaf list is the leaf sequence |
| CsbTree.Index.SplitNode | csb+/csb.c:3426-3565 | splitting an inner node whose group must grow or split in turn, or which is the root and gets a new root |
| CsbTree.Index.Insert | csb+/csb.c:3176-3570 | after any insertion the index is valid (equal depth, separators, contiguous disjoint groups, exact leaf list) and holds the old entries with the new one in front of its equals; exactly one more key is reachable |
| CsbTree.Index.Search | csb+/csb.c:3574-3654 | the tid of the leftmost entry with the key if the leaf that the key is routed to holds the key, else 0 |
| CsbShape.LeafCut | csb+/csb.c:3594-3621 | everything left of the leaf that routing reaches is smaller than the key, everything right of it is not |
| CsbLeaves.ContentsAreGathered | csb+/csb.c:3660-3757 | walking the leaf list and collecting entries gives the contents of the tree in order |
| CsbTree.Index.Delete | csb+/csb.c:3660-3757 | removes the first occurrence of a (key, tid) pair if and only if one is stored anywhere along the run of equal keys, across leaves emptied before; separators, list and the reach of all other keys stay |
| CsbLevels.LevelUp | csb+/csb.c:2667-2713 | cutting a level into groups of two to fifteen gives a level above with the same contents, the same leaves, disjoint groups and separators that occur left of themselves |
| CsbLevels.NodeReachable | csb+/csb.c:2667-2713 | a node whose separators are the greatest keys of its kids routes to every key below it, duplicates included |
| CsbLevels.AboveFilled | csb+/csb.c:2667-2713 | a level over a filled level, cut into groups of iUpper + 1 and a rest that may borrow one, is filled |
| CsbLevels.FilledRow | csb+/csb.c:2667-2713 | in a filled tree every level, at any depth below the root, has the number of nodes and the fill that the level below it calls for |
| CsbTree.Index.BuildLeaves | csb+/csb.c:2633-2658 | leaves filled in order, linked both ways, that partition the input |
| CsbTree.Index.LastNode | csb+/csb.c:2687-2699 | the borrow: a remainder of one child takes the last child of the node before, so that no node has fewer than two, and the slot for the greatest key of the last node is never a separator |
| CsbTree.Index.BulkLoad | csb+/csb.c:2625-2776 | any sorted input with at least two leaves' worth of entries becomes a valid index with exactly these entries, each key reachable, and filled as asked: (n + lUpper - 1) / lUpper leaves, each but the last with lUpper entries; on every level above, one node for iUpper + 1 nodes below or a rest of them, each with at most iUpper keys and all but the last two with iUpper |
| CsbRuns.Replay | csb+/csb.c:3176-3757 | after any run the index is valid and holds what the run denotes, whatever keys repeat |
| CsbRuns.SearchAfterRun | csb+/csb.c:2625-3757 | bulk load, any run, one search: with distinct keys the answer is that of the finite map; with duplicates it is the leftmost entry's, as long as no entry is deleted while another has its key |
| CsbRuns.RunIsAMap | csb+/csb.c:3574-3757 | the sorted sequence that a run of insertions of absent keys and of deletions builds holds exactly the bindings of the map it denotes, so that the leftmost-match answer is the map's |
| CsbRuns.RemoveKeepsReach | csb+/csb.c:3660-3757 | after a deletion every stored key can still be found if and only if the routed leaf holds another entry with the deleted key, or the tree holds none |
| CsbRuns.HiddenDuplicate | csb+/csb.c:3594-3757 | a bulk load of more entries of one key than a leaf holds, the deletion of all but the last, and a search: it gives 0, although the last entry is stored |
| ArtNode.FindChild | libart/src/art.c:126-183 | in all four layouts: the slot of the child for a byte exactly when the node has one |
| ArtNode.AddChild | libart/src/art.c:346-463 | the node's map gains one binding and keeps all others and its header, whether it has room or grows to the next layout, which happens at exactly 4, 16 and 48 children; a list takes the byte in at the place the layout's comparison gives |
| ArtNode.RemoveChild | libart/src/art.c:590-697 | the node's map loses one binding and keeps all others and its header, whether it stays or shrinks, which happens at exactly 4, 13 and 38 children before the removal; a list loses the one place and keeps its order |
| ArtNode.AddChild16 | libart/src/art.c:374-416 | insertion at the place the signed byte comparison gives keeps the map, though not the unsigned order |
| ArtNode.AddKeepsOrder | libart/src/art.c:374-448 | an addition to an ascending list keeps it ascending if and only if it is not a signed one that adds a byte from 128 on next to smaller ones, or a byte below 128 next to some from 128 on with none between |
| ArtNode.DropKeepsOrder | libart/src/art.c:637-661 | a removal from an ascending list keeps it ascending |
| ArtNode.FreeSlot | libart/src/art.c:352-360 | a Node48 with fewer than 48 children has a free slot, so the scan for one stops |
| ArtNode.FirstChild | libart/src/art.c:257-280 | the scan for a first child stops in each layout and gives the first child of a list, and the child with the least byte of any node whose list ascends or that has none |
| ArtNode.FreshNodeResizes | libart/src/art.c:346-697 | m additions and removals, in any order, run on a node that starts with two children: the number of times its layout changed is at most m/2 |
| ArtShape.KeysFollowPath | libart/src/art.c:225-254 | a stored key starts with every compressed path on its way and continues below the child for its next byte |
| ArtShape.KeysDetermineShape | libart/src/art.c:497-557 | trees with the same keys, whatever their values, branch at the same places with the same compressed paths: the collapse on deletion undoes exactly what the split on insertion made |
| Art.RadixMap.CheckPrefix | libart/src/art.c:194-202 | how many bytes of the stored part of a path the key matches, within the key |
| Art.RadixMap.PrefixMismatch | libart/src/art.c:468-487 | where the key leaves the true compressed path, bytes beyond the ten stored ones being read from the minimum leaf |
| Art.RadixMap.SplitPrefix | libart/src/art.c:525-558 | the node is pushed down under a fork at the first differing byte, its shortened path recovered from a leaf when it was longer than ten bytes |
| Art.RadixMap.MergePrefix | libart/src/art.c:656-674 | the header of an only child receives the first ten bytes of path + byte + path |
| Art.RadixMap.Collapse | libart/src/art.c:653-682 | a Node4 left with one child is replaced by that child and the entries lose just the deleted key |
| Art.RadixMap.RecursiveInsert | libart/src/art.c:489-572 | the subtree afterwards holds the old entries with the key bound to the value, is well formed with exact stored paths, and cells elsewhere are untouched |
| Art.RadixMap.RecursiveDelete | libart/src/art.c:699-739 | the subtree loses exactly the key, or nothing changes and the key was absent |
| Art.RadixMap.Search | libart/src/art.c:225-254 | the optimistic descent neither loses nor invents a key, for keys of any length and any byte found past the end of the key |
| Art.RadixMap.Insert | libart/src/art.c:583-588 | the contents are the old map with the key bound, and the old value is reported if there was one |
| Art.RadixMap.Delete | libart/src/art.c:749-758 | the contents are the old map without the key, and its value is reported if there was one |
| Art.RadixMap.Minimum | libart/src/art.c:257-280 | a stored leaf below the node; its key is the least by unsigned bytes if and only if on the way to it every node has its least byte first |
| Art.RadixMap.First | libart/src/art.c:311-313 | nothing exactly for an empty tree, else the least key if and only if every node on the way has its least byte first, and so whenever all lists of the tree are in order |
| ArtRuns.Replay | libart/src/art.c:489-758 | over every run on keys that stay prefix-free, memory is a valid tree for the map the run denotes, and size its number of keys |
| ArtRuns.ContentsIsAMap | libart/src/art.c:489-588 | a valid tree stores at most one value for a key |
| ArtRuns.HistoryIndependent | libart/src/art.c:497-682 | two valid trees with the same set of keys, however they came about and whatever the values, have the same skeleton and at each node the same path length, stored bytes and child bytes |
| ArtRuns.TwoRuns | libart/src/art.c:489-758 | any two runs from empty trees that end with the same keys end with the same skeleton and headers |
| ArtRuns.LeastAfterRun | libart/src/art.c:311-313 | from an empty tree, after any run that stores keys of bytes below 128 only, the least stored key |
| ArtRuns.NotLeast | libart/src/art.c:374-448 | a run of nine changes that leaves three keys of bytes below 128, of which `art_minimum` does not give the least |
| OrdNode.FindChild | ART/ART_cpp/ART.cpp:129-159 | in all four layouts: the child for a byte exactly when the node has one, also where key bytes are stored with their sign flipped |
| OrdNode.FirstChild | ART/ART_cpp/ART.cpp:161-194 | the child that `minimum` goes on at has the least byte of all children, in each layout, and the scan for it stops |
| OrdNode.LastChild | ART/ART_cpp/ART.cpp:196-229 | the child that `maximum` goes on at has the greatest byte of all children, and the scan for it stops |
| OrdNode.PlaceFor | ART/ART_cpp/ART.cpp:438-441 | the signed comparison of flipped bytes finds the place in unsigned order |
| OrdNode.InsertNode | ART/ART_cpp/ART.cpp:401-489 | one child more, all others kept, in ascending unsigned order where the layout has an order, whether there is room or the node grows; the stored path is kept and the size fits the layout |
| OrdNode.EraseNode | ART/ART_cpp/ART.cpp:520-624 | one child less, all others kept, in ascending unsigned order, whether the node stays or shrinks; only a Node4 can be left with one child |
| OrdNode.FreePlace | ART/ART_cpp/ART.cpp:465-467 | a Node48 with fewer than 48 children has a free place, so the scan for one stops |
| OrdTree.Minimum | ART/ART_cpp/ART.cpp:161-194 | a stored leaf whose key comes before every other by unsigned bytes |
| OrdTree.Maximum | ART/ART_cpp/ART.cpp:196-229 | a stored leaf whose key comes after every other |
| OrdTree.PrefixMismatch | ART/ART_cpp/ART.cpp:243-261 | how far the key follows the true path, the bytes that are not stored being read from the least leaf |
| OrdTree.CutHeader | ART/ART_cpp/ART.cpp:375-385 | the byte at the split and the header for the rest of the path, read from the least leaf if the path is not stored in full |
| OrdTree.MergeHeader | ART/ART_cpp/ART.cpp:543-556 | the header of an only child receives the first nine bytes of path + byte + path |
| OrdTree.Insert | ART/ART_cpp/ART.cpp:339-407 | the subtree holds its entries and the new one, with exact stored paths at every node |
| OrdTree.Erase | ART/ART_cpp/ART.cpp:497-530 | the subtree loses exactly the key, or nothing changes; a Node4 left with one child is replaced by it; nothing is left only of a leaf with the key |
| OrdTree.LookupPessimistic | ART/ART_cpp/ART.cpp:301-320 | for keys of any length: the tuple stored for the key, if there is one |
| OrdLookup.FoundAnswers | ART/ART_cpp/ART.cpp:263-299 | if no leaf is reached at the end of its key after a skipped path, the optimistic lookup gives the stored tuple or none |
| OrdLookup.LookupIsRight | ART/ART_cpp/ART.cpp:263-299 | the optimistic lookup is right about every key of a tree if and only if no leaf is reached at the end of its key after a skipped path |
| OrdLookup.RightForShortKeys | ART/ART_cpp/ART.cpp:263-299 | for keys of one length, it is right in every tree if and only if they have at most nine bytes |
| OrdRuns.Replay | ART/ART_cpp/ART.cpp:339-624 | over every run of insertions of absent keys and of deletions, the tree holds exactly what the run denotes, and the root is null exactly if that is nothing |
| OrdRuns.LookupsAgree | ART/ART_cpp/ART.cpp:263-320 | after any such run with keys of at most nine bytes both lookups give the stored tuple, or none |
| OrdRuns.Extremes | ART/ART_cpp/ART.cpp:161-229 | after any such run `minimum` and `maximum` give the tuples of the least and the greatest stored key |
| OrdRuns.Misled | ART/ART_cpp/ART.cpp:263-282 | two keys that share nine or more bytes and differ in their last: the optimistic lookup finds the first of them for a key with another first byte |
| WbNode.Search | wb+tree/slot_only/wbtree.c:233-252 | binary search through the slot array gives the position of the first live entry that is not smaller |
| WbNode.FreeIndex | wb+tree/slot_only/wbtree.c:197-208 | the scan finds an entry no live slot refers to |
| WbNode.SlotInserted | wb+tree/slot_only/wbtree.c:367-377 | one slot store shows the old entries and the new one, in key order, slots distinct |
| WbNode.SlotRemoved | wb+tree/slot_only/wbtree.c:572-580 | one slot store withdraws one entry and keeps the others in order |
| NodeWeb.NewKidPosition | wb+tree/slot_only/wbtree.c:455-510 | the separator of a split node goes right behind the split node in its parent, also when that is the leftmost child |
| NodeWeb.Resolve | wb+tree/slot_only/wbtree.c:455-510 | entering the new node into the parent re-establishes exact ranges, separators and parent pointers |
| NodeWeb.SplitNode | wb+tree/slot_only/wbtree.c:480-498 | moving the upper part of the children to a new node keeps ranges and parent pointers; its uninitialised leftmost pointer is never followed, since its first key is its lower bound |
| WbTree.Tree.Lookup | wb+tree/slot_only/wbtree.c:152-165 | the bound value; for an absent key 0, except that a leaf without live entries answers from its first entry |
| WbTree.Tree.Update | wb+tree/slot_only/wbtree.c:319-334 | rebinds a present key by one persistent word; for an absent key the result is 0 and memory is unchanged, except that a leaf without live entries that shows the key in its first entry gets the value there, which is returned and binds nothing |
| WbTree.Tree.Delete | wb+tree/slot_only/wbtree.c:567-606 | unbinds a present key, and at every crash point the leaf shows the old or the new entries |
| WbTree.Tree.InsertInLeaf | wb+tree/slot_only/wbtree.c:359-381 | the entry is written and flushed before the slot store shows it, so that every crash point shows the old or the new leaf |
| WbTree.Tree.SplitParent | wb+tree/slot_only/wbtree.c:480-516 | a full parent is logged, cut four and three, takes the new child in the right half, and its new sibling is passed up |
| WbTree.Tree.InsertInParent | wb+tree/slot_only/wbtree.c:431-517 | the climb ends with a well-formed tree of any height with the same leaves, every overwritten live word having been recorded before |
| WbTree.Tree.Insert | wb+tree/slot_only/wbtree.c:273-317 | binds an absent key; a leaf of seven is parted at its fifth key; when it splits, undoing the log at any crash point restores every live word; when it does not, every crash point shows the old or the new leaf; at the end all is persistent |
| WbCrash.UndoRestores | wb+tree/slot_only/wbtree.c:76-132 | under the rule that a live word is recorded before it is first overwritten, whatever a crash at any point leaves in memory, undoing the records newest first gives back the word's old value |
| WbCrash.AppendIsAtomic | wb+tree/slot_only/wbtree.c:359-381 | at each of the crash points of an append, through whichever slot array is found, the leaf shows exactly the old or exactly the new entries |
| WbCrash.RemovalIsAtomic | wb+tree/slot_only/wbtree.c:567-586 | the same for a removal |
| WbCrash.FoundSinceFlush | wb+tree/slot_only/wbtree.c:61-73 | a word may be found after a crash as it was at some point since it was last flushed, and no other way |
| WbCrash.UndoneIsFirst | wb+tree/slot_only/wbtree.c:76-132 | undoing gives a word the value of its first record, and leaves a word without one as it was found |
| WbRuns.CrashIsUndone | wb+tree/slot_only/wbtree.c:76-132 | memory recovered after a crash at any point of a logged operation is the old tree, well formed, with the old map |
| WbAtomic.InsertOrCrash | wb+tree/slot_only/wbtree.c:273-381 | for an insertion of any absent key and a crash at any point of it: whatever mix of words is found, it is a well-formed tree with the old map or with the new one if no leaf splits; undoing the log gives the old tree if one does; a crash at the end leaves the new tree |
| WbAtomic.DeleteOrCrash | wb+tree/slot_only/wbtree.c:567-606 | whatever words a crash at any point leaves, they are the tree with the old map or the tree without the key; at the end the latter |
| WbAtomic.UpdateOrCrash | wb+tree/slot_only/wbtree.c:319-334 | the same for an update, of a bound key or of any other |
| WbAtomic.LeafCrash | wb+tree/slot_only/wbtree.c:359-381 | if a leaf shows its old or its new entries at every crash point, the words found are the old tree or the new one |
| WbLeaves.NearIsLive | wb+tree/slot_only/wbtree.c:254-270 | the live entries of the leaf that a search ends in are exactly the bound keys with no leaf start between them and the key |
| WbLeaves.RunFills | wb+tree/slot_only/wbtree.c:273-606 | if no removal of a run takes the last key of its leaf, no leaf is empty from the first insertion on |
| LeafStarts.LeafIsTogether | wb+tree/slot_only/wbtree.c:254-270 | two keys are covered by one leaf if and only if no leaf starts between them |
| WbPlaces.ZeroPlaced | wb+tree/slot_only/wbtree.c:197-213 | a new entry goes to the first place of its leaf unless a live entry is there |
| WbRuns.Replay | wb+tree/slot_only/wbtree.c:273-606 | over every run of insertions of absent keys, updates, and deletions of present keys, the tree is well formed, holds exactly the map, has exactly the leaves that the operations determine, and shows in the first place of each what they determine |
| WbRuns.LookupAfterRun | wb+tree/slot_only/wbtree.c:152-165 | from an empty tree, after any such run, the exact answer for any key as the operations determine it: the bound value; for an absent key whose leaf holds no key, the value last written to the leaf's first place if that shows the key; else 0. Memory that was never written plays a part only until the first insertion |
| WbRuns.LookupAsMap | wb+tree/slot_only/wbtree.c:152-165 | if no removal takes the last key of a leaf, a lookup of any key answers as the map |
| WbRuns.StaleAnswer | wb+tree/slot_only/wbtree.c:152-165 | a key inserted into an empty tree and deleted again is still found, with its value |
| FpBits.FindNextBit | FPTree/Integer/FPTree.c:190-227 | for any bitmap, size and offset: the first set bit from the offset on, or the size |
| FpBits.FindNextZeroBit | FPTree/Integer/FPTree.c:232-269 | the same for clear bits |
| FpNode.Hash | FPTree/Integer/FPTree.c:165-168 | the fingerprint is the remainder of the key by 256, a byte |
| FpNode.InsertionSort | FPTree/Integer/FPTree.c:170-185 | the first entries of an array are sorted in place, a permutation of what they were |
| FpNode.FindInLeaf | FPTree/Integer/FPTree.c:278-289 | testing fingerprints first finds a valid entry with the key exactly if there is one |
| FpNode.EntryPutLive | FPTree/Integer/FPTree.c:426-430 | an entry in a free place adds just itself to what the leaf shows, and fingerprints stay the hashes of their keys |
| FpNode.InsertInInner | FPTree/Integer/FPTree.c:450-465 | the key and the child right of it go to their place among the sorted ones |
| FpTree.Tree.Lookup | FPTree/Integer/FPTree.c:271-292 | the value bound to the key, else null |
| FpTree.Tree.Update | FPTree/Integer/FPTree.c:518-539 | rebinds a bound key and changes nothing for any other |
| FpTree.Tree.CutLeaf | FPTree/Integer/FPTree.c:374-397 | the 63 entries of a full leaf, sorted, go 31 and 32 to two leaves, none lost, and the new leaf takes over the link to the next |
| FpTree.Tree.SplitParent | FPTree/Integer/FPTree.c:491-513 | a full inner node is cut 127 and 127 with its children's parent pointers, takes the new child in the right half, and its new sibling is passed up |
| FpTree.Tree.InsertInParent | FPTree/Integer/FPTree.c:467-515 | the climb ends with exact ranges, separators, parent pointers and equal depth at any height, the leaves as they were |
| FpTree.Tree.Insert | FPTree/Integer/FPTree.c:367-448 | an absent key is bound; the tree stays well formed and the list still leads from each leaf to the next; a full leaf, and no other, is parted, at its 32nd key |
| FpTree.Tree.RangeLookup | FPTree/Integer/FPTree.c:294-325 | the values of the smallest keys from the start of the leaf that covers the start key, ascending, as many as asked for or as there are; they are those from the start key itself if and only if that leaf covers no smaller bound key |
| FpRuns.Replay | FPTree/Integer/FPTree.c:367-539 | over every run of insertions of absent keys and of updates, the tree is well formed, holds exactly the map, and has exactly the leaves that the operations determine |
| FpRuns.LookupAfterRun | FPTree/Integer/FPTree.c:271-292 | from an empty tree, after any such run, a lookup of any key answers as the map |
| FpRuns.RangeAfterRun | FPTree/Integer/FPTree.c:294-325 | from an empty tree, after any such run, a scan from any key: the values of the smallest keys from the start of the key's leaf on, that start being determined by the operations; they are what was asked for if and only if no smaller bound key shares the leaf, told by the bindings, and by the values if these differ |
| FpRuns.SmallerKeyFirst | FPTree/Integer/FPTree.c:294-325 | two keys inserted into an empty tree: a scan of one value from the larger key returns the value of the smaller |
| FpRuns.SmallestAfterRun | FPTree/Integer/FPTree.c:294-325 | a scan from the smallest key returns the values of the num smallest keys in order |
| FpRuns.OneRange | FPTree/Integer/FPTree.c:294-325 | only one sequence of bindings meets the description of a scan |
| FpRuns.LeafList | FPTree/Integer/FPTree.c:381-406 | in every reachable state, the list from the leaf of the smallest keys is the sequence of all leaves, each covering the keys right above those of the one before |
| FpRuns.LeavesFrom | FPTree/Integer/FPTree.c:381-406 | from any leaf the list runs through all leaves with larger keys, neighbours covering neighbouring ranges, to the end |
| RadixTree.Tree.FindPrevLeaf | write_atomic_radix_tree/pptr_sptr/w_radix_tree.c:97-150 | a predecessor is always found without climbing past the root, even through inner nodes that have no children yet, and it is the last leaf before the place |
| RadixTree.Tree.AllocLeaf | write_atomic_radix_tree/pptr_sptr/w_radix_tree.c:164-178 | a new leaf takes over the sibling of the last leaf before it |
| RadixTree.Tree.RecursiveAlloc | write_atomic_radix_tree/pptr_sptr/w_radix_tree.c:237-294 | the missing path is made, one value changes, parent pointers, indices and the leaf list stay exact |
| RadixTree.Tree.IncreaseHeight | write_atomic_radix_tree/pptr_sptr/w_radix_tree.c:199-235 | new roots change no binding and keep every leaf's place |
| RadixTree.Tree.Insert | write_atomic_radix_tree/pptr_sptr/w_radix_tree.c:296-336 | for keys below 2^63: one binding changes, the tree stays well formed, the sibling chain is the in-order list of leaves, and the tree grows to the least height that has a place for the key, if it must grow |
| RadixShape.KeysOf63Bits | write_atomic_radix_tree/pptr_sptr/w_radix_tree.c:296-316 | the keys with a place in a tree of at most 21 levels of three bits are those below 2^63 |
| RadixTree.Tree.Lookup | write_atomic_radix_tree/pptr_sptr/w_radix_tree.c:338-361 | the value bound to a key whose path exists |
| RadixTree.Tree.SearchToLeftmostLeaf | write_atomic_radix_tree/pptr_sptr/w_radix_tree.c:59-76 | the loop that counts down from 0 always stops at entry 0, at the leaf of key 0 |
| RadixTree.Tree.FindNextLeaf | write_atomic_radix_tree/original/w_radix_tree.c:259-299 | climbing gives the first leaf after a place, or null when there is none |
| RadixScan.RangeBySiblings | write_atomic_radix_tree/pptr_sptr/w_radix_tree.c:399-439 | the values of the smallest bound keys at or above the start key, in order, as many as asked for or as there are |
| RadixScan.RangeByClimbing | write_atomic_radix_tree/original/w_radix_tree.c:301-342 | the same for the scan by parent pointers |
| RadixScan.SmallestUnique | write_atomic_radix_tree/original/w_radix_tree.c:301-342 | only one sequence of keys meets that description |
| RadixScan.BothScans | write_atomic_radix_tree/pptr_sptr/w_radix_tree.c:399-439 | the same insertions into both forms of the tree, the same start key and count: both scans fill the buffer with the same values |
| JenkinsHash.MixIsBijective | FPTree/String/jenkins_hash.c:63-71 | mixing has an inverse on both sides |
| JenkinsHash.AbsorbIsBijective | FPTree/String/jenkins_hash.c:124-132 | for any fixed key the block loop permutes the states |
| JenkinsHash.FinalIsBijective | FPTree/String/jenkins_hash.c:93-102 | the final mixing, whose third word is the hash, has an inverse on both sides |
| JenkinsHash.HashOfEmpty | FPTree/String/jenkins_hash.c:117-158 | the empty key hashes to 0xdeadbeef |
| JenkinsHash.HashOfOneByte | FPTree/String/jenkins_hash.c:109-252 | the keys "a" and "b" hash to 0x58d68708 and 0x7ff5c395 |
| JenkinsHash.HashOfSentence | FPTree/String/jenkins_hash.c:109-252 | the thirty bytes of "Four score and seven years ago", three blocks, hash to 0x17770551 |
| JenkinsHash.HashWords | FPTree/String/jenkins_hash.c:120-159 | the loop with 32-bit loads and masks computes the alignment-free hash, also where it reads past the end of the key |
| JenkinsHash.HashHalves | FPTree/String/jenkins_hash.c:160-205 | the loop with 16-bit loads computes the same |
| JenkinsHash.HashBytes | FPTree/String/jenkins_hash.c:207-248 | the loop with byte loads computes the same |
| JenkinsHash.Hash | FPTree/String/jenkins_hash.c:109-252 | the hash of a key depends on its bytes only, not on the address it is stored at |

## Left out

- Whole structures: the plain B+-tree and the `gcsb` variant in `csb+/csb.c`, NV-tree, `libart/src/art_unsorted.c`, `bsnam/art.c`, `ART/ART_c`, `ARTshort.cpp`, `write_atomic_radix_tree/multi_level`, the string versions of FPTree and NV-tree, stx-btree, linux_btree.
- Build variants of `csb+/csb.c`: FULL_ALLOC, FIX_HARDCODE, computed goto and tile pages; the pool allocator and freeing (`mydelete`, `free`): memory is never reused.
- `log10` and `pow` in the CSS-tree bulk load: the exponent is the least one whose power of 17 reaches the number of blocks.
- C integer overflow of keys, counters and array sizes; keys are mathematical integers in the range of their C type.
- CsbTree.Index.Copy: a struct assignment copies the cell and both links, not a byte image.
- Art.RadixMap.KeyByte: the byte read past the end of a key is any byte.
- ArtNode.AddChild: nodes are values that replace the cell in memory, so two pointers to one node are not modelled.
- OrdTree.Insert: a node is a value, and storing through `nodeRef` is returning the new reference, so freed nodes and two pointers to one node are not modelled; a key that is already stored is not inserted, where the code would compare past the ends of the keys.
- OrdNode.PlaceFor: the SSE instructions are modelled by what they do to each byte.
- `art_iter`, `art_iter_prefix`, `art_maximum` and `art_tree_destroy` of libart.
- WbCrash.UndoRestores: records are taken as persistent when written, a flush as making its words persistent at that point of the program, and the log area as large enough never to wrap; recovery starts from the old root, which the code neither logs nor flushes.
- WbTree.Tree.FlushWords: fences and cache-line granularity.
- `Range_Lookup` of the wB+-tree; crashes of the FPTree, whose bitmap may be persistent before its entry; deletion in the FPTree, which the code has commented out.
- FpBits.FindNextBit: machine words are sequences of bits; adding a power of two to a bitmap is setting a clear bit.
- FpTree.Tree.RangeLookup: the buffer receives the stored pointers; the code copies what they point to.
- RadixScan.RangeBySiblings: likewise; tags in the low bits of pointers are a level number.
- RadixScan.RangeByClimbing: in a tree of one level the code follows the null parent of the root when there are too few keys, so enough keys are required there.
- RadixTree.Tree.Lookup: as in the code, the path to the key must exist.
- `Scan` and the bounded `Range_Lookup` of the sibling-linked radix tree.
- Drivers, timing, counters, printing and files.
