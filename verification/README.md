# CCAN: its algorithms, modelled and proved

CCAN is a collection of small C modules. This project models those of them that are classic algorithms with hard
invariants, in Dafny, each in the form of its source (functions for expressions, classes, arrays and loops for what is
updated in place), and proves what they are for.

- **bdelta** (`EditGrid`, `Triangle`, `Csi32`, `Bdelta`): Myers' difference over a triangle of furthest-reaching
  points, the climb back, the byte-coded patch and its interpreter. The row in which the search stops is the length of
  a shortest insert/delete script, although points of the triangle can lie outside the grid; the patch applies to the
  old string to give the new one, and no patch has fewer literal bytes.
- **edit_distance** (`Alignment`, `WagnerLowrance`, `EditMatrix`, `RestrictedEdits`, `EditDistance`): four measures in
  compressed storage. Each computed number is the least cost of an alignment and the least number of edits: of any
  sequence at all, or, for the restricted measure, of those that edit no substring twice. The heart of it is the trace
  theorem of Wagner and Lowrance.
- **avl** (`Orders`, `AvlTree`, `Avl`, `AvlIteration`): insertion and removal, driven by one bit that says whether a
  subtree has changed its height, refine a finite map; the iterator's stack of 100 is enough and every pair is visited
  once, in order.
- **asort** (`Asort`): quicksort with an explicit stack and scans without bounds, then insertion sort behind a
  sentinel.
- **htable** (`HtableWords`, `HtableProbe`, `Htable`, `HtableRuns`): open addressing with tombstones, doubling,
  in-place rehash, and hash bits hidden in pointer bits that all entries share.
- **btree** (`BtreeMemory`, `BtreeInsertion`, `BtreeSplitting`, `BtreeRemoval`, `BtreeRebalance`, `Btree`,
  `BtreeIteration`, `BtreeSearch`): insertion and removal at an iterator change the sequence of items by exactly one
  item, through any cascade of splits, borrowings and combinations.
- **crc32c** (`Remainders`, `Crc32cSpec`, `Crc32cPolynomial`, `Crc32cSoftware`, `Crc32cHardware`) and **crcsync**
  (`Crc64`, `Crc64Polynomial`, `CrcSync`): the CRCs are remainders modulo the polynomials named, and the fast paths,
  which are linear over two elements, equal the bit-at-a-time CRC.
- **failtest** (`LockTable`): the table of file locks as a map from bytes to kinds of lock.
- **idtree** (`IdtreeLayers`, `IdtreeSteps`, `Idtree`): a radix tree that hands out the least free id.
- **aga** (`AgaWalks`, `Aga`, `AgaBellmanFord`, `AgaMissedPath`, `AgaDijkstra`): shortest paths, with the state that
  says which run a node's fields belong to.
- **a_star** (`AStarContainers`, `AStarPaths`, `AStar`, `AStarDetour`): the search with its own sets and maps in
  arrays. It ends with a path exactly if there is one, and with a cheapest one if the estimate is consistent.
- **eratosthenes** over **bitmap** (`Bitmap`, `Primes`, `PrimeGaps`, `Eratosthenes`): an incremental sieve on
  word-packed bits, which never runs out of primes: there is one between any prime and its square.

`Basics` has what several modules need. Cited paths are relative to the root of the CCAN repository.

To verify: `dafny verify dfyconfig.toml`.

## Model

| member | source | states |
|---|---|---|
| `EditGrid.NoShorterScript` | ccan/bdelta/bdelta.c:268-316 | Every script of copies, skips and inserts that turns old into new has at least EditDistance skips and inserts |
| `EditGrid.SomeScript` | ccan/bdelta/bdelta.c:268-316 | Some script has exactly that many, so EditDistance is the length of a shortest one |
| `EditGrid.CommonSubsequenceBound` | ccan/bdelta/bdelta.c:268-316 | No common subsequence is longer than (old_size + new_size - EditDistance) / 2 |
| `EditGrid.SomeCommonSubsequence` | ccan/bdelta/bdelta.c:268-316 | Some common subsequence reaches that bound: EditDistance = old_size + new_size - 2 * LCS |
| `EditGrid.BeyondCorner` | ccan/bdelta/bdelta.c:421-431 | A point past both ends is reached no sooner than the far corner plus the overshoot, which is why the assertion at 427 holds |
| `Triangle.EntryIsFurthest` | ccan/bdelta/bdelta.c:394-419 | An entry grown from the greater neighbour in the row above and slid along its diagonal is the furthest point that d edits reach on that diagonal, of all points in the unbounded grid |
| `Triangle.StopsAtCorner` | ccan/bdelta/bdelta.c:421-431 | The first stored point past both ends is the far corner itself, in the row numbered by the length of a shortest script |
| `Triangle.BuiltFits` | ccan/bdelta/bdelta.c:333-439 | In every row built on the way, all stored points, inside the grid or not, fit 32 bits if the sizes add up to less than INT_MAX |
| `Triangle.StoredOutside` | ccan/bdelta/bdelta.c:394-419 | Between an empty string and one of two bytes row 1 ends in a point outside the grid |
| `Triangle.BuildRow` | ccan/bdelta/bdelta.c:388-434 | One row of the triangle is built right, and ends the search exactly if it holds the far corner |
| `Triangle.BuildTriangle` | ccan/bdelta/bdelta.c:333-439 | A solution is found exactly if the length of a shortest script is at most d_max (or there is no limit); it lies in the row of that number, at the far corner; every stored entry fits 32 bits |
| `Triangle.ClimbTriangle` | ccan/bdelta/bdelta.c:453-484 | The descent follows, row by row, the rule by which the rows were built, from the top entry to the solution |
| `Csi32.BigEndianInverse` | ccan/bdelta/bdelta.c:179-265 | The size bytes of an instruction, read back, give the size |
| `Csi32.ParseEncoded` | ccan/bdelta/bdelta.c:179-265 | Anywhere in a patch, an emitted instruction parses back to its operation, size and payload, and the parser stops right after it |
| `Csi32.DecodeEncoded` | ccan/bdelta/bdelta.c:179-265 | A whole sequence of emitted instructions decodes to that sequence and to the end of the bytes |
| `Csi32.FormatWritten` | ccan/bdelta/bdelta.c:136-221 | In numbers: the bytes of a copy, a skip and an insertion of every size are those of the format, the size in big endian with as few bytes as it needs and none for one |
| `Csi32.FormatRead` | ccan/bdelta/bdelta.c:114-153 | In numbers: type byte 10 means a literal patch, 11 instructions, and every other an invalid patch |
| `Csi32.ParseOp` | ccan/bdelta/bdelta.c:227-265 | The in-place parser accepts the headers the format allows, with their values, and rejects the others without moving |
| `Csi32.PatchCsi32` | ccan/bdelta/bdelta.c:715-759 | Applying a patch instruction by instruction is decoding all of it and then running it, with the same errors for an overrun and for trailing bytes that do not parse |
| `Csi32.PatchedEncoded` | ccan/bdelta/bdelta.c:715-759 | Encoding instructions and applying the patch gives what running the instructions gives |
| `Csi32.BdeltaPatch` | ccan/bdelta/bdelta.c:761-808 | The public patch function gives that outcome for every input: after type byte 10 the rest literally, after 11 what the instructions do, otherwise an error |
| `Bdelta.EmitOp` | ccan/bdelta/bdelta.c:179-221 | An instruction is appended in its encoding, and new advances by what copies and inserts produce |
| `Bdelta.DescentInGrid` | ccan/bdelta/bdelta.c:500-574 | Although stored points may lie outside the grid, those on the way to the solution do not |
| `Bdelta.DescentToPatch` | ccan/bdelta/bdelta.c:500-574 | The instructions written are a turn and copies for each row, with neighbours of a kind merged and a last skip dropped; they produce all of new from old, with as many literal bytes as there are turns to the left |
| `Bdelta.FewestLiteralBytes` | ccan/bdelta/bdelta.c:486-574 | No instructions that produce new from old have fewer literal bytes than (EditDistance - old_size + new_size) / 2, the number in the patches written |
| `Bdelta.DiffMyers` | ccan/bdelta/bdelta.c:588-624 | The patch, if there is one, is that of the descent, applies to old to give exactly new, has the fewest literal bytes and nothing to merge or drop; there is none exactly if the sizes add up to INT_MAX or more, or EditDistance exceeds 1000 |
| `Bdelta.OnePatch` | ccan/bdelta/bdelta.c:486-624 | There is only one patch that is that of the descent |
| `Bdelta.BdeltaDiff` | ccan/bdelta/bdelta.c:626-705 | For all strings the patch applies to old to give new and is at most one byte longer than new, without the run-time self-check at 655-686; it is the one of the descent, or literal if new is empty, if there is no other or if that is longer than new |
| `WagnerLowrance.RewritingAligns` | ccan/edit_distance/edit_distance_dl.c:13-183 | Every sequence of edits one after the other, which may undo and move what earlier ones did, is no cheaper than some trace: an alignment in which pairs cross only as a transposition with deletions and insertions between |
| `Alignment.AlignmentRewrites` | ccan/edit_distance/edit_distance_dl.c:13-183 | Every such trace can be carried out as a sequence of as many edits as it costs |
| `EditMatrix.AnyCrossing` | ccan/edit_distance/edit_distance_dl.c:93-164 | The one crossing considered, at the last matches of either element, is as good as any crossing pair |
| `EditMatrix.LowerBound` | ccan/edit_distance/edit_distance_dl.c:93-164 | No alignment of two prefixes costs less than their entry of the matrix, for each of the four measures |
| `EditMatrix.Realize` | ccan/edit_distance/edit_distance_dl.c:93-164 | Some alignment of the prefixes costs as much as the entry |
| `EditMatrix.DistanceIsCheapestAlignment` | ccan/edit_distance/edit_distance.h:56-118 | The distance of each measure is the least cost of an alignment (for restricted Damerau-Levenshtein, one in which nothing is edited twice) |
| `EditMatrix.DistanceIsShortestRewriting` | ccan/edit_distance/edit_distance.h:56-118 | For LCS, Levenshtein and Damerau-Levenshtein it is the least number of edits of any sequence that turns one string into the other |
| `RestrictedEdits.DistanceIsFewestEdits` | ccan/edit_distance/edit_distance.h:78-92 | For the restricted measure it is the least number of edits that do so with no substring edited more than once |
| `RestrictedEdits.EditsAlign` | ccan/edit_distance/edit_distance.h:78-92 | Any such sequence is at least as long as some alignment costs |
| `RestrictedEdits.AlignmentEdits` | ccan/edit_distance/edit_distance.h:78-92 | Every alignment is carried out by as many such edits as it costs |
| `EditMatrix.Symmetric` | ccan/edit_distance/edit_distance.c:26-34 | Swapping the two strings leaves every distance as it is |
| `EditMatrix.Backwards` | ccan/edit_distance/edit_distance.c:19-24 | So does reversing both |
| `EditMatrix.StripFirst` | ccan/edit_distance/edit_distance.c:13-17 | So does dropping an equal first element |
| `EditMatrix.StripLast` | ccan/edit_distance/edit_distance.c:19-24 | So does dropping an equal last element |
| `EditDistance.OneRow` | ccan/edit_distance/edit_distance_lev.c:13-76 | The loop that overwrites one row, with the diagonal saved, computes the distance of the full matrix, for Levenshtein and, in edit_distance_lcs.c, for LCS |
| `EditDistance.EditDistanceRdl` | ccan/edit_distance/edit_distance_rdl.c:13-100 | Two row buffers and diagonal temporaries compute the restricted Damerau-Levenshtein distance |
| `EditDistance.NextRowDl` | ccan/edit_distance/edit_distance_dl.c:93-164 | With last matches kept in lasttgt and lastsrc one more row of the Damerau-Levenshtein matrix is right, the border included |
| `EditDistance.EditDistanceDl` | ccan/edit_distance/edit_distance_dl.c:13-183 | The whole computes the Damerau-Levenshtein distance |
| `EditDistance.EditDistanceOf` | ccan/edit_distance/edit_distance.c:10-116 | Stripping, swapping and dispatching, edit_distance returns the distance of the measure asked for |
| `Orders.PutLaws` | ccan/avl/avl.c:164-186 | What the sorted list after an insertion holds for every key: the new value for keys that compare equal, and the rest as before |
| `Orders.CutLaws` | ccan/avl/avl.c:195-247 | The same for a removal |
| `Orders.PutAscending` | ccan/avl/avl.c:164-186 | An insertion keeps the list strictly ascending, for any total preorder on keys |
| `Orders.CutAscending` | ccan/avl/avl.c:195-247 | So does a removal |
| `AvlTree.ManyNodes` | ccan/avl/avl.h:87-96 | A balanced tree of height h has at least Fib(h + 2) - 1 nodes |
| `AvlTree.HeightBound` | ccan/avl/avl.h:87-96 | With fewer than 2^64 nodes a balanced tree is at most 100 high, the size of the iterator's stack |
| `Avl.Balance` | ccan/avl/avl.c:300-336 | A node that leans too far, by two, is rotated once or twice into a balanced one with the same pairs in order; its height is the one that the caller infers from the balance field |
| `Avl.Sway` | ccan/avl/avl.c:284-292 | The balance is moved by one, with a rotation if it leaves -1..1, and the new balance tells the change of height |
| `Avl.Insert` | ccan/avl/avl.c:164-186 | The subtree has the pair added, is balanced and ordered, and the result says exactly whether it grew |
| `Avl.RemoveExtremum` | ccan/avl/avl.c:258-273 | The first or last node is taken out and returned, the rest is balanced, and the result says exactly whether it shrank |
| `Avl.Remove` | ccan/avl/avl.c:195-247 | The subtree has the key cut out, is balanced, and the result says exactly whether it shrank |
| `Avl.LookupFinds` | ccan/avl/avl.c:143-157 | Search from the root finds the key's node exactly if the list of pairs has the key |
| `Avl.AVL.AvlInsert` | ccan/avl/avl.c:99-104 | The object refines a finite map: the contents are those before with the pair put in; true exactly if the key is new |
| `Avl.AVL.AvlRemove` | ccan/avl/avl.c:106-118 | The contents are those before without the key; true exactly if it was there |
| `Avl.AVL.AvlLookup` | ccan/avl/avl.c:83-87 | The value of the key in the contents |
| `AvlIteration.Push` | ccan/avl/avl.c:398-448 | A push on the way down never leaves the iterator's stack |
| `AvlIteration.AvlIter.Begin` | ccan/avl/avl.c:398-420 | The iterator is at the first pair in its direction, with all the others to come |
| `AvlIteration.AvlIter.Next` | ccan/avl/avl.c:422-448 | It goes on by exactly one pair |
| `AvlIteration.TraversalOrder` | ccan/avl/avl.c:398-448 | What is to come from the root is the list of pairs, ascending or descending |
| `AvlIteration.Traverse` | ccan/avl/avl.h:98-123 | A whole loop visits every pair once in order |
| `Asort.MedianOfThree` | ccan/asort/asort.c:128-138 | The ends and the middle are sorted among themselves |
| `Asort.ScanUp` | ccan/asort/asort.c:148-149 | The scan without a bound stops inside the part |
| `Asort.ScanDown` | ccan/asort/asort.c:151-152 | So does the one from above |
| `Asort.Partition` | ccan/asort/asort.c:128-171 | Nothing left of either cut exceeds anything right of it, the part is a permutation of what it was, and both sides are smaller |
| `Asort.StackFits` | ccan/asort/asort.c:61-202 | A part pushed while the smaller one is done first leaves the stack within STACK_SIZE, and its depth within the logarithm of the length |
| `Asort.Quicksort` | ccan/asort/asort.c:96-204 | No element exceeds one that is more than MAX_THRESH places after it, the elements are the same, and the deepest the stack gets is at most STACK_SIZE, and 2 to it at most the length |
| `Asort.LeastIsEarly` | ccan/asort/asort.c:219-228 | The least element is among the first MAX_THRESH + 1 |
| `Asort.LeastToFront` | ccan/asort/asort.c:219-228 | It is brought to the front, as the sentinel of the scan at 236 |
| `Asort.InsertionSort` | ccan/asort/asort.c:230-257 | With the least element in front, insertion without a bounds check sorts |
| `Asort.Asort` | ccan/asort/asort.c:96-257 | For any total preorder the array ends up sorted and a permutation of what it was |
| `HtableWords.EncodeDecode` | ccan/htable/htable.c:41-77 | A pointer that fits the common bits comes back from its word, and so do the spare hash bits and the perfect bit |
| `HtableWords.WordBits` | ccan/htable/htable.c:41-77 | Bit by bit: outside the mask a word has the pointer, in the perfect bit whether it is at home, and elsewhere the hash folded over itself |
| `HtableWords.PutBackEncoded` | ccan/htable/htable.c:238-268 | When bits leave the mask, putting the common bits back in a word gives the word of the same pointer under the smaller mask |
| `HtableWords.HiddenBit` | ccan/htable/htable.c:219-235 | A word that looks empty or deleted hides a bit of its pointer above the lowest in the mask, so that the assertion at 232 cannot fail |
| `HtableWords.PerfectIsLive` | ccan/htable/htable.c:290-304 | With a perfect bit the word of an entry at home never looks invalid |
| `HtableProbe.Placed` | ccan/htable/htable.c:290-304 | Filling the first free bucket from an entry's home leaves every entry found from its home |
| `HtableProbe.Deleted` | ccan/htable/htable.c:428-440 | So does deleting, whether with a tombstone or, before an empty bucket, without |
| `HtableProbe.FoundBefore` | ccan/htable/htable.c:159-173 | Every entry sits before the first empty bucket that a probe from its home meets |
| `HtableProbe.AllPutBack` | ccan/htable/htable.c:238-268 | After the walk that changes the mask every entry decodes to the same pointer under the new coding |
| `HtableProbe.RehashMove` | ccan/htable/htable.c:345-368 | In an in-place rehash, taking an entry out and adding it again keeps what is already in order |
| `HtableProbe.NoneLiveInvalid` | ccan/htable/htable.c:275-304 | In an empty table the word of a pointer looks invalid only if there is no perfect bit |
| `Htable.HTable.HtAdd` | ccan/htable/htable.c:290-301 | The first bucket from the hash's home without a live word gets the pointer's word, with the perfect bit only at home |
| `Htable.HTable.FixupTableCommon` | ccan/htable/htable.c:238-268 | The bits asked for, and others until no entry looks invalid, leave the mask; every entry stands for the same pointer; exactly the bits asked for if no word needs another |
| `Htable.HTable.UpdateCommon` | ccan/htable/htable.c:371-388 | The coding fits the new pointer, and the contents are the same |
| `Htable.HTable.DoubleTable` | ccan/htable/htable.c:306-343 | Twice the buckets with the same pointers and no tombstones, unless an old word is decoded to a pointer that nobody has added: exactly if some word looks invalid in the larger table as filled so far, and a later word lacks the highest common bit |
| `Htable.HTable.MoveEntries` | ccan/htable/htable.c:328-337 | The entries of the old table are added to the new one in their order, the mask changing on the way when one looks invalid; all are decoded rightly exactly under that condition |
| `Htable.ExposedAlwaysLive` | ccan/htable/htable.c:273-287 | Once a common bit above the lowest has left the mask no word looks invalid any more, so at most one bit leaves it in a doubling |
| `Htable.HTable.RehashTable` | ccan/htable/htable.c:345-368 | The same pointers in place with no tombstones; here no entry can look invalid, so the coding stays as it is |
| `Htable.HTable.MakeRoom` | ccan/htable/htable.c:396-404 | Before an addition elements and tombstones fit the fill limit, so that every probe ends |
| `Htable.Eighths` | ccan/htable/htable.c:86-95 | The fill limit is seven eighths of the buckets, and the limit of tombstones one eighth, rounded down |
| `Htable.HTable.HtableAdd` | ccan/htable/htable.c:390-412 | In every valid state the pointer is added to the contents and all stays valid, but for the two cases that the outcome names, each with its exact condition: the assertion at 280 fails exactly if the table is not of size one, has no entries, the pointer fits the common bits and its word looks empty or deleted; an entry is garbled exactly if the table has to double, some word looks invalid where it would go in the larger table and a later word lacks the highest common bit |
| `HtableRuns.FailingRun` | ccan/htable/htable.c:275-287 | A run from a new table that ends in the failing assertion: two pointers are added and deleted, and a third is added |
| `HtableRuns.GarblingRun` | ccan/htable/htable.c:328-337 | A run from a new table of four additions, 32, 33, 34 and 96, in the last of which an entry is garbled |
| `HtableRuns.WordOf34` | ccan/htable/htable.c:328-337 | The word of 34 lacks bit 5, and without that bit in the mask it is decoded to 2 |
| `HtableRuns.OneIsGarbled` | ccan/htable/htable.c:328-337 | In every table that the first three additions can leave one of 32 and 33 looks invalid in the larger table, and the word of 34 lacks the bit then exposed |
| `Htable.HTable.HtableVal` | ccan/htable/htable.c:159-173 | A probe returns the next entry whose spare bits are those of the hash, and passes over no such entry |
| `Htable.HTable.HtableGet` | ccan/htable/htable_type.h:116-137 | The pointer returned is the first on the way from home that the hash allows and that is wanted; if there is none, no pointer with this hash is wanted |
| `Htable.HTable.HtableDelVal` | ccan/htable/htable.c:428-440 | Exactly the pointer in the bucket leaves the contents; the bucket gets a tombstone, which is counted, unless the next is empty |
| `Htable.HTable.HtableDel` | ccan/htable/htable.c:414-426 | The first occurrence of the pointer on the way from home leaves the contents, if there is one; true exactly then |
| `BtreeMemory.Position` | ccan/btree/btree.h:155-176 | At any place of any node, the items are those before it, those in the branch there, and those after it |
| `BtreeMemory.PositionSplits` | ccan/btree/btree.h:155-176 | An iterator's place cuts the items in two |
| `BtreeInsertion.InsertedItems` | ccan/btree/btree.c:492-513 | Putting an item and a branch into a row changes the items of the whole tree by just that |
| `BtreeInsertion.SplitHere` | ccan/btree/btree.c:522-596 | A split node, the median and the new node hold in order what the full node and the item held |
| `BtreeInsertion.SplitLinked` | ccan/btree/btree.c:522-596 | After a split all nodes but the new one have a parent whose branch k is the node, and all leaves are at one depth |
| `BtreeRebalance.RedividedItems` | ccan/btree/btree.c:642-690 | Moving an item between siblings leaves the items of the tree as they are |
| `BtreeRebalance.CombinedItems` | ccan/btree/btree.c:693-725 | So does combining two siblings |
| `BtreeRebalance.CollapsedItems` | ccan/btree/btree.c:339-348 | So does dropping an empty root |
| `BtreeRemoval.LeafItemRemoved` | ccan/btree/btree.c:604-610 | Taking an item out of a leaf takes just that item out of the tree |
| `BtreeRemoval.SuccessorRemoved` | ccan/btree/btree.c:308-330 | Replacing an inner item by its successor and removing that from its leaf takes just the inner item out |
| `Btree.BTree.NodeInsert` | ccan/btree/btree.c:492-513 | The row has item and branch at position k, and the branches from there on have their back-links set |
| `Btree.BTree.NodeSplit` | ccan/btree/btree.c:522-596 | A full node is split about the median, for every position of the new item |
| `Btree.BTree.InsertUp` | ccan/btree/btree.c:246-289 | Splits up to the root, and a new root, leave linked nodes of MIN to MAX items (but for the root) and the items with the new one in its place |
| `Btree.BTree.MoveLeft` | ccan/btree/btree.c:642-666 | One item and branch go to the left sibling through the divider |
| `Btree.BTree.MoveRight` | ccan/btree/btree.c:668-690 | One item and branch go to the right sibling through the divider |
| `Btree.BTree.Combine` | ccan/btree/btree.c:693-725 | Two siblings and their divider become one node |
| `Btree.BTree.NodeRestore` | ccan/btree/btree.c:621-640 | A node one item short is made good by a sibling or combined with one; items and links stay right, and only the parent may be short then |
| `Btree.BTree.RemoveUp` | ccan/btree/btree.c:332-350 | Restoring up to the root, which may collapse, leaves linked nodes of MIN to MAX items and the same items |
| `BtreeIteration.BtreeIterator.Deref` | ccan/btree/btree.c:139-153 | The item after the iterator, without moving it in the order; false exactly at the end |
| `BtreeIteration.BtreeIterator.Next` | ccan/btree/btree.c:173-182 | The iterator moves over exactly one item |
| `BtreeIteration.BtreeIterator.Prev` | ccan/btree/btree.c:155-171 | The iterator moves back over exactly one item |
| `BtreeIteration.BtreeIterator.BeginEnd` | ccan/btree/btree.c:122-137 | The iterator is before all items or after them; false exactly if there are none |
| `BtreeIteration.BtreeIterator.InsertAt` | ccan/btree/btree.c:228-290 | The items are those before the iterator, the new one, and those after; all node invariants hold |
| `BtreeIteration.BtreeIterator.RemoveAt` | ccan/btree/btree.c:292-354 | The items are those before the iterator and those after without the first; false exactly at the end |
| `BtreeSearch.Search` | ccan/btree/btree.h:231-262 | Binary search finds where a key divides a sorted row, before or after equal items, and whether an item matches |
| `BtreeSearch.SearchStep` | ccan/btree/btree.c:184-214 | A search in one node divides the whole tree at that node |
| `BtreeSearch.FindLr` | ccan/btree/btree.c:184-214 | The iterator divides all items by the key, and the nearest match is returned exactly if there is one |
| `BtreeSearch.InsertedSorted` | ccan/btree/btree.c:85-94 | An item inserted where its key divides keeps the items sorted |
| `BtreeSearch.Insert` | ccan/btree/btree.c:85-94 | The item is inserted, keeping the order, after all items that are no greater and before all greater ones, unless multi is off and one matches |
| `BtreeSearch.Lookup` | ccan/btree/btree.c:112-120 | The first match, exactly if there is one |
| `BtreeSearch.Remove` | ccan/btree/btree.c:96-110 | With multi off the first match is removed, exactly if there is one |
| `Crc32cSpec.BitsAtOnce` | ccan/crc32c/crc32c.c:270-293 | Adding a byte at once and shifting is feeding its bits one by one, as section 12.1 of RFC 3720 defines the CRC |
| `Crc32cSpec.RegisterLinear` | ccan/crc32c/crc32c.c:136-139 | The CRC of data from a start value is the start value shifted past the data, xored with the CRC of the data from zero |
| `Crc32cSpec.ZeroBytes` | ccan/crc32c/crc32c.c:85-118 | Shifting is feeding zero bytes |
| `Crc32cSpec.ThreePieces` | ccan/crc32c/crc32c.c:176-202 | Three pieces, each from its own start, combine by shift and xor to the CRC of the whole |
| `Crc32cPolynomial.RegisterIsRemainder` | ccan/crc32c/crc32c.c:21-51 | The register is the remainder of what it held before, followed by the data, times x to the 32, modulo the polynomial with the exponents 32, 28, 27, 26, 25, 23, 22, 20, 19, 18, 14, 13, 11, 10, 9, 8, 6 and 0 |
| `Crc32cPolynomial.PolyIs` | ccan/crc32c/crc32c.c:50-51 | The constant has exactly the exponents below 32 of that polynomial |
| `Crc32cPolynomial.ZeroVector` | ccan/crc32c/test/run-crc32c.c:22-36 | The CRC-32C of 32 bytes of zeros is 0x8a9136aa |
| `Crc32cPolynomial.RisingVector` | ccan/crc32c/test/run-crc32c.c:52-66 | That of 32 bytes that count from 0 is 0x46dd794e |
| `Remainders.RemainderUnique` | ccan/crc32c/crc32c.c:21-51 | There is only one remainder |
| `Crc32cSoftware.InitSwLittle` | ccan/crc32c/crc32c.c:270-293 | Entry [k][n] of the tables is what byte n adds when k more bytes follow |
| `Crc32cSoftware.EightBytes` | ccan/crc32c/crc32c.c:305-320 | Eight bytes at once are the xor of eight lookups |
| `Crc32cSoftware.SwLittle` | ccan/crc32c/crc32c.c:297-329 | For every start value, length and alignment the software CRC is the bit-at-a-time CRC-32C |
| `Crc32cHardware.MatrixTimes` | ccan/crc32c/crc32c.c:61-70 | The product of a matrix that shifts by some bits and a vector is the vector so shifted |
| `Crc32cHardware.MatrixSquare` | ccan/crc32c/crc32c.c:74-78 | The square of a matrix shifts twice as far |
| `Crc32cHardware.ZerosOp` | ccan/crc32c/crc32c.c:85-118 | For every length the operator shifts by the bytes of the greatest power of two in it |
| `Crc32cHardware.TopOfPower` | ccan/crc32c/crc32c.c:80-118 | For a power of two that is the length itself |
| `Crc32cHardware.Shift` | ccan/crc32c/crc32c.c:136-139 | Four lookups apply the operator |
| `Crc32cHardware.ThreeLanes` | ccan/crc32c/crc32c.c:188-224 | Three lanes run independently and joined give the CRC of the block of three |
| `Crc32cHardware.Hw` | ccan/crc32c/crc32c.c:164-250 | For every start value, length and alignment the hardware path is the bit-at-a-time CRC-32C |
| `Crc64.EntryFits` | ccan/crc/crc.c:185-195 | No more than the upper 16 bits of a table entry are needed |
| `Crc64.Crc64Iso` | ccan/crc/crc.c:185-195 | The table-driven loop is the bit-by-bit CRC |
| `Crc64Polynomial.CrcIsRemainder` | ccan/crc/crc.c:185-195 | The CRC is the remainder of the earlier one, followed by the data, times x to the 64, modulo X^64 + X^4 + X^3 + X + 1 |
| `Crc64Polynomial.TableUnits` | ccan/crc/crc.c:96-183 | The entries of the table for the eight single bits, in numbers |
| `Crc64Polynomial.TableLinear` | ccan/crc/crc.c:96-183 | Every other entry is the sum of those of its bits |
| `CrcSync.InitUncrcTab` | ccan/crcsync/crcsync.c:59-73 | The table holds what each byte adds to the CRC of a window that it is the first byte of |
| `CrcSync.Rolled` | ccan/crcsync/crcsync.c:133-148 | Rolling one byte out and one in gives the CRC of the shifted window, for every window size |
| `CrcSync.EveryWindow` | ccan/crcsync/crcsync.c:133-148 | So it does however far the window has been rolled |
| `LockTable.Table.AddLock` | ccan/failtest/failtest.c:1401-1478 | No lock is empty and none of one descriptor overlap, exactly the bytes asked for get the new kind or none, all others keep theirs; where nothing is in the way the table is only appended to |
| `LockTable.CutInTwo` | ccan/failtest/failtest.c:1427-1437 | A lock cut around a request, its end appended by the recursion, loses exactly the bytes of the request |
| `LockTable.EveryRun` | ccan/failtest/failtest.c:1401-1478 | After any run of requests each byte has the kind last asked for |
| `IdtreeLayers.BitsFull` | ccan/idtree/idtree.c:170-183 | A bitmap is full exactly if all ids below its layer are in use |
| `IdtreeSteps.MarkedUp` | ccan/idtree/idtree.c:176-181 | Marking a full layer in the one above makes that bitmap right too |
| `IdtreeSteps.MarkStops` | ccan/idtree/idtree.c:176-181 | Where the marking stops all bitmaps above are right already |
| `IdtreeSteps.ClearedDown` | ccan/idtree/idtree.c:247-252 | Clearing the bits on the way down makes the bitmaps right for the tree without the id, and changes nothing if it is not there |
| `IdtreeSteps.Dropped` | ccan/idtree/idtree.c:305-313 | A top whose only entry is its first can be dropped |
| `Idtree.IdTree.FindLeaf` | ccan/idtree/idtree.c:98-166 | The walk through clear bits ends at the least id not in use, never meets a full layer below the top, and ends in -1 or -2 exactly when all ids are in use or the tree is full |
| `Idtree.IdTree.SubAlloc` | ccan/idtree/idtree.c:98-183 | The pointer is planted at the least id not in use, and every bit is set exactly if the subtree below it is full |
| `Idtree.IdTree.GetNewAboveInt` | ccan/idtree/idtree.c:185-235 | From id 0, layers are added as needed, and the call ends |
| `Idtree.IdTree.IdtreeAdd` | ccan/idtree/idtree.c:327-335 | The least id not in use, if it is within the limit; otherwise -1 and the same ids, but for a limit below -1 with all ids in use, when the last id is removed; the number of layers is given exactly |
| `Idtree.IdTree.IdtreeLookup` | ccan/idtree/idtree.c:269-292 | The answer for every int, from the digits that the tree looks at |
| `Idtree.LookupAgrees` | ccan/idtree/idtree.c:269-292 | It is the answer of a plain map exactly if the id is within the tree, or so far out that it is rejected, or does not fall on an id in use |
| `Idtree.IdTree.IdtreeRemove` | ccan/idtree/idtree.c:294-320 | Exactly the id that the digits lead to is removed, true exactly if it was in use; no layer is left if no id is, and otherwise one goes if all ids do without its digit |
| `IdtreeSteps.TopNeeded` | ccan/idtree/idtree.c:307-316 | The top has only its first entry exactly if all ids in use do without its digit |
| `Idtree.RemoveAgrees` | ccan/idtree/idtree.c:294-320 | That is removing the id asked for exactly if it is within the tree or does not fall on an id in use |
| `Idtree.BeyondTheTree` | ccan/idtree/idtree.c:269-320 | With only id 0 in use, id 32 is found and removed as id 0 |
| `Idtree.AliasingRun` | ccan/idtree/idtree.c:269-335 | The same as a run from an empty tree |
| `Idtree.FullTreeRun` | ccan/idtree/idtree.c:327-335 | A run from an empty tree: when additions have put all ids in use, one more with limit -2 returns -1 and removes the last id |
| `Aga.Graph.AgaStart` | ccan/aga/aga.c:35-43 | Refused exactly while there is a run; otherwise a new run that has found no node, and no error is pending |
| `Aga.Graph.AgaUpdateNode` | ccan/aga/aga.c:67-74 | True exactly for a node new in this run |
| `AgaWalks.WalkBound` | ccan/aga/bellman_ford.c:104-118 | Where no edge offers a shorter path, no walk is cheaper than the difference of the labels at its ends |
| `AgaWalks.ExactLabels` | ccan/aga/bellman_ford.c:91-119 | Then labels that are costs of walks are the least costs, and exactly the reachable nodes are labelled |
| `AgaWalks.NoNegativeCycle` | ccan/aga/bellman_ford.c:104-118 | Then there is no cycle of negative cost |
| `AgaBellmanFord.SettledIsExact` | ccan/aga/bellman_ford.c:91-119 | Then also prev and prevedge name the last step of a shortest path |
| `AgaBellmanFord.AgaBellmanFordStep` | ccan/aga/bellman_ford.c:63-89 | The list and the labels after a pass are those of Pass, which skips relaxations once a node is found; a failing callback stops it with its own error, at the first node of the list that has one; when no other pass is needed all edges lead to nodes found |
| `AgaBellmanFord.AgaBellmanFordComplete` | ccan/aga/bellman_ford.c:91-119 | The passes end; an end without error is exact; a reachable cycle of negative cost always leaves an error; if no callback fails at a reachable node there is an error, 1, exactly if after the last pass some edge still offers a shorter path; otherwise the error is the first that the last look comes upon |
| `AgaBellmanFord.AgaBellmanFordPath` | ccan/aga/bellman_ford.c:121-141 | The least cost and the last step of a shortest path; false without an error only if there is no path |
| `AgaMissedPath.MissedPath` | ccan/aga/bellman_ford.c:121-141 | A run on three nodes without any negative cost, in which the path to the third is not found and the error is AGA_ERR_NEGATIVE_COST |
| `AgaMissedPath.ThreePasses` | ccan/aga/bellman_ford.c:63-119 | On that graph there are exactly three passes, and the labels that they leave are not settled |
| `AgaDijkstra.FoundOrFar` | ccan/aga/dijkstra.c:64-93 | A walk without negative edges ends where its node is found and no dearer than found, or costs at least as much as the nearest node that is not done |
| `AgaDijkstra.DoneIsShortest` | ccan/aga/dijkstra.c:64-93 | A node that is done has the least cost among the walks without negative edges |
| `AgaDijkstra.EdgeRelaxed` | ccan/aga/dijkstra.c:20-41 | Going over an edge changes no label of a node that is done: the assertion at 33 cannot fail, on any graph |
| `AgaDijkstra.AllDone` | ccan/aga/dijkstra.c:117-124 | When nothing is left exactly the reachable nodes are found, at their least cost, and no reachable edge is negative |
| `AgaDijkstra.Dequeue` | ccan/lpq/lpq.c:17-31 | A node is taken out that no other in the list is nearer than, and none after it as near |
| `AgaDijkstra.AgaDijkstraStep` | ccan/aga/dijkstra.c:64-93 | The node returned is new, no nearer than those before, at its least cost; labels and queue are as its edges leave them; an error is that of the first failing or negative edge of a nearest node; null only after an error or when all that is reachable is returned |
| `AgaDijkstra.AgaDijkstraPath` | ccan/aga/dijkstra.c:95-115 | The least cost and the last step of a path of that cost; 0 and none exactly for the source; without an error false only if there is no path; an error only if an edge of a reachable node, no farther than the one asked for, fails or is negative |
| `AgaDijkstra.AgaDijkstraComplete` | ccan/aga/dijkstra.c:117-124 | There is an error exactly if an edge of a reachable node fails or is negative, and it is 1 if none fails; otherwise all reachable nodes are done at their least cost |
| `AStarContainers.NodeSet.Add` | ccan/a_star/a_star.c:39-50 | The node is a member, once; the others are as before |
| `AStarContainers.NodeSet.Remove` | ccan/a_star/a_star.c:52-69 | Exactly the node is gone, and the last member is in its place |
| `AStarContainers.NodeMap.Set` | ccan/a_star/a_star.c:147-196 | The map has the new value for the node and the old ones for the others; it is full only if there are as many nodes as places |
| `AStarPaths.KnownOrFar` | ccan/a_star/a_star.c:253-277 | A path's end is known and no dearer than the path, or the path promises at least what every open node promises |
| `AStarPaths.LowestIsCheapest` | ccan/a_star/a_star.c:253-257 | The open node that promises most already has the cost of a cheapest path, if the estimate is consistent |
| `AStarPaths.AllClosed` | ccan/a_star/a_star.c:253-277 | With nothing open every node that can be reached is closed |
| `AStarPaths.SoundLooked` | ccan/a_star/a_star.c:262-277 | A look at a neighbour keeps all that is known of the search, and the scores of closed nodes |
| `AStar.Search.LowestScore` | ccan/a_star/a_star.c:120-135 | An open node that none promises less than, and none after it in the set as little |
| `AStar.Search.Round` | ccan/a_star/a_star.c:259-277 | The state after a round is that of Rounded: the node is closed, and its neighbours are looked at in their order |
| `AStar.Search.ReconstructPath` | ccan/a_star/a_star.c:198-225 | Following the links back ends at the start, within maxnodes nodes, and gives a path of the goal's score |
| `AStar.FindPath` | ccan/a_star/a_star.c:227-294 | The search ends, no assertion of the containers fails, and it returns a path from start to goal exactly if there is one; a cheapest one if the estimate is consistent; each round takes the last of the open nodes that promise most, and the path follows the links of the last state |
| `AStarDetour.DearerPath` | ccan/a_star/a_star.c:227-294 | On a graph of four nodes, with an estimate that never exceeds the true cost, the path found is not a cheapest one |
| `AStarDetour.OnlyRun` | ccan/a_star/a_star.c:253-277 | On that graph the states between the rounds are these four and no others |
| `Bitmap.BitmapFillRange` | ccan/bitmap/bitmap.c:37-60 | Exactly the bits of the range are set, for every alignment of its ends |
| `Bitmap.BitmapZeroRange` | ccan/bitmap/bitmap.c:10-35 | Exactly the bits of the range are cleared |
| `Bitmap.BitmapClz` | ccan/bitmap/bitmap.c:62-77 | The first bit set in a word |
| `Bitmap.FirstOfWord` | ccan/bitmap/bitmap.c:79-125 | The leading zeros of a masked word tell the first bit set of a range in that word |
| `Bitmap.BitmapFfs` | ccan/bitmap/bitmap.c:79-125 | The first bit set in a range, or its end if there is none |
| `Bitmap.BitmapClearBit` | ccan/bitmap/bitmap.h:66-69 | Exactly that bit is cleared |
| `Bitmap.BitmapRealloc1` | ccan/bitmap/bitmap.h:234-243 | The old bits are kept as far as there is room, and all new ones are set |
| `Primes.LeastDivisor` | ccan/eratosthenes/eratosthenes.c:42-60 | A number that is not prime has a prime divisor no greater than its square root |
| `PrimeGaps.LeibnizDivides` | ccan/eratosthenes/eratosthenes.c:55-56 | A common multiple of 1, ..., n + 1 is a multiple of every entry of row n of the harmonic triangle |
| `PrimeGaps.MultipleBound` | ccan/eratosthenes/eratosthenes.c:55-56 | Hence it is at least 2 to the n |
| `PrimeGaps.Covers` | ccan/eratosthenes/eratosthenes.c:55-56 | A number up to m without prime divisors above j divides the product of the greatest powers up to m of the primes up to j |
| `PrimeGaps.PrimeBetween` | ccan/eratosthenes/eratosthenes.c:55-56 | Between a prime and its square there is another prime |
| `Eratosthenes.SkippedIsFirst` | ccan/eratosthenes/eratosthenes.c:26-40 | Where the sieve is continued, striking starts at the first odd multiple of p that is not done yet |
| `Eratosthenes.MultiplesAreStruck` | ccan/eratosthenes/eratosthenes.c:36-39 | Steps of p from there meet every odd multiple of p |
| `Eratosthenes.NextIsPrime` | ccan/eratosthenes/eratosthenes.c:42-60 | The next bit set stands for the next prime |
| `Eratosthenes.SiftedIsPrime` | ccan/eratosthenes/eratosthenes.c:42-60 | Below the square of p what is sifted by all up to p is prime |
| `Eratosthenes.Eratosthenes.EratosthenesOnce` | ccan/eratosthenes/eratosthenes.c:26-40 | The multiples of p are struck and no prime is; what was done before is kept |
| `Eratosthenes.Eratosthenes.EratosthenesSieve` | ccan/eratosthenes/eratosthenes.c:62-80 | After every sequence of calls the bits stand for the primes below the limit; the sieve never runs out of primes, so the assertion at 56 cannot fail |
| `Eratosthenes.Eratosthenes.EratosthenesIsPrime` | ccan/eratosthenes/eratosthenes.c:82-95 | Whether any number below the limit is prime |
| `Eratosthenes.Eratosthenes.EratosthenesNextPrime` | ccan/eratosthenes/eratosthenes.c:97-116 | The least prime above a number and below the limit, or 0 if there is none |
| `Bitmap.BitmapSetBit` | ccan/bitmap/bitmap.h:61-64 | Exactly that bit is set |
| `Aga.Graph.AgaFinish` | ccan/aga/aga.c:54-59 | The run is over and its error cleared; no node counts as found any more |
| `AgaBellmanFord.AgaBellmanFordStart` | ccan/aga/bellman_ford.c:42-61 | Refused exactly while there is a run; otherwise only the source is found, at distance 0 |
| `AgaDijkstra.AgaDijkstraStart` | ccan/aga/dijkstra.c:43-62 | Refused exactly while there is a run; otherwise only the source is found, at distance 0, and is in the queue |
| `Crc32cHardware.ShiftIsZeros` | ccan/crc32c/crc32c.c:136-139 | Shifting a register is feeding it zero bytes |
| `HtableProbe.PerfectNeverInvalid` | ccan/htable/htable.c:290-304 | With a perfect bit a pointer whose home bucket is free never looks invalid |

## Findings

Where the code does not do what its comments, its assertions, its documentation or the name of the algorithm promise,
the project keeps the code, has a run that shows it, and proves when the two agree.

- `ccan/htable/htable.c:328-337`: doubling the table can garble an entry. When a word moved to the larger table looks
  invalid, ht_add takes a bit out of the mask, and the words of the old table that are still to be moved are decoded
  with the new mask; one that lacks the bit gives a pointer that nobody has added. `HtableRuns.GarblingRun` is such a
  run: with hashes 4, 4 and 2 the pointers 32, 33 and 34 are added, then any other, and 34 comes out as 2.
  `Htable.HTable.HtableAdd` gives the exact condition, for every call.
- `ccan/htable/htable.c:280`: the assertion that the table has entries can fail. `HtableRuns.FailingRun` is such a
  run: two pointers are added, so that the mask loses the perfect bit; they are deleted again, and a third pointer,
  all of whose set bits are common, is added. `Htable.HTable.HtableAdd` gives the exact condition, for every call.
- `ccan/idtree/idtree.c:269-320`: an id beyond the tree can fall on one in use, for lookup and for removal
  (`Idtree.BeyondTheTree`, `Idtree.AliasingRun`); `Idtree.LookupAgrees` and `Idtree.RemoveAgrees` give the exact
  condition.
- `ccan/idtree/idtree.c:327-335`: with all ids in use and a limit below -1, idtree_add removes the last id.
  `Idtree.FullTreeRun` is such a run; the contract of `Idtree.IdTree.IdtreeAdd` says that this is the only such case.
- `ccan/aga/bellman_ford.c:63-141`: `ccan/aga/aga.h:465-482` promises true whenever a path exists, and an error for
  cycles of negative cost. A pass that has found a node skips all further relaxations, so that too few may happen:
  `AgaMissedPath.MissedPath` is a run on three nodes without negative costs that ends with false and
  AGA_ERR_NEGATIVE_COST. `AgaBellmanFord.AgaBellmanFordComplete` says that, unless a callback fails, there is an error
  exactly if after the last pass some edge still offers a shorter path, and that without an error all is exact.
- `ccan/a_star/a_star.c:227-294`: A* is known for finding a cheapest path with any estimate that never exceeds the
  true cost. Here a closed node is never opened again, and that is not enough: `AStarDetour.DearerPath` is a run on
  four nodes. A consistent estimate is sufficient (`AStar.FindPath`), even with negative distances; that it is
  necessary is not claimed.

## Left out

- Allocation always succeeds, so the error returns for lack of memory are not modelled; nor are integer widths, except
  where a bound is stated (32 bits for bdelta's points, 2^64 elements for asort and avl, 31-bit ids, 64-bit words).
- bdelta: the self-check at run time (655-686), whose result the theorems make known; the error strings.
- edit_distance: macros that redefine elements or costs; costs are 1 as in edit_distance-params.h:69-71. The matrix is
  a two-dimensional array, not a flat one with computed offsets.
- asort: elements are swapped whole, not byte by byte.
- htable: words are sets of bits, not machine numbers. Locks, iteration over all entries, picking and copying, and
  htable_init_sized are left out.
- HtableAdd: once an entry is garbled, that is, the rehash callback is about to be called with a pointer that nobody
  has added, the run is not followed.
- btree: nodes are records in a map from ids to records, with lists for their items and branches and with ids never
  used twice, so that freeing and use after it are not modelled. btree_walk, btree_cmp_iters and btree_delete are left
  out.
- Remove: with multi set the source's loop at btree.c:102-107 does not end, since the condition never changes; the
  model is the case with multi off.
- crc32c: the processor's instruction is eight byte steps; the choice between paths at run time, the one-time
  initialisation and the big-endian tables are left out.
- Crc64Iso: the table's 256 constants are computed from the polynomial instead of copied; `Crc64Polynomial` has the
  entries for single bits in numbers, and the others as their sums.
- crcsync: crc_read_block, which streams over buffers, and the matching of blocks are left out; the rolling CRC that
  they rest on is modelled.
- AddLock: a request must not end before it starts, as the comment at failtest.c:48-49 requires of a lock; a negative
  length, which end_of would turn into such a request, is left out.
- failtest: everything but add_lock.
- idtree: layers come from the allocator instead of the free list, which only caches them; idtree_add_above is left
  out. A layer's slots are a list of 32, its bitmap the set of the bits that are set.
- aga: the fields that the source keeps in a union are separate; the run's number does not wrap; edge callbacks give
  the same edges whenever they are called, and nodes exist before the run. Depth-first and breadth-first search are
  left out.
- Dequeue: the queue is a list searched for its least element, as in lpq; its links are not modelled.
- a_star: scores are real numbers, not floats; the arrays at the end of the source's structures are lists of fixed
  length that belong to the object; the callbacks' context is part of the callbacks.
- bitmap: the functions other than those for single bits, ranges, the first bit set and resizing with ones; bytes in a
  word are not swapped, and a word is the set of the places of its bits. Fill and zero are one method with a flag.
- The rest of CCAN: the modules for the operating system, memory, text and building, and containers that would only
  add easy members.
