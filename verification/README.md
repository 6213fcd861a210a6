# A B+ tree file, its pages and its buffer pool

This project models the storage layer of a small database system and proves it correct.
Its centre is the B+ tree file of `db/BTreeFile.cpp`: tuples in key order in numbered pages,
with parent pointers, a doubly linked chain of leaves, pages split upward on insertion and
borrowed from or merged upward on deletion, and pages allocated and freed through a chain of
header bitmaps. `dafny verify dfyconfig.toml` checks everything.

The main results, each for every input, every run and every reachable file:

* **Insertion and deletion keep a legal tree.** `BTreeFile.InsertTuple` and
  `BTreeFile.DeleteTuple` keep `Valid`, whose conditions are stated level by level in
  `Levels.Above` and `Leaves.Legal`. `LegalTrees.LegalFile` proves that these imply the
  conditions of the documentation, stated independently as a walk down from the root: every
  leaf at the same depth, separators that bound both subtrees, children that name their real
  parent, one kind of children per page, occupancy, and the chain of leaves in order with
  null ends. Strict separators above the leaves are a property of their own (below), and
  record ids that name their own page and slot are kept by the leaf page class.
* **Strict separators, exactly.** An insertion into a file with strict separators leaves
  them strict if and only if it does not cut a leaf at a key that is already a separator
  beside it (`Separators.CutsAtSeparator`); a deletion, if and only if it does not borrow
  up to such a key (`Separators.SharesAtSeparator`). Both can be computed from the pages
  before the call. Strict separators give the documented strict condition on the pages
  (`Separators.StrictFile`), and are more than it: they also differ between the leaves of
  one page, where the documentation allows equal ones, and a file with equal separators
  there is outside these two contracts. The documented condition itself holds of a legal
  file if and only if every entry above pages with internal children differs from two keys
  below it (`Separators.StrictTreeExactly`).
* **Nothing is lost.** Each operation changes the bag of stored tuples by exactly its own
  tuple and leaves it sorted; with distinct keys it is exactly the operation of a sorted
  sequence (`Runs.InsertNew`, `Runs.DeleteKey`), over whole runs (`Runs.Run`,
  `Runs.InsertAll`), and from a newly constructed file on (`Runs.RunFromEmpty`,
  `Runs.InsertAllFromEmpty`). With equal keys, an insertion into a leaf with room still
  moves no other tuple; `Limits.LastOfEqualExactly` says when it comes after all equal keys.
* **Which page changes, and how.** The contracts of splits, borrows and merges write out
  which tuples and children each page has afterwards: where a full page is cut, that half the
  surplus moves, which sibling is used and when two pages are merged.
* **When insertion fails.** The assertion of `insertEntry` fails exactly on
  `Leaves.InsertTies`, which can be computed from the pages before the call. With distinct
  keys it never does, if leaves take three tuples or more or no tuple was ever deleted
  (`DistinctKeys.InsertNeverTies`). `Limits.EqualKeysTie` is a legal file with equal keys in
  which it does, and `Limits.DistinctKeysTie` one with distinct keys and leaves of two.
* **The write set is complete.** Every page that differs after an operation is in the set of
  dirty pages it returns, across all splits, merges, parent updates and header updates.
* **Pages are never lost or handed out twice.** Free pages, pages in use and header pages
  partition the file; the bits of the header chain say which are free.

## How it is built

| file | what it holds |
|---|---|
| `Pages.dfy` | page values: the used slots of a page in order, and what page operations do to them |
| `Paging.dfy` | class `PageStore`: the write set of an operation, and the page allocator over the header chain |
| `Levels.dfy` | the shape of the tree one level at a time; a level is what the level above expands to, so splitting, borrowing and merging only move the cuts in it |
| `Trees.dfy`, `Merging.dfy`, `Borrowing.dfy` | what the steps of splits, borrows, merges and root changes do to the levels |
| `Leaves.dfy`, `LeafPairs.dfy` | the leaf level: chain, separators, contents; cutting, sharing and joining leaves |
| `BTreeFile.dfy` | class `BTreeFile`: the operations, as methods over a `PageStore` |
| `LegalTrees.dfy`, `Separators.dfy` | the conditions of a legal tree as a walk from the root; when separators are strict |
| `Scans.dfy`, `DistinctKeys.dfy`, `Runs.dfy`, `Limits.dfy` | iterators and scans, files with distinct keys, runs of operations, and where code and documentation part |
| `Slots.dfy`, `LeafPage.dfy`, `InternalPage.dfy`, `HeaderPage.dfy` | pages as they are stored: arrays with gaps and a header bitmap, proved to compute the values of `Pages.dfy` |
| `BufferPool.dfy`, `HeapPage.dfy`, `Subsets.dfy` | the buffer pool, the byte layout of heap pages, and the enumeration of subsets for join ordering |

Keys are integers. The capacities `leafCap` (tuples on a leaf page) and `nodeCap` (entries on
an internal page) and the number of bits of a header page are parameters. Insertion needs
`leafCap >= 2` and `nodeCap >= 3`, below which a split leaves an empty page; deletion needs
`nodeCap >= 5`, below which a page that lost an entry can be left with none. A page number of
0 is a null sibling, root or header and, as a parent, the root pointer page. Fields of heap
pages are 32 bits, lowest byte first, as `memcpy` leaves them on a little-endian machine. The ghost `Tree`
of a file names the page of every node of every level.

## Where the model repairs or departs from the code

* `db/BTreeInternalPage.cpp:99-100` requires the table ids to differ; the model requires them
  to be equal, as lines 244-245 do.
* `db/BTreeInternalPage.cpp:48-61`: a reverse iterator starts with a null right child at the
  wrong slot; the model starts at the last key with the children on its two sides.
* `db/BTreeInternalPage.cpp:16-23`: iteration ends at once when slot 1 is free; the model
  starts at the first used slot from 1 on.
* `db/BTreeInternalPage.cpp:187-192` reads every child from the start of the buffer and sets
  the category to LEAF; a new page of the model has no children and no category yet, as line
  275 expects.
* `db/BTreeInternalPage.cpp:268` takes the entry by value, so the record id of the caller's
  entry is not set; the model sets none there, and iterators give entries with theirs.
* `docs/pa2.md:76-79` asks that `findLeafPage` fetches internal pages read only;
  `db/BTreeFile.cpp:20` passes the permission on, and so does the model. Its callers never ask
  for writing.
* `db/BTreeFile.cpp:256-264` never advances the iterator; the model does.
* `db/BTreeFile.cpp:440,450` use a bound that misses page numbers which are multiples of the
  number of bits, and leave the header null when one more header page is needed; the model
  extends the chain until a header page holds the bit.
* `db/BTreeFile.cpp:66,91`: when the separator to insert equals the key a full parent pushes
  up, the wrong half can be chosen and `insertEntry` fails. The model keeps this and states
  exactly when it happens.
* `db/BTreeFile.cpp:359-363` wipes only the first bytes of a page that is used again, as many
  as the root pointer page has; the model wipes the whole page, so that no tuple of a freed
  leaf comes back.
* `docs/pa2.md:171` asks that no page but the root is less than half full. A split of a full
  internal page leaves (max+1)/2 - 1 entries on the right page, one fewer than half when the
  maximum is even (`Limits.SplitOccupancy`). That is the bound kept in every legal file; it is
  half full when the maximum is odd (`Limits.Occupancy`), and there is a legal file with an
  even maximum where a page is not (`Limits.NotHalfFull`).
* `docs/pa2.md:163-164` asks for strict separators above the leaves. `Limits.NotStrict` is a
  legal file of three levels that breaks this, even with distinct keys, when leaves take two
  or three tuples. `Separators.StrictTreeExactly` says when a file meets it, the contracts of
  insertion and deletion when an operation keeps strict separators, and
  `Limits.StrictSeparators` that files with distinct keys have them, if leaves take four
  tuples or more or no tuple was ever deleted.

## Model

| member | source | states |
|---|---|---|
| BTreeFiles.BTreeFile.InsertTuple | db/BTreeFile.cpp:541-572 | succeeds exactly when no tie occurs; then the tree is legal, its contents are sorted and are the old ones plus the tuple. The leaf between whose separators the key belongs takes it after every key that is not above it; with room there, nothing else changes or is written; a full leaf keeps its first half, the others go to a new right neighbour, and the tuple goes to the half that the key at the cut says; the other leaves keep their tuples. Strict separators stay strict exactly unless a leaf is cut at a separator, and every page that changed is in the returned set |
| BTreeFiles.BTreeFile.DeleteTuple | db/BTreeFile.cpp:574-593 | succeeds exactly when there is such a tuple on the leaf; then the tree is legal after any cascade, the contents are sorted and lack exactly that tuple. A leaf that stays half full or is the root is all that changes and is written; a shorter one is merged with its left sibling, or its right one if it has no left, when that has at most half its tuples, and else takes half of what the sibling has more. Strict separators stay strict exactly unless tuples are borrowed up to a separator, and every page that changed is in the returned set |
| BTreeFiles.BTreeFile.constructor | db/BTreeFile.cpp:224-230 | a new file is empty |
| LegalTrees.LegalFile | docs/pa2.md:155-171 | the kept invariant implies the documented conditions as a recursive walk from the root: depth, bounds, parents, categories, occupancy, linked leaves in order, and contents in order |
| LegalTrees.NodeLegal | docs/pa2.md:155-171 | every node is the root of a legal subtree between the separators on its two sides |
| LegalTrees.LevelOrder | docs/pa2.md:155-171 | walking any level in order gives the tuples and leaves of the leaf level in order |
| Runs.Run | db/BTreeFile.cpp:541-593 | any run of insertions and deletions of distinct keys leaves exactly what the same run on a sorted sequence leaves, in a legal file |
| Runs.InsertAll | db/BTreeFile.cpp:541-572 | any run of insertions of pairwise distinct keys succeeds, with leaves of two tuples or more, and stores all the tuples |
| Runs.ApplyMeans | db/BTreeFile.cpp:541-593 | the sequence a run is compared with is a map from keys to tuples: an insertion adds its tuple unless the key is there, a deletion takes away what has the key |
| Runs.NewFile | db/BTreeFile.cpp:224-230 | a new file is good and holds nothing |
| Runs.RunFromEmpty | db/BTreeFile.cpp:541-593 | any run of insertions and deletions of distinct keys from an empty file leaves exactly what the same run on an empty sequence leaves, in a legal file |
| Runs.InsertAllFromEmpty | db/BTreeFile.cpp:541-572 | any run of insertions of pairwise distinct keys into an empty file succeeds and stores exactly those tuples, in a legal file |
| Runs.InsertNew | db/BTreeFile.cpp:541-572 | inserting a new key never fails and is sorted insertion into the contents |
| Runs.DeleteKey | db/BTreeFile.cpp:574-593 | deleting by key removes exactly the tuple with the key, if there is one |
| Runs.Find | db/BTreeFile.cpp:665-712 | an iterator started at a key finds a tuple with the key, and its record id, if and only if there is one |
| Runs.GoodIsLegal | docs/pa2.md:155-171 | a file kept by such runs is a legal tree whose in-order contents are its tuples |
| DistinctKeys.InsertNeverTies | db/BTreeFile.cpp:66-91 | in a legal file with distinct keys no insertion meets a tie, given leaves of three tuples or more, or no deletion so far |
| DistinctKeys.NoTieAbove | db/BTreeFile.cpp:619-650 | a separator below the next one on its level meets no tie on any level above |
| DistinctKeys.SortedOnce | db/BTreeFile.cpp:541-572 | with distinct keys the sorted contents are determined by the bag of tuples |
| DistinctKeys.InsertInPlace | db/BTreeFile.cpp:564-565 | insertion moves no tuple relative to the others |
| DistinctKeys.DeleteInPlace | db/BTreeFile.cpp:577-579 | deletion moves no tuple relative to the others |
| Limits.EqualKeysTie | db/BTreeFile.cpp:62-66 | a legal file, with equal keys, in which one more insertion fails |
| Limits.DistinctKeysTie | db/BTreeFile.cpp:62-66 | a legal file, with distinct keys and leaves of two tuples, in which inserting a new key fails |
| Limits.LastOfEqualExactly | db/BTreeFile.cpp:557-565 | an insertion into a leaf with room is sorted insertion into the contents of the whole file if and only if no different tuple of a later leaf has the key |
| Limits.NotLastOfEqual | db/BTreeFile.cpp:26-34 | a legal file in which a tuple with a key that is there goes before another tuple with that key |
| Limits.Occupancy | docs/pa2.md:171 | in every legal file an internal page that is not the root has (max+1)/2 - 1 entries or more, and is half full if the maximum is odd |
| Limits.SplitOccupancy | db/BTreeFile.cpp:73-84 | when a full internal page of a legal file is cut its left half is half full, and the new page exactly when the maximum is odd |
| Limits.NotHalfFull | docs/pa2.md:171 | a legal file with an even maximum and an internal page, not the root, that is less than half full |
| Limits.NotStrict | docs/pa2.md:163-164 | a legal file of three levels, with distinct keys and leaves of two or three tuples, in which the key of the root is not larger than every key of the page on its left |
| Limits.StrictSeparators | docs/pa2.md:163-167 | with distinct keys, and leaves of four tuples or more or no deletion so far, the separators of every level increase strictly; with leaves of three tuples, those of every level but the lowest |
| Separators.StrictFile | docs/pa2.md:163-164 | a legal file with strict separators meets the strict condition on every page with internal children |
| Separators.StrictExactly | docs/pa2.md:163-164 | in every legal file an entry meets the strict condition if and only if its key differs from the last key on its left and the first key on its right |
| Separators.StrictTreeExactly | docs/pa2.md:163-164 | a legal file meets the strict condition if and only if every entry above pages with internal children differs from those two keys |
| Separators.StrictUp | docs/pa2.md:163-164 | if separators that are not neighbours differ on a level, all differ on the level above |
| Separators.StrictInsert | db/BTreeFile.cpp:57-63 | a new separator keeps a level strict if and only if it differs from the two beside it |
| Separators.StrictRekey | db/BTreeFile.cpp:114-115 | so does a changed separator |
| Separators.StrictAfterCut | db/BTreeFile.cpp:37-64 | splitting a leaf keeps the separators strict if and only if the key at the cut is not a separator beside the leaf |
| Separators.StrictEverywhere | docs/pa2.md:163-164 | separators that are strict above the leaves are strict on every level |
| Separators.SidesFound | db/BTreeFile.cpp:26-34 | the keys passed on the way down to a leaf are the separators beside it |
| Separators.SidesUp | db/BTreeFile.cpp:252-265 | so are the keys found by going up from a page |
| Separators.CutsExactly | db/BTreeFile.cpp:560-562 | the condition on pages for an insertion is that on the leaf where the key belongs |
| Separators.SharesExactly | db/BTreeFile.cpp:282-299 | the condition on pages for a deletion is that on the pair of leaves that share their tuples |
| LeafPairs.StrictAfterBorrow | db/BTreeFile.cpp:94-116 | a borrow keeps the separators strict if and only if the new one differs from those on the sides of the pair |
| BTreeFiles.ChooseChild | db/BTreeFile.cpp:26-34 | the child before the first key that is not below the field, the last child if there is none, the first without a field |
| BTreeFiles.BTreeFile.FindLeafPage | db/BTreeFile.cpp:12-35 | ends at the leaf whose separators are below the key on the left and not below it on the right, the first leaf without a key; exactly the pages on the way are written when fetched for writing |
| Leaves.FoundLeaf | db/BTreeFile.cpp:12-35 | all tuples of leaves before the one found are below the key, all tuples of leaves after it are not |
| Leaves.SearchStep | db/BTreeFile.cpp:26-34 | a search that goes to the chosen child stays on the way to the key |
| Separators.TiesAtLeaf | db/BTreeFile.cpp:557-562 | an insertion ties exactly if the leaf between whose separators the key belongs is full and the key at its cut ties above |
| Trees.TiesExactly | db/BTreeFile.cpp:639-647 | a separator ties on its parent exactly if that page is full and the separator equals the key it pushes up and goes to its left half, or the pushed key ties in turn |
| Leaves.GuidesDown | db/BTreeFile.cpp:26-34 | the choice of a child narrows the separators on both sides correctly on the level below |
| BTreeFiles.BTreeFile.SplitLeafPage | db/BTreeFile.cpp:37-67 | fails exactly on a tie; else the tree is legal, the page keeps the first half of its tuples, its new right neighbour takes the others, the separator is the key at the cut, no other leaf changes its tuples, and the page returned has room and is the left one exactly if the key is below the cut |
| BTreeFiles.BTreeFile.CutLeaf | db/BTreeFile.cpp:37-60 | the first leafCap/2 tuples of a full leaf stay, the others are in a new right neighbour, put there from the last on, the chain goes through it, and the index is the key at the cut |
| BTreeFiles.BTreeFile.LinkLeaf | db/BTreeFile.cpp:38-46 | a new leaf between a page and its right sibling, linked both ways |
| BTreeFiles.BTreeFile.MoveLastTuples | db/BTreeFile.cpp:48-60 | exactly the last tuples move, the last one first, each to its place, and the key is that of the last one moved |
| Leaves.LeafSplit | db/BTreeFile.cpp:37-64 | a cut leaf and its new neighbour are ordered, linked and full enough, and hold the same tuples |
| Leaves.SplitLeafFinish | db/BTreeFile.cpp:37-67 | the whole tree is legal after a leaf split |
| Leaves.LeafInserted | db/BTreeFile.cpp:564-565 | inserting into the leaf where the key belongs keeps the tree legal and adds exactly the tuple |
| BTreeFiles.BTreeFile.SplitInternalPage | db/BTreeFile.cpp:69-92 | fails exactly on a tie further up; else the level below is unchanged, the tree above it legal, the page keeps its first nodeCap/2+1 children, the new one has the rest, the key between them is the new separator, no other page of the level changes, and the page returned has room and is the left one exactly if the key is below that separator |
| BTreeFiles.BTreeFile.CutPage | db/BTreeFile.cpp:69-85 | the page keeps its first nodeCap/2+1 children with their keys, a new page has the others, the index is the key between them; moved children name the new page |
| BTreeFiles.BTreeFile.MoveEntriesRight | db/BTreeFile.cpp:73-80 | the entries moved one by one end up on the right page in order |
| Trees.MoveEntryRight | db/BTreeFile.cpp:76-79 | inserting the last entry of the left part puts it before the right part |
| Trees.CutLinked | db/BTreeFile.cpp:69-89 | replacing a node by its two halves leaves the level below as it was, every child naming its half |
| Trees.SplitDone | db/BTreeFile.cpp:69-92 | once the new separator is above, the tree is legal down to the level of the children |
| Trees.TieCase | db/BTreeFile.cpp:91 | a key that fits beside a child fits in the half that keeps the child, but for a tie with the pushed-up key |
| BTreeFiles.BTreeFile.GetParentWithEmptySlots | db/BTreeFile.cpp:619-650 | a page with a free slot that still is the parent of the child being split, unless the two keys tie; a new root when there is no parent |
| BTreeFiles.BTreeFile.AddRoot | db/BTreeFile.cpp:622-637 | the new page is the root, and the parent of the old root |
| BTreeFiles.BTreeFile.AddToParent | db/BTreeFile.cpp:62-64 | fails exactly on a tie on some level; else the new page is the right neighbour of the old one in a legal tree |
| BTreeFiles.BTreeFile.PutUnderParent | db/BTreeFile.cpp:62-64 | inserting the separator fails exactly on a tie, else joins the new page to its level |
| BTreeFiles.BTreeFile.PutUnderNewRoot | db/BTreeFile.cpp:62-64 | the first entry of a new root makes a legal tree one level higher |
| Trees.WouldTieFrame | db/BTreeFile.cpp:644-647 | whether a tie will happen depends only on the levels above and the parent |
| Trees.EntryFits | db/BTreeInternalPage.cpp:307-337 | the separator goes in exactly on the page that is the parent of its left child, right after it |
| BTreeFiles.BTreeFile.UpdateParentPointers | db/BTreeFile.cpp:652-662 | every child of the page names it as its parent and nothing else changes; exactly the children that did not are written |
| BTreeFiles.BTreeFile.UpdateParentPointer | db/BTreeFile.cpp:232-241 | the child names the page as its parent and nothing else changes; it is written exactly if it did not |
| BTreeFiles.EntriesAround | db/BTreeFile.cpp:252-265 | the entries on both sides of a page in its parent |
| BTreeFiles.BTreeFile.HandleMinOccupancyLeafPage | db/BTreeFile.cpp:274-301 | a leaf that is one tuple short is repaired: the tree is legal and holds the same tuples; nothing changes if it is the root, the left sibling is used if there is one, and else the right one |
| BTreeFiles.BTreeFile.ShareWithLeftLeaf | db/BTreeFile.cpp:282-290 | a left sibling with at most half its tuples takes all those of the leaf, which is freed; another gives half of what it has more, and is all that joins the write set; the tree is legal, and there is something to steal when it borrows |
| BTreeFiles.BTreeFile.ShareWithRightLeaf | db/BTreeFile.cpp:291-299 | likewise on the right |
| BTreeFiles.BTreeFile.StealFromLeftLeaf | db/BTreeFile.cpp:94-116 | throws exactly when the sibling has fewer than two tuples more; else exactly the last (sibling - page)/2 tuples of the sibling move, the key of the parent entry is that of the first tuple on the page, no other page changes, and the tree is legal with the same tuples |
| BTreeFiles.BTreeFile.StealFromRightLeaf | db/BTreeFile.cpp:94-116 | likewise the first (sibling - page)/2 tuples of the right sibling, and the key is that of its first tuple that stays |
| LeafPairs.BorrowedLegal | db/BTreeFile.cpp:94-116 | tuples shared anew between two leaves around a key, with that key as their separator, make a legal tree with the same tuples |
| BTreeFiles.BTreeFile.MergeLeafPages | db/BTreeFile.cpp:184-201 | the left leaf holds its tuples and those of the right leaf put in one by one, never more than fit, the right page is freed, and the tree is legal again with the same tuples |
| BTreeFiles.BTreeFile.JoinLeaves | db/BTreeFile.cpp:186-196 | all tuples of the right leaf are in the left one and the chain goes round the right one |
| LeafPairs.MergedLegal | db/BTreeFile.cpp:184-201 | the whole tree is legal after a leaf merge and holds the same tuples |
| LeafPairs.TupleRemoved | db/BTreeFile.cpp:577-579 | taking a tuple off a leaf keeps the tree legal but for the occupancy of that leaf |
| BTreeFiles.BTreeFile.HandleMinOccupancyInternalPage | db/BTreeFile.cpp:243-328 | an internal page with too few entries is repaired: the tree is legal and the level below it is as it was; nothing changes if it is the root, the left sibling is used if there is one, and else the right one |
| BTreeFiles.BTreeFile.BorrowOrMergeLeft | db/BTreeFile.cpp:311-319 | a left sibling with at most nodeCap/2 entries takes all children of the page, which is freed; another gives half of what it has more; there is something to steal when it borrows |
| BTreeFiles.BTreeFile.BorrowOrMergeRight | db/BTreeFile.cpp:319-327 | likewise on the right |
| BTreeFiles.BTreeFile.StealFromLeftInternalPage | db/BTreeFile.cpp:118-149 | throws exactly when there is nothing to steal; else the joined children are cut (sibling - page)/2 to the left of where they were, the key at the new cut is in the parent, and every moved child names its new parent |
| BTreeFiles.BTreeFile.StealFromRightInternalPage | db/BTreeFile.cpp:151-182 | likewise from the right sibling |
| BTreeFiles.BTreeFile.RotateRight | db/BTreeFile.cpp:129-146 | one round moves the cut between two pages one child to the left and changes nothing else |
| BTreeFiles.BTreeFile.RotateLeft | db/BTreeFile.cpp:162-179 | one round moves the cut one child to the right |
| Borrowing.RoundLeft | db/BTreeFile.cpp:132-140 | what the delete and insert calls of a round compute on the pages as they are |
| Borrowing.RoundRight | db/BTreeFile.cpp:165-173 | likewise for a round from the right |
| Borrowing.StealLinked | db/BTreeFile.cpp:118-182 | moving the cut between two siblings leaves the level below as it was |
| Borrowing.ReslicedRepaired | db/BTreeFile.cpp:118-182 | the tree is legal after a steal |
| Borrowing.SharedCounts | db/BTreeFile.cpp:121-124 | moving half of the surplus leaves enough entries on both pages, and there is something to move |
| Levels.LinkRegroup | db/BTreeFile.cpp:118-222 | nodes of a level may be regrouped: if they expand to the same, the level below does not change |
| BTreeFiles.BTreeFile.MergeInternalPages | db/BTreeFile.cpp:203-222 | the left page has its children, the key of the parent entry and the children of the right one, which is freed; the tree is legal and the level below is as it was |
| BTreeFiles.BTreeFile.JoinPages | db/BTreeFile.cpp:207-217 | left children, parent key and right children end up on the left page in order |
| Borrowing.MergeLinked | db/BTreeFile.cpp:203-219 | two siblings merged into one expand to the same children |
| Borrowing.JoinedIs | db/BTreeFile.cpp:207-217 | the joined children: those of the left page, the first of the right one with the key of the parent entry, and the others |
| Borrowing.CutAtSlots | db/BTreeFile.cpp:118-182 | what both pages and the parent hold after a cut at a place, and which page every child names |
| Borrowing.MergedRepaired | db/BTreeFile.cpp:203-222 | the tree is legal after a merge of internal pages and any cascade above it |
| BTreeFiles.BTreeFile.DeleteParentEntry | db/BTreeFile.cpp:330-352 | the page on the right of the entry is off its level, and the tree above is legal after any cascade; only the parent changes if it keeps nodeCap/2 entries or is the root, it is dropped if it has none left, and else repaired from its left sibling or its right one |
| BTreeFiles.BTreeFile.DropRoot | db/BTreeFile.cpp:336-348 | a root without entries is freed, its only child is the root and names no parent |
| Merging.SingleIsRoot | db/BTreeFile.cpp:336-342 | a page that can lose its last entry is the root |
| Merging.RemovedAbove | db/BTreeFile.cpp:330-335 | taking an entry off a page keeps the levels above legal, with that page possibly one short |
| Merging.CollapseDone | db/BTreeFile.cpp:336-348 | the tree is legal, one level lower, after the root was dropped |
| Paging.PageStore.GetPage | db/BTreeFile.cpp:526-539 | the page, in the write set when fetched for writing |
| Paging.PageStore.GetRootPtrPage | db/BTreeFile.cpp:595-612 | creates the root pointer page and an empty leaf exactly in an empty file |
| BTreeFiles.BTreeFile.RootPage | db/BTreeFile.cpp:544-553 | a new file gets its first leaf as the root; the contents do not change |
| Paging.PageStore.FindEmptySlot | db/BTreeFile.cpp:378-394 | the first header page with a clear bit, and its first clear bit; none exactly when all bits are set |
| Paging.PageStore.GetEmptyPageNo | db/BTreeFile.cpp:373-415 | the lowest free page, or the page after the last only when none is free; never one in use or of the header chain; only header pages are written |
| Paging.PageStore.GetEmptyPage | db/BTreeFile.cpp:354-371 | an empty page of the category, in the write set; no page in use changes |
| Paging.PageStore.SetEmptyPage | db/BTreeFile.cpp:417-468 | the page is free and no other, its bit is clear, no page in use changes, and the chain is extended only until it holds the bit |
| Paging.PageStore.CoverPage | db/BTreeFile.cpp:428-461 | the chain is extended until a header page holds the bit of the page, and no further |
| Paging.PageStore.FindHeaderPage | db/BTreeFile.cpp:438-445 | the header page that holds the bit of a page, or the end of the chain |
| Paging.PageStore.AddHeaderPage | db/BTreeFile.cpp:453-457 | a new header page with all bits set at the end of the chain, which names it |
| Paging.ConsistentTake | db/BTreeFile.cpp:395-402 | setting the first clear bit hands out the lowest free page and keeps the partition |
| Paging.ConsistentFree | db/BTreeFile.cpp:465-467 | clearing the bit of a page in use frees it and keeps the partition |
| Paging.ConsistentHeader | db/BTreeFile.cpp:453-457 | a page in use that joins the header chain keeps the partition |
| Paging.BitsMark | db/BTreeFile.cpp:401-402 | bit i of header page k is the bit of page k times the number of bits plus i |
| Paging.BitOfPage | db/BTreeFile.cpp:395-402 | page i * numSlots + slot is unused exactly if bit slot of header page i is clear |
| Paging.GetEmptySlot | db/BTreeHeaderPage.cpp:109-119 | the first clear bit, or -1 exactly when all are set |
| HeaderPages.BTreeHeaderPage.GetEmptySlot | db/BTreeHeaderPage.cpp:109-119 | the same on the bytes of the page |
| HeaderPages.BTreeHeaderPage.MarkUsed | db/BTreeHeaderPage.cpp:98-107 | one bit changes and no other |
| HeaderPages.BTreeHeaderPage.Init | db/BTreeHeaderPage.cpp:27-29 | every bit is set |
| Scans.BTreeFileIterator.constructor | db/BTreeFile.cpp:665-679 | the iterator starts at the first tuple of the first leaf or, with a start key, of the leaf whose separators guide to it: all tuples of leaves before are below the key, all of leaves after are not, and it has all tuples to give but some that are below the key |
| Scans.BTreeFileIterator.Current | db/BTreeFile.cpp:710-712 | the first tuple not yet given |
| Scans.BTreeFileIterator.Next | db/BTreeFile.cpp:693-708 | goes on by exactly one tuple, and is at the end exactly when there is none left |
| Scans.Scan | db/BTreeFile.cpp:681-712 | a scan gives every tuple once, in key order, and ends |
| LeafPages.BTreeLeafPage.InsertTuple | db/BTreeLeafPage.cpp:121-168 | fails exactly when the page is full; else the tuple stands after all keys that are not above it and before all that are, in the slot after that of the tuple before it, one empty slot is used up and the others keep their order, and record ids name their own page and slot |
| Pages.SortedInsertPlace | db/BTreeLeafPage.cpp:137-146 | insertion puts the tuple after all keys that are not above it and before all that are |
| Pages.PutAfterEqual | db/BTreeLeafPage.cpp:137-146 | so it comes last among the tuples with its key and the others keep their order |
| Pages.PutInOrder | db/BTreeFile.cpp:48-60 | tuples put on a page one by one keep their order among equal keys, after those that were there |
| Pages.WithKeyRun | db/BTreeLeafPage.cpp:137-146 | on a page the tuples with a key are next to each other, in their order |
| LeafPages.BTreeLeafPage.DeleteTuple | db/BTreeLeafPage.cpp:108-119 | fails exactly on a record id of another page or of an unused slot; else exactly the tuple with that record id leaves the sequence |
| LeafPages.BTreeLeafPage.RecordIdAt | db/BTreeLeafPage.cpp:163-167 | the tuple at each place of the sequence has a record id that names its page and slot |
| Slots.GatherSlot | db/BTreeLeafPage.cpp:19-34 | every place of the sequence is that of a used slot |
| Slots.GatherOneSlot | db/BTreeLeafPage.cpp:19-34 | and of only one |
| LeafPages.BTreeLeafPage.MoveRecord | db/BTreeLeafPage.cpp:56-64 | moves a used slot to an unused one, record id included |
| LeafPages.BTreeLeafPage.ShiftDown | db/BTreeLeafPage.cpp:151-155 | frees the slot after the last key that is not above, keeping the order |
| LeafPages.BTreeLeafPage.ShiftUp | db/BTreeLeafPage.cpp:156-161 | likewise in the other direction |
| LeafPages.BTreeLeafPage.LastNotAbove | db/BTreeLeafPage.cpp:137-146 | finds the gap where the key belongs in the sequence |
| LeafPages.BTreeLeafPage.FirstEmptySlot | db/BTreeLeafPage.cpp:125-132 | the first empty slot, or -1 exactly on a full page |
| LeafPages.BTreeLeafPage.GetNumEmptySlots | db/BTreeLeafPage.cpp:212-218 | the slots that hold none of the tuples |
| LeafPages.BTreeLeafPage.NextUsed | db/BTreeLeafPage.cpp:19-34 | skips exactly the unused slots |
| LeafPages.BTreeLeafPage.PreviousUsed | db/BTreeLeafPage.cpp:19-34 | likewise backward |
| LeafPages.BTreeLeafPage.Walk | db/BTreeLeafPage.cpp:226-239 | iteration gives every tuple once, in order |
| InternalPages.BTreeInternalPage.InsertEntry | db/BTreeInternalPage.cpp:268-359 | on any pattern of gaps, fails exactly when an assertion does, else puts key and child into the slot after the matched one, taking up the first empty slot, and computes insertion after or before the matched child on the sequence of slots |
| Pages.InsertEntryRun | db/BTreeInternalPage.cpp:268-359 | on a page with entries, which order assertions fail, and what each place holds otherwise |
| Pages.InsertEntryFirst | db/BTreeInternalPage.cpp:284-293 | the first entry of a page gives both its children |
| Pages.InsertEntryAfter | db/BTreeInternalPage.cpp:307-358 | a matching left child gets key and right child just after it |
| Pages.InsertEntryBefore | db/BTreeInternalPage.cpp:307-358 | a matching right child gets left child and key just before it |
| Pages.InsertEntryNoMatch | db/BTreeInternalPage.cpp:333-337 | an entry neither of whose children is on the page fails |
| InternalPages.BTreeInternalPage.MatchChildren | db/BTreeInternalPage.cpp:307-337 | the matching loop finds the place of the entry, or fails exactly where the abstract insertion does |
| InternalPages.BTreeInternalPage.InsertFirst | db/BTreeInternalPage.cpp:284-293 | the first entry of a page |
| InternalPages.BTreeInternalPage.InsertAfterMatch | db/BTreeInternalPage.cpp:339-358 | shifting and writing put the entry right after the matched slot |
| InternalPages.BTreeInternalPage.DeleteEntry | db/BTreeInternalPage.cpp:94-115 | takes exactly the key of the slot with the chosen child off the page, which slots are used changes in one place; fails exactly on a record id of another page or of an unused slot |
| InternalPages.BTreeInternalPage.UpdateEntry | db/BTreeInternalPage.cpp:239-266 | changes exactly the key and child of the slot and the child of the one before; fails exactly on a record id of another page or of an unused slot, or when the key is out of order |
| InternalPages.BTreeInternalPage.MoveEntry | db/BTreeInternalPage.cpp:117-124 | moves a used slot to an unused one |
| InternalPages.BTreeInternalPage.GetNumEmptySlots | db/BTreeInternalPage.cpp:365-373 | the slots from 1 on without an entry |
| InternalPages.BTreeInternalPageIterator.Next | db/BTreeInternalPage.cpp:30-39 | goes on to the next entry with its two children |
| InternalPages.BTreeInternalPageIterator.Entry | db/BTreeInternalPage.cpp:41-46 | the key with the children on its two sides, and the record id of its page and slot |
| InternalPages.BTreeInternalPageReverseIterator.Next | db/BTreeInternalPage.cpp:67-77 | goes back to the previous entry with its two children |
| InternalPages.BTreeInternalPage.LastSlots | db/BTreeInternalPage.cpp:48-61 | the last key and the child on its left |
| Slots.MarkSlotUsed | db/BTreeLeafPage.cpp:66-74 | the bit of one slot changes and no other: byte i / 8 is or-ed with 1 << i % 8, or and-ed with its complement |
| Slots.SlotBit | db/BTreeLeafPage.cpp:66-74 | slot i is used exactly if byte i / 8 shifted right by i % 8 is odd |
| Slots.MovedGather | db/BTreeLeafPage.cpp:151-159 | moving a slot to the next one keeps the sequence of used slots |
| Slots.ShiftedFill | db/BTreeLeafPage.cpp:163-167 | filling the freed slot inserts at its place in the sequence |
| BufferPools.BufferPool.GetPage | db/BufferPool.cpp:70-81 | the page as the view has it; the view is unchanged, whatever is evicted, but for pages a running file operation has changed in place; frames that stay are unchanged, and the cache stays within its size |
| BufferPools.BufferPool.ChangeInPlace | db/BufferPool.cpp:43-45 | a change of a page object a file operation holds shows in that page only |
| BufferPools.BufferPool.EvictPage | db/BufferPool.cpp:6-12 | drops one page and writes it exactly if it is dirty; the other frames are unchanged, and so is the view of every other page, and of it unless changed in place and not marked |
| BufferPools.BufferPool.FlushPage | db/BufferPool.cpp:27-33 | the cached page is clean and on disk; the view is unchanged |
| BufferPools.BufferPool.FlushAllPages | db/BufferPool.cpp:14-18 | the disk is the view |
| BufferPools.BufferPool.FlushPages | db/BufferPool.cpp:35-41 | exactly the pages dirty for the transaction are written and are clean; all other frames and pages on disk are unchanged, and so is the view |
| BufferPools.BufferPool.DiscardPage | db/BufferPool.cpp:20-25 | the disk content of the page counts again, other pages are unchanged |
| BufferPools.BufferPool.InsertTuple | db/BufferPool.cpp:46-53 | the view is that before the file operation with exactly the returned pages changed, even when one is evicted before it is marked dirty; a returned page still cached is dirty for the given transaction, another is on disk with its new content, and cached pages that were not returned keep their frames |
| BufferPools.EmptyPage | db/BTreeFile.cpp:354-371 | an empty page written past the pool is what is then fetched, whatever the pool or the disk had of it; no other page changes |
| BufferPools.TakeStep | db/BTreeFile.cpp:526-539 | a step of a file operation changes the view of nothing but pages the operation holds or has written |
| BufferPools.WholeInsert | db/BufferPool.cpp:43-54 | the same for a file operation of any steps that fetch pages, hold them, change them in place, create them or make them empty, with whatever is evicted meanwhile; returned pages are dirty for the given transaction |
| BufferPools.OverlayIs | db/BufferPool.cpp:46-53 | what a view is after the returned pages were put into it |
| BufferPools.OverlayLast | db/BufferPool.cpp:46-53 | a page returned twice has the last content |
| HeapPages.SlotsTile | db/HeapPage_internal.cpp:49-55 | header and slots tile the page, there is a bit for every slot, and no more slots would fit |
| HeapPages.HeapPage.constructor | db/HeapPage_internal.cpp:29-47 | the header is that in the bytes and field j of the tuple of every used slot is the number whose lowest byte comes first at its offset |
| HeapPages.FieldAtValue | db/IntField.cpp:24-32 | the four bytes, lowest first, make up the field |
| HeapPages.WordIs | db/IntField.cpp:24-32 | four bytes make up a value exactly if they are its bits 0-7, 8-15, 16-23 and 24-31 |
| HeapPages.TestField | db/HeapPage_internal.cpp:61-71 | the bytes bd 7c 00 00 are the field 31933 |
| HeapPages.HeapPage.GetPageData | db/HeapPage_internal.cpp:73-98 | the bytes of the header, then of the fields of every used slot, lowest byte first, and zeros for unused slots |
| HeapPages.WriteAndRead | db/HeapPage_internal.cpp:29-98 | writing a page and reading it back restores the header and every used tuple |
| HeapPages.ReadAndWrite | db/HeapPage_internal.cpp:29-98 | reading bytes and writing them back restores all but the unused slots, which are cleared |
| HeapPages.HeapPage.InsertTuple | db/HeapPage.cpp:25-40 | fails exactly on a full page; else the first empty slot holds the tuple, its record id names page and slot, and the bag gains it |
| HeapPages.HeapPage.DeleteTuple | db/HeapPage.cpp:14-23 | fails exactly on a record id of another page or of an empty slot; else the bag loses that tuple |
| HeapPages.HeapPage.GetNumEmptySlots | db/HeapPage_internal.cpp:105-110 | the slots that hold no tuple |
| HeapPages.HeapPage.NextUsed | db/HeapPage_internal.cpp:6-23 | skips exactly the unused slots |
| HeapPages.HeapPage.Walk | db/HeapPage_internal.cpp:118-124 | iteration gives every tuple once, in slot order |
| Subsets.EnumerateSubsets | include/db/JoinOptimizer.h:133-150 | the loops return the sets of the recursive enumeration, in its order |
| Subsets.EachSubset | include/db/JoinOptimizer.h:133-150 | of distinct elements, exactly the subsets of the size are returned, each size! times |
| Subsets.HowMany | include/db/JoinOptimizer.h:133-150 | n!/(n-size)! sets are returned |
| Subsets.NoneTooLarge | include/db/JoinOptimizer.h:133-150 | none for a size that is negative or too large |

## Left out

- File descriptors, `pread`, `pwrite` and `fstat`: the disk is a map of pages and the page count a number.
- In `BTreeFile.dfy` page ids are page numbers. The code keys its write set by number and kind, so that a freed page that comes back as another kind has two keys within one operation.
- The bytes of B+ tree pages (`getPageData` and the constructors of leaf and internal pages): the leaf writer does not advance within a tuple and the leaf header size ignores the pointers; the byte layout is proved for heap pages.
- `BTreeFile.dfy` works on the values of pages; that the slotted pages compute these values is proved in `LeafPage.dfy` and `InternalPage.dfy`, and the two are not composed into one object graph.
- The file operation of the buffer pool is any sequence of fetches, changes in place, new pages and empty pages; it is not composed with `BTreeFile.dfy`, whose store holds the pages themselves.
- BTreeFiles.BTreeFile.InsertTuple: says nothing of the file after a failed assertion, which aborts the program.
- BTreeFiles.BTreeFile.DeleteTuple: requires that the record id names a leaf page of the tree, as the code does without checking it, and takes the place of the tuple in the sequence of the leaf, not its slot number; `LeafPages.BTreeLeafPage.RecordIdAt`, `Slots.GatherSlot` and `Slots.GatherOneSlot` say that places and used slots correspond one to one. It needs five entries a page or more: with fewer, a page that is not the root can lose its last entry, which the code asserts away.
- LegalTrees.LegalFile: record ids (`docs/pa2.md:161`) are not part of the tuples of a file; that they match page and slot is kept by `LeafPages.BTreeLeafPage`. Keys are bounded non-strictly; strictness is stated in `Separators.dfy`.
- Paging.PageStore.GetEmptyPage: wipes the whole page, see above.
- Scans.Scan: gives no result for a file without tuples, where the code reads past the end of an empty leaf.
- `BufferPool::deleteTuple`, which calls `insertTuple` of the file: the deletion of the file is modelled directly.
- Range predicates of iterators: only the start key is modelled, the code does not filter.
- String fields, the catalog, tuple descriptors, queries, transactions and locks: READ_WRITE only means that a page joins the write set.
- Operators and join ordering other than the enumeration of subsets: their bodies are empty.
