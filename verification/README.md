# Berkeley DB 1.85 B+tree and CIM object paths in Dafny

A Dafny model, with proofs, of the storage engine vendored in `db/` (pages, page cache, free list,
overflow chains, B+tree, cursor) and of the escape/print/parse code of `src/cim/OW_CIMObjectPath.cpp`.

`dafny verify dfyconfig.toml` checks the whole project.

## What is modelled

The layers, from the bottom up:

* **Byte pages.** `Slotted` is a page as bytes: index array, item area, the memmove of a deletion and the two loops
  that close up the offsets. `Entries` encodes leaf and internal entries and shows that byte pages are sequences of
  entries with the size arithmetic of btree.h (`Layout`). `Conv` is the in-place byte-order conversion.
* **Page cache.** `CircleQ` holds the circular queues of queue.h as links; `Mpool` is the pool with its hash queues,
  LRU queue, pins, dirty bits, eviction and sync; `Calls` says which calls a user may make and `PoolRuns` compares
  whole runs of them with a plain map of pages. `CacheSize` is the number of pages `__bt_open` gives the pool.
* **Store.** `PageStore` is the pool as the tree uses it, with the free list and the overflow chains. `Storage` has the
  invariant: each page of the file has one owner. The store records its calls, and its invariant says that they are
  legal from first to last. `Backing` therefore makes every tree operation, and every run, on a pool: the pool reads
  right at each call, presents the tree's pages afterwards, and stays within its limit if that is five or more.
* **Tree.** `Keys` embeds the order of byte strings in the reals, so that a page covers an interval. `Shape` states the
  tree invariant page by page: `TreeInv` holds the interval, level and parent of every page, children tiling their
  parent's interval, separators at index 1 and above equal to the bounds of the children (the key at index 0 is never used),
  leaves at level 0 with keys in order inside their interval, and both sibling links of every level joining pages that
  touch. `Grow`, `Shrink`, `Records`, `Steps` and `SplitSteps` say what each step of the code does to it;
  `Position`, `Sideways`, `Search`, `Hint` and `Cursors` are searching, moving sideways, `bt_fast` and the cursor.
* **Operations.** `Btree` is the tree as a class with the source's fields (parent stack, cursor, sorted-order hint,
  pinned page): open, get, put, delete, seq. `Runs` compares whole runs with a map from keys to byte strings.
  `Instances` holds short runs of the class that show the findings below.
* **CIM paths.** `ObjectPath` has the escape, unescape, print and parse loops and the round trip; `PathForms` says what
  the parser makes of every way of writing a path.

Pins are counted: a page can be pinned only while fewer than five are, so the verified tree operations never hold more
than five pages, and a page changed while pinned can be put only as dirty.

## Findings about the code

The model keeps the code as it is; each finding comes with its exact condition.

* `bt_psplit` leaves a second open slot, at the front of the right page, if and only if the new item is first and takes
  half a page with its slot (`Split.PSplit`, instance `Split.SecondSlot`). `Btree.BTree.Put` therefore asks for
  pairs below half a page.
* The overflow threshold of `__bt_open` keeps every inline pair within half a page if and only if
  `(psize - 20) / minkeypage >= 14`; below that it wraps in its 16-bit field (`Layout.ThresholdIsExact`, instance
  `Layout.TooManyKeys`).
* The cursor adjustment of `bt_psplit` is one too far if and only if the new record goes left, at or before the
  cursor's, and the cursor's record is the last on the left or is on the right (`Cursors.SplitMovesCursor`, instance
  `Cursors.CursorSlips`). `Btree.BTree.Put` says it of the tree before the call: `PutAt` gives the place of the key
  there and, through `Goes` and `CutOf`, where a split will cut. A page with room never loses its cursor
  (`Instances.RoomyPut`).
* A hit of `bt_fast` is the position a search finds if and only if the remembered page is still a leaf of the tree
  and, if it was emptied, its stale key is not the one sought (`Hint.HitIsPosition`). A delete can empty and free the
  remembered page. Under a hint to append this does no harm (`Hint.HitOnEmptied`, `Instances.PutDeletePut`). Under a
  hint to prepend, a put writes its record on the freed page if and only if the page is still an emptied leaf and the
  key does not sort after the last key that was on it (`Btree.BTree.Put`, instance `Hint.HitOnFreedPage`); the put
  is answered, and the record is lost (`Runs.Lose`).
* A put with R_NOOVERWRITE that finds its key has already stored big data on a chain, and that chain is lost
  (instance `Instances.ChainLost`). Apart from the put above, nothing else loses a page (`Btree.BTree.Put`,
  `Btree.BTree.Delete`, `Runs.Run`).
* R_PREV from a cursor whose record was deleted gives the record before it if and only if the tree is empty: it returns
  the record at or after the deleted key (`Btree.BTree.Seq`, `Position.FromDeleted`, instance `Instances.PrevMisses`).
  R_NEXT gives the record after it if and only if the deleted key has not been put back.
* For a leaf entry with overflow data the page conversion starts four bytes into the key; it stays inside the entry if
  and only if the key has at least four bytes (`Conv.StaysInside`), and is one byte too far otherwise
  (`Conv.OneByteTooFar`). It then passes the end of the page (`Conv.PastTheEnd`), or takes a byte of the next entry,
  and out and in again restores the two entries if and only if three bytes happen to be equal (`Conv.NotRestored`).
* The pool gets at least five pages if and only if rounding up the cache size does not wrap in 32 bits
  (`CacheSize.CacheHoldsFive`, instance `CacheSize.NoPages`); it never wraps for page sizes that are powers of two
  (`CacheSize.PowersOfTwo`).
* `parse(toString(p))` gives back a local instance path if and only if no key value contains `://`
  (`ObjectPath.RoundTrip`, instance `ObjectPath.UrlValue`). On another host the values do not matter
  (`PathForms.RemoteRoundTrip`). A null value comes back as the text null.
* After a comma the key loop skips a character, so a key list may end in a comma and any one character
  (`ObjectPath.RefuseKeys`).
* The minimum number of keys per page is honoured if and only if it leaves each key 42 bytes (`Layout.MinKeysFit`).

## Model

| member | source | states |
|---|---|---|
| Runs.Run | db/btree/bt_put.c:69-252 | every run of put, get and delete on any valid tree answers each call as a plain key-to-bytes map does and ends with the tree invariant, a good hint and the map the calls give; it goes to the end unless `bt_fast` would take a freed page for a put, and always without deletes; the number of lost chains grows by exactly the number of refused big puts |
| Runs.RunNew | db/btree/bt_get.c:66-108 | the same from a newly opened tree, for any puts, gets and deletes |
| Runs.Step | db/btree/bt_put.c:126-252 | one put, get or delete answers and changes the tree as `Answer` and `Effect` say of the map, for any valid tree and hint, except where `Lose` shows that it does not |
| Runs.Lose | db/btree/bt_put.c:278-309 | a put under a stale hint to prepend never does what it does to the map: it is answered, no record is added, and a get of the same key finds nothing |
| Runs.PagesAccounted | db/btree/bt_page.c:61-102 | in any valid tree each page of the file is in the tree, on the free list, or on a chain that one record refers to or that was lost; tree pages are on no list and no chain |
| Runs.ScanAndDelete | db/btree/bt_seq.c:78-135 | R_FIRST and then R_NEXT with R_CURSOR deletes of any chosen keys in between returns every initial record once, in ascending order, with its data, and leaves the initial map minus the chosen keys |
| Runs.ScanRound | db/btree/bt_delete.c:94-123 | one round of such a scan: from the record under the cursor, deleted or kept, the next record returned is the next of the initial map |
| Btree.BTree.constructor | db/btree/bt_open.c:310-325 | a new tree satisfies the whole invariant, holds no records and has lost no chain |
| Btree.BTree.Get | db/btree/bt_get.c:66-108 | the answer is that of the map: success with the stored bytes if and only if the key is in it; a flag is an error; nothing changes |
| Btree.BTree.Put | db/btree/bt_put.c:69-252 | it answers and changes the map as `PutStatus` and `PutModel` say if and only if `StaleHit` did not hold before; then tree and hint are good, `w` is where the key belongs in the old tree and where the old page, less an old record, is cut, a cursor on another record still names it if and only if `Loses` of that does not hold, one on the overwritten record is in ACQUIRE with its key, and a chain is lost exactly by a refused big put; else the map stays and the answer is given |
| Btree.BTree.PutData | db/btree/bt_put.c:126-252 | both outcomes of a put, with the flags checked and the last page put |
| Btree.BTree.PutFreed | db/btree/bt_put.c:268-323 | under a stale hint to prepend the record lands on the freed page, the tree and its records stay as they were, and a put not to overwrite the deleted key is refused |
| Btree.BTree.PutItem | db/btree/bt_put.c:162-252 | a put of an item already stored inline or on its own chain, with no stale hit |
| Btree.BTree.Stow | db/btree/bt_put.c:126-153 | data goes on a chain if and only if the pair exceeds the threshold; the item stands for the data and no record refers to its chain; no record and no tree page changes; the hint goes astray afterwards if and only if `StaleHit` said so before, so the chain takes the freed page exactly when foreseen |
| Btree.BTree.Locate | db/btree/bt_put.c:162-170 | hint or search, under any hint that does not stray, the place returned is the position of the key; a key that adjoins the last one put, on a page with room, is placed without a search and keeps the hint, and any other key drops it; if the page has no room the hint is off and the stack is the path, so a split never happens under a hint |
| Btree.BTree.BtFast | db/btree/bt_put.c:268-323 | under any hint, live or spent: if it strays the freed page is taken, with the stale key compared; otherwise a hit is the position of the key on a page with room, and a miss turns the hint off; a live hint hits exactly the keys that adjoin the last one put |
| Btree.BTree.NoteHint | db/btree/bt_put.c:228-242 | a hint is recorded exactly for an insertion at the end of the last leaf (FORWARD) or at the start of a first leaf that is not the last (BACK), and only if there was none; it is live |
| Btree.BTree.Replace | db/btree/bt_put.c:183-252 | overwriting frees the chain of the old data and not that of the new, and every other key keeps its bytes |
| Btree.BTree.Add | db/btree/bt_put.c:205-243 | a new key adds one record and changes no other |
| Btree.BTree.InsertHere | db/btree/bt_put.c:205-226 | a record inserted on its leaf leaves a valid tree with one more record and a live hint; the cursor still names its record |
| Btree.BTree.InsertSplit | db/btree/bt_split.c:83-329 | a record that does not fit is inserted by splitting and leaves a valid tree with one more record; the cut is the one `CutOf` computes from the old page, and the cursor names its record if and only if `Loses` does not hold of that cut |
| Btree.BTree.BtSearch | db/btree/bt_search.c:67-137 | the leaf and index are the position of the key, and the stack is exactly the path from the root to the leaf with child indices |
| Btree.BTree.BtRet | db/btree/bt_utils.c:72-143 | the data returned for a record is its stored bytes, from the page or its chain |
| Btree.BTree.BtSplit | db/btree/bt_split.c:83-329 | splitting a full leaf around a new record gives a valid tree: the two leaves are the old entries with the record inserted, cut so that both fit and neither is empty, all other leaves keep their records, the parents have taken their separators up to a new root if need be, and nothing is left pinned |
| Btree.BTree.SplitUp | db/btree/bt_split.c:156-312 | while a right half is unknown to its parent, the loop ends with every parent told and the tree whole, at most five pages pinned on the way |
| Btree.BTree.SplitRound | db/btree/bt_split.c:156-312 | one round gives the parent on the stack the separator for the right half, one after the left, on its page or on the two pages it splits into; it keeps all leaves and either completes the tree or leaves one split pair a level higher with the stack leading to it |
| Btree.BTree.Separator | db/btree/bt_split.c:170-210 | the separator is the first key of the right half or, between leaves and not next to the leftmost entry of its level, the shortest prefix that sorts after the left half, if that saves space; it bounds the two halves, so every record is routed as before, and takes at most half a page |
| Btree.BTree.ParentTakes | db/btree/bt_split.c:219-252 | a parent with room has its entries with the separator one after the left half, and the tree is whole |
| Btree.BTree.BtPage | db/btree/bt_split.c:345-434 | the page and its new right sibling hold the old entries with the new one, cut as `CutOf` says, both fit and are non-empty, the sibling is linked in on its level, and the cursor moves as `CursorSplit` says |
| Btree.BTree.BtRoot | db/btree/bt_split.c:450-483 | the entries of the root with the new one go to two new pages, cut as `CutOf` says, both fitting and non-empty |
| Btree.BTree.BtBroot | db/btree/bt_split.c:537-598 | the root becomes an internal page over the halves, separated by the first key of the right one |
| Btree.BTree.RootAround | db/btree/bt_split.c:440-598 | splitting the root gives a valid tree one level higher with the same records |
| Btree.BTree.Delete | db/btree/bt_delete.c:65-132 | by key or by cursor, the map is the old one minus exactly that key, error and not-found cases change nothing; a cursor on another record still names it and one on the deleted record is in ACQUIRE with its key; no chain is lost; the hint stays good, and stays live if and only if the delete spares its page |
| Btree.BTree.BtBdelete | db/btree/bt_delete.c:293-364 | deleting a key of any valid tree gives a valid tree without it |
| Btree.BTree.DeleteCursor | db/btree/bt_delete.c:94-123 | the record under the cursor goes, its page with it if emptied, and its key is saved |
| Btree.BTree.BtDleaf | db/btree/bt_delete.c:476-526 | one record and its chain go; the leaf has its other records in order, all other tree pages are untouched, and the cursor moves as `AfterRemove` says |
| Btree.BTree.BtPdelete | db/btree/bt_delete.c:380-461 | an emptied leaf leaves the tree with every ancestor it empties: each is unlinked on its level and freed, the first ancestor with more entries loses one, a root losing its last becomes an empty leaf, and the result is a valid tree in which all other leaves keep their records |
| Btree.BTree.BtRelink | db/btree/bt_delete.c:640-660 | the neighbours of a page are linked to each other and no other page changes |
| Btree.BTree.Unhook | db/btree/bt_delete.c:424-432 | a page is out of its level and on the free list; all other pages are linked around the pages taken out so far |
| Btree.BTree.BtStkacq | db/btree/bt_delete.c:146-280 | the search terminates with the stack holding exactly the root-to-parent path, with child indices, of the given leaf |
| Btree.BTree.MoveRight | db/btree/bt_delete.c:175-217 | one step right turns the path of a leaf into the path of the next leaf of the chain |
| Btree.BTree.MoveLeft | db/btree/bt_delete.c:230-274 | one step left turns the path of a leaf into the path of the previous leaf of the chain |
| Btree.BTree.Seq | db/btree/bt_seq.c:78-135 | R_CURSOR returns the smallest key at or after the given one, R_FIRST and R_LAST the smallest and the largest of all, as do R_NEXT and R_PREV on an unset cursor, and from a record the smallest after or the largest before it; not-found exactly when the map has none, and then the cursor stays; the data are the bytes of the key returned and the cursor names it; after a delete R_PREV gives the record before the cursor if and only if the map is empty, R_NEXT the one after if and only if the key has not come back |
| Btree.BTree.SeqFirst | db/btree/bt_seq.c:180-200 | the walk down the left edge ends at the smallest record, or reports that there is none |
| Btree.BTree.SeqLast | db/btree/bt_seq.c:201-222 | the walk down the right edge ends at the largest record, or reports that there is none |
| Btree.BTree.SeqNext | db/btree/bt_seq.c:279-297 | from a record, the smallest record after it, across the leaf chain |
| Btree.BTree.SeqPrev | db/btree/bt_seq.c:298-322 | from a record, or from just past the last record of a leaf, the largest record before it, across the leaf chain |
| Btree.BTree.BtFirst | db/btree/bt_seq.c:343-433 | the smallest record at or after a key, or none |
| Cursors.SplitMovesCursor | db/btree/bt_split.c:707-724 | after a split the cursor names its record if and only if not (the slot is on the left page, at or before the cursor, and the cursor index is the last of the left entries or beyond) |
| Cursors.CursorSlips | db/btree/bt_split.c:707-724 | four records and one put before them: the cursor on the second ends on the third |
| Cursors.RemoveMovesCursor | db/btree/bt_delete.c:489-523 | a deletion on the leaf leaves the cursor on its record, and moves it to ACQUIRE with the saved key when the record is its own |
| Cursors.DropMovesCursor | db/btree/bt_delete.c:541-630 | the same when the deletion also takes the leaf out of the tree |
| Cursors.InsertKeepsNames | db/btree/bt_put.c:222-226 | an insertion on any leaf leaves the cursor on its record |
| Split.PSplit | db/btree/bt_split.c:614-775 | the number of old entries on the left and the side of the slot are `CutOf` of the entries, the index, the size and the page; left followed by right equals the old entries with the slot at `skip` if and only if `skip > 0` or the item is below half a page; then both pages fit and are non-empty, and the slot is on the page and index returned; otherwise exactly a second slot is open |
| Split.StopFacts | db/btree/bt_split.c:637-699 | wherever the first loop is, it stops with both pages fitting and the left filled to half by its last entry; no old entry is left behind if and only if the new item is first and takes half a page |
| Split.SecondSlot | db/btree/bt_split.c:731-744 | two half-page records and a third before them: the slot appears on both pages |
| Split.FillLeft | db/btree/bt_split.c:637-699 | the left page is a prefix of the entries around the slot, stops at the half-page mark, leaves an entry for the right, and both sides fit |
| Split.FillRight | db/btree/bt_split.c:738-772 | the right page is the remaining entries around the slot |
| Split.Cut | db/btree/bt_split.c:369-382 | an append to the last page of a level moves nothing; any other split is that of `PSplit`; either way the cut is good and is `CutOf` |
| Split.SplitKeepsOrder | db/btree/bt_split.c:614-775 | any cut with its slot reads in order as the old entries with one inserted |
| SplitSteps.HalvesFit | db/btree/bt_split.c:614-775 | the halves of a good cut satisfy the size rule again: they fit and no entry takes more than half a page |
| SplitSteps.SplitDone | db/btree/bt_split.c:345-434 | a page split around an entry it has no room for gives the tree with the entry, but for the parent not knowing the right half |
| SplitSteps.RootSplitDone | db/btree/bt_split.c:450-483 | a root split around an entry gives the complete tree with the entry, one level higher |
| SplitSteps.Shorten | db/btree/bt_split.c:170-207 | no prefix that sorts after the left half and saves space is shorter than the one chosen |
| SplitSteps.OneByteSeparates | db/btree/bt_split.c:170-207 | between aaaa and twelve times b the parent gets one byte, and 12 bytes in place of 24 |
| Layout.ThresholdIsExact | db/btree/bt_open.c:310-325 | every pair kept inline takes at most half a page with its slot if and only if the threshold does not wrap |
| Layout.TooManyKeys | db/btree/bt_open.c:320-325 | 512-byte pages with 40 keys: the threshold is 65534 and the half-page rule fails |
| Layout.MinKeysFit | db/btree/bt_open.c:310-325 | as many inline pairs as were asked for always fit on a page if and only if that leaves each of them 42 bytes |
| CacheSize.CacheHoldsFive | db/btree/bt_open.c:301-308 | the pool gets at least five pages if and only if the cache size, raised and rounded as the code does, does not wrap when rounded up to pages |
| CacheSize.NoPages | db/btree/bt_open.c:301-308 | 514-byte pages and a cache of 0xfffffffd bytes: the pool gets no page at all |
| CacheSize.PowersOfTwo | db/btree/bt_open.c:301-308 | for page sizes that are powers of two the pool always gets at least five pages |
| CacheSize.PagesAre | db/btree/bt_open.c:301-308 | for powers of two the pool gets the cache size divided by the page size, rounded up, and five at least |
| Grow.SplitPage | db/btree/bt_split.c:345-434 | moving the upper entries of any page to a new right sibling keeps the tree invariant up to the entry the parent owes |
| Grow.InsertSep | db/btree/bt_split.c:219-252 | giving the parent the owed separator restores the full tree invariant |
| Grow.SplitRoot | db/btree/bt_split.c:450-483 | a root split restores the full tree invariant with one more level |
| Grow.MoveBound | db/btree/bt_split.c:170-210 | any key above the left half and not above the right half may be the bound between two leaves: the tree invariant holds with it |
| Shrink.ShrinkTree | db/btree/bt_delete.c:380-461 | taking out an emptied leaf, the single-entry ancestors above it and one entry of the next keeps the tree invariant, intervals of the neighbours growing over the gap, even when a first child goes and its stale key stays |
| Shrink.OnlyChain | db/btree/bt_delete.c:419-428 | if the chain of single entries reaches the root there is no other page in the tree |
| Shape.LevelDisjoint | db/btree/btree.h:60-108 | two pages of one level whose intervals share a point are the same page |
| Steps.StepPrune | db/btree/bt_delete.c:380-461 | the pruned tree over the disk holds the same records and all remaining leaves are unchanged |
| Steps.StoringSpares | db/btree/bt_overflow.c:143-185 | storing data leaves a page outside the tree and without entries so, and turns it into an overflow page if and only if the chain takes it |
| Records.OnePlace | db/btree/bt_search.c:67-137 | a key is at one place in the tree |
| Position.PositionUnique | db/btree/bt_search.c:67-137 | leaf, index and exact flag of a key are unique, so whatever returns a position returns what a search from the root returns |
| Position.PositionFinds | db/btree/bt_search.c:67-137 | the position is exact if and only if the key is in the tree, and then holds its record |
| Position.RoutingIgnoresFirstKey | db/btree/bt_search.c:79-136 | whatever is stored as the key at index 0 of an internal page, the child chosen is the same, and only that one |
| Position.RouteCovers | db/btree/bt_search.c:120-136 | the child chosen is the one whose interval holds the key |
| Position.SeparatorsSorted | db/btree/bt_split.c:244-249 | separators from index 1 on are strictly increasing in every internal page |
| Position.FirstFrom | db/btree/bt_seq.c:279-297 | the entry at an index, or the first of the next leaf, is the smallest record of the whole tree from that point on |
| Position.LastBefore | db/btree/bt_seq.c:298-322 | the entry before an index, or the last of the previous leaf, is the largest record of the whole tree before that point |
| Position.FromDeleted | db/btree/bt_seq.c:259-268 | the first key at or after a deleted one answers for the last before it if and only if there are no keys, and for the first after it if and only if the deleted key has not come back |
| Position.GoalsInWords | db/btree/bt_seq.c:170-322 | what a scan step looks for, spelt out over the keys of the map: the smallest at or after, the smallest after and the largest before a key |
| Position.EndsInWords | db/btree/bt_seq.c:180-222 | the same for the two ends: the smallest and the largest of all keys, or no keys at all |
| Search.Probe | db/btree/bt_search.c:79-136 | the binary search of one page gives the match or exact insertion point on a leaf and the child to follow on an internal page, relying on order from index 1 only |
| Search.ProbeIgnoresFirstKey | db/btree/bt_search.c:79-136 | two searches of an internal page, with any two entries at index 0, choose the same child |
| Search.BtCmp | db/btree/bt_utils.c:158-207 | the sign is that of the key order, except that the first entry of the first page of an internal level is below every key |
| Sideways.NextLeaf | db/btree/bt_delete.c:175-217 | the leaf that starts where this one ends is its right sibling |
| Hint.FastProbe | db/btree/bt_put.c:268-323 | on any page, emptied ones included, reports a hit exactly when the tests hold for some index, and then that one |
| Hint.OrderHits | db/btree/bt_put.c:268-323 | on a leaf with records the tests hold if and only if there is room and the key sorts from the last key of the last leaf on, or up to the first key of the first; the index is after that key, before it, or on it if equal |
| Hint.HitIsPosition | db/btree/bt_put.c:268-323 | a hit on any page is the position a search would find if and only if the page is a leaf of the tree and, if emptied, its stale key is not the one sought |
| Hint.HitOnEmptied | db/btree/bt_put.c:278-309 | on a page without entries the tests hold if and only if the hint is to prepend, the page is a leaf with no page before it and room, and the key is not after the stale one |
| Hint.DeleteKeepsHint | db/btree/bt_delete.c:476-526 | any deletion leaves a good hint good: its page is a leaf with records, or is spent, and under a hint to prepend every record left sorts after the stale key |
| Hint.HitOnFreedPage | db/btree/bt_put.c:278-309 | a file meeting the disk and tree invariants, its two leaves emptied and freed under a hint to prepend: a smaller key passes the tests on the freed page, and a search leads to the root |
| Keys.DefCmp | db/btree/bt_utils.c:221-239 | the sign is that of byte-wise lexicographic order, and zero only for equal strings |
| Keys.RankIsLexicographic | db/btree/bt_utils.c:210-239 | ranks order byte strings as lexicographic order does, and are distinct for distinct strings |
| Keys.DefPfx | db/btree/bt_utils.c:251-266 | for a before b the prefix of b of that length is after a and not after b, and no shorter prefix is after a |
| PageStore.Store.constructor | db/btree/bt_open.c:373-405 | a new file has two pages, each with its owner, and nothing free |
| PageStore.Store.BtFree | db/btree/bt_page.c:61-74 | the page heads the free list and the store keeps its invariant |
| PageStore.Store.BtNew | db/btree/bt_page.c:87-102 | the page is the head of the free list, or new at the end of the file when the list is empty; it was not pinned and the store keeps its invariant |
| PageStore.Store.OvflGet | db/btree/bt_overflow.c:84-130 | the bytes returned are exactly those stored on the chain |
| PageStore.Store.OvflPut | db/btree/bt_overflow.c:143-185 | a new chain holds exactly the data, on as few pages as its bytes allow and one at least; free pages are used before the file grows, and everything in use stays as it was |
| PageStore.Store.OvflDelete | db/btree/bt_overflow.c:197-233 | every page of the chain, and no other, is on the free list |
| PageStore.Recycle | db/btree/bt_overflow.c:84-233 | deleting a chain and storing a string of the same length reads back that string, allocates no page and leaves the free list as it was |
| Storage.PagesPartitioned | db/btree/bt_overflow.c:84-233 | free list and chains have no repeated page, are pairwise disjoint and apart from the tree, and with the tree cover every page after the first |
| Storage.LengthDecides | db/btree/bt_overflow.c:105-130 | the number of pages of a chain is determined by the size of its data |
| Storage.TakesNearest | db/btree/bt_overflow.c:143-185 | a chain takes a given free page if and only if it needs more pages than are before it on the free list |
| Backing.Drive | db/mpool/mpool.c:132-277 | a pool that makes any legal sequence of calls reads at each get what its user holds at that point, presents the pages of that user at the end and stays within its limit |
| Backing.OpenOn | db/btree/bt_open.c:373-405 | a new tree on a new pool of at least five pages: pool and store agree and the tree is empty |
| Backing.GetOn | db/btree/bt_get.c:66-108 | a get on a tree backed by a pool answers as the map and leaves the tree backed: the pool presents its pages, pins and changes, within its limit |
| Backing.PutOn | db/btree/bt_put.c:69-252 | so does a put, splits and chains included |
| Backing.DeleteOn | db/btree/bt_delete.c:65-132 | so does a delete by key or cursor, with all the pages it frees |
| Backing.SeqOn | db/btree/bt_seq.c:78-135 | so does a step of a scan, which returns the same keys, flag by flag |
| Backing.RunOn | db/mpool/mpool.c:132-277 | so does every run from an empty file, answering as the map, whatever the pool evicts |
| CircleQ.InsertHead | db/include/queue.h:213-221 | a circular list that reads as a sequence both ways reads as that sequence with the element in front, and only links of its own elements changed |
| CircleQ.InsertTail | db/include/queue.h:223-231 | the same with the element at the end |
| CircleQ.Remove | db/include/queue.h:233-244 | the same with the element gone |
| Mpool.Pool.constructor | db/mpool/mpool.c:75-110 | an open pool is well formed and presents the pages of the file |
| Mpool.Pool.Get | db/mpool/mpool.c:167-247 | the page handed out holds the latest contents and is pinned, also if it was already; no contents and no other pin change; what is evicted, if anything, is the unpinned page asked for longest ago, and only when the cache is full; with fewer pins than the limit the cache stays within it; a page past the end is refused and nothing changes |
| Mpool.Pool.New | db/mpool/mpool.c:132-161 | the next page number is handed out pinned, with the same guarantees |
| Mpool.Pool.Put | db/mpool/mpool.c:253-277 | the page is unpinned and keeps its contents; a changed page must be put dirty |
| Mpool.Pool.Sync | db/mpool/mpool.c:304-323 | no page is dirty and the file holds the latest contents of every page not being changed |
| Mpool.Pool.TakeBkt | db/mpool/mpool.c:329-381 | contents and pins stay; at most the oldest unpinned page leaves; the limit is exceeded only if as many pages are pinned |
| Mpool.Pool.Evict | db/mpool/mpool.c:346-368 | a victim leaves both queues, written first if dirty, and every page reads as before |
| Mpool.Pool.Flush | db/mpool/mpool.c:387-410 | the page is in the file and clean, and every page reads as before |
| Mpool.Pool.Look | db/mpool/mpool.c:416-436 | the walk of the hash queue finds the bucket of a page if and only if the page is resident |
| Mpool.VictimIsOldest | db/mpool/mpool.c:346-368 | the first unpinned bucket of the LRU queue holds the unpinned page whose last get or new is oldest |
| Mpool.NotAllPinned | db/mpool/mpool.c:336-379 | with fewer pins than the limit a full cache has an unpinned page |
| Mpool.AttachedOk | db/mpool/mpool.c:157-159 | putting a free bucket on its two queues keeps every resident page once on the LRU queue and once on the hash queue of its number |
| Mpool.DetachedOk | db/mpool/mpool.c:346-368 | so does taking one off |
| PoolRuns.Run | db/mpool/mpool.c:132-323 | over every run of legal calls each get returns the latest contents, whatever was evicted, and the cache never exceeds its limit; a run stops only at an illegal call |
| Slotted.SlottedPage.Insert | db/btree/bt_put.c:205-220 | the page stays well formed (items tile the item area) and its decoded items are the old ones with the new one at its index |
| Slotted.SlottedPage.Delete | db/btree/bt_delete.c:504-517 | the page stays well formed and its decoded items are the old ones without that index, every other item keeping its bytes |
| Slotted.SlottedPage.CloseUp | db/btree/bt_delete.c:511-517 | both offset loops: offsets below the hole move by the item length and close up over the index |
| Slotted.DeletedOk | db/btree/bt_delete.c:435-448 | the memmove and offset adjustment as a relation of pages: well formed, one item fewer, the rest intact |
| Slotted.InsertedOk | db/btree/bt_put.c:205-220 | the same for an insertion |
| Slotted.InsertDelete | db/btree/bt_delete.c:504-517 | deleting what was just inserted restores the decoded page |
| Entries.LeafRoundTrip | db/btree/btree.h:172-202 | a leaf entry written and read back is the same entry, and its length is the one its header gives |
| Entries.InternalRoundTrip | db/btree/btree.h:120-145 | the same for an internal entry |
| Entries.EntryBytes | db/btree/btree.h:120-202 | the bytes of any entry: key size, data size or child page, flags, key, data or the page and size of its chain, and up to three bytes of padding |
| Entries.ReadsBack | db/btree/btree.h:129-131 | what is read at an index of a byte page is the entry at that index |
| Entries.FreeSpace | db/btree/btree.h:87-108 | `upper - lower` is what the entry sizes leave, so the room test of the code is the one on entries |
| Entries.InsertEntry | db/btree/bt_put.c:200-220 | an entry that fits by its size fits the byte page, which then holds the entries with it inserted |
| Entries.DeleteEntry | db/btree/bt_delete.c:504-517 | the byte page then holds the entries without it |
| Conv.PgOut | db/btree/bt_conv.c:134-200 | on internal and leaf pages every number of the index and the entries, and on all pages those of the header, read high byte first, equal those of the page read low byte first; overflow references are turned where the flags say so, flags stay, and no other byte moves |
| Conv.PgIn | db/btree/bt_conv.c:66-132 | from any such disk form of a page it restores the page |
| Conv.OutIsForm | db/btree/bt_conv.c:134-200 | what the loops do byte by byte is that disk form |
| Conv.FormIsOut | db/btree/bt_conv.c:66-132 | and only that: the numbers fix every byte |
| Conv.OutAndIn | db/btree/bt_conv.c:66-200 | out and in again restores the page byte for byte |
| Conv.WellFormedConverts | db/btree/bt_conv.c:91-131 | every well-formed page whose conversion stays inside its items is one that converts and comes back |
| Conv.StaysInside | db/btree/bt_conv.c:108-131 | without overflow keys the conversion of an entry stays inside it if and only if it has no overflow data or at least four key bytes |
| Conv.OneByteTooFar | db/btree/bt_conv.c:108-131 | with overflow data under a shorter key it reaches exactly one byte beyond |
| Conv.PastTheEnd | db/btree/bt_conv.c:108-131 | any 512-byte page with one such entry at its end is well formed, and the conversion passes its end |
| Conv.NotRestored | db/btree/bt_conv.c:108-131 | out and in again over two adjoining entries, the first of this kind, restores them if and only if the three bytes both conversions touch are equal |
| Instances.PrevMisses | db/btree/bt_seq.c:259-268 | two records, the second deleted under the cursor: R_PREV finds nothing |
| Instances.ChainLost | db/btree/bt_put.c:139-183 | big data put twice under a key, the second time not to overwrite: one chain is lost |
| Instances.PutDeletePut | db/btree/bt_put.c:278-309 | put, delete of the only record and put again on a new tree works, for any two keys |
| Instances.RoomyPut | db/btree/bt_put.c:205-226 | in any tree, a put smaller than the room on the page of the cursor leaves the cursor on its record |
| ObjectPath.EscapeRoundTrip | src/cim/OW_CIMObjectPath.cpp:631-765 | unescaping an escaped string gives the string, for every string |
| ObjectPath.UnescapeEscape | src/cim/OW_CIMObjectPath.cpp:713-765 | the same in the middle of any text |
| ObjectPath.UnescapeHex | src/cim/OW_CIMObjectPath.cpp:661-708 | a backslash, x or X, and one to four digits of either alphabet stand for the character of that number, or the replacement character above 127, whatever follows |
| ObjectPath.UnescapePair | src/cim/OW_CIMObjectPath.cpp:725-757 | what each of the other escapes stands for; an unknown one keeps its backslash and one at the end is dropped |
| ObjectPath.UnescapeRest | src/cim/OW_CIMObjectPath.cpp:684-688 | an x without digits is dropped, and any other character stands for itself |
| ObjectPath.EscapeFirst | src/cim/OW_CIMObjectPath.cpp:643-655 | the seven characters that are escaped, and how; the others stay |
| ObjectPath.ScanKeys | src/cim/OW_CIMObjectPath.cpp:524-622 | the quote-aware scan of any keys, each written with quotes and escapes or bare, returns those keys, whatever quotes, commas, equals signs or backslashes the quoted values hold |
| ObjectPath.RestRoundTrip | src/cim/OW_CIMObjectPath.cpp:445-622 | namespace, class and keys of a printed local path are parsed back |
| ObjectPath.RoundTrip | src/cim/OW_CIMObjectPath.cpp:346-622 | a printed local instance path is parsed back to itself if and only if no value contains `://` |
| ObjectPath.PrintAndParse | src/cim/OW_CIMObjectPath.cpp:371-622 | the same of the printing and parsing loops |
| ObjectPath.UrlValue | src/cim/OW_CIMObjectPath.cpp:457-484 | a key whose value is a URL is not parsed back |
| ObjectPath.EscapedScheme | src/cim/OW_CIMObjectPath.cpp:631-657 | escaping neither makes nor breaks a `://` |
| ObjectPath.Escape | src/cim/OW_CIMObjectPath.cpp:631-657 | the loop yields the escaped form that `UnescapeEscape` inverts |
| ObjectPath.UnEscape | src/cim/OW_CIMObjectPath.cpp:713-765 | the loop, hex escapes included, yields the text the escapes stand for |
| ObjectPath.ParseKeys | src/cim/OW_CIMObjectPath.cpp:524-616 | the key loop accepts and rejects as the scan does, which `ReadKeys` and `RefuseKeys` describe |
| ObjectPath.ReadKeys | src/cim/OW_CIMObjectPath.cpp:524-616 | any keys, each with or without quotes, are read back |
| ObjectPath.RefuseKeys | src/cim/OW_CIMObjectPath.cpp:583-587 | a name without an equals sign, alone or after other keys, is refused, but for a single character after a comma, which is skipped |
| PathForms.Trims | src/cim/OW_CIMObjectPath.cpp:448-453 | trimming takes the six kinds of blanks off both ends and nothing else |
| PathForms.NameSpaceIs | src/cim/OW_CIMNameSpace.cpp:193-206 | a namespace loses the blanks around it and then the slashes in front |
| PathForms.ParseWritten | src/cim/OW_CIMObjectPath.cpp:445-622 | every path with blanks around it, a URL with or without port, a slash or nothing in front, a namespace or none (then root), and keys with or without quotes is read as what it says |
| PathForms.ParseNothing | src/cim/OW_CIMObjectPath.cpp:445-587 | a blank text is no path; a last key without an equals sign is not found |
| PathForms.NoSlash | src/cim/OW_CIMObjectPath.cpp:457-467 | a URL without a slash after it is an invalid parameter |
| PathForms.NoKeys | src/cim/OW_CIMObjectPath.cpp:498-523 | so is a path without a dot or with nothing after it |
| PathForms.RemoteRoundTrip | src/cim/OW_CIMObjectPath.cpp:371-622 | a path on another host is printed and parsed back to itself whatever its values hold, a missing protocol or host as the default and a null value as the text null |
| PathForms.LocalRoundTrip | src/cim/OW_CIMObjectPath.cpp:371-622 | on the local host, with null values as well, if and only if no value contains `://` |

## Left out

* Overflow keys, `bt_preserve` and the big-key branches of the split: keys satisfy `|key| + 8 <= bt_ovflsize`.
* Duplicate keys (and with them CURS_AFTER, CURS_BEFORE, `__bt_snext`, `__bt_sprev`), R_CURSOR puts, and recno trees.
* I/O, allocation and lock failures, `__dbpanic`, file handling, `bt_close`, the metadata page and its conversion (`mswap`), statistics and debugging code.
* The fixed depth of the parent stack (50) and the 32-bit range of page numbers; 16-bit page sizes are explicit.
* Pool filters that are not the identity, `mpool_close` and `mpool_stat`.
* A page handed out new holds unknown bytes; `PageStore` calls them `junk`, the same for all pages. No contract depends on it.
* `bt_page` and `bt_root` leave a slot which `__bt_split` then fills; `BtPage` and `BtRoot` take the entry and fill it at once.
* The pages of `PageStore` hold sequences of entries; `Slotted` and `Entries` have the byte form. `Slotted` keeps the index array as an array of numbers beside the item bytes, `Conv` has it in the bytes.
* Addresses: the circular queues are maps from bucket names to links, not pointers in memory.
* CIM: whether the host is local is a parameter, the port is kept as text (a port that is not a number is not an error), strings are sequences of characters and the replacement character is one of them, `equals` is equality of values, the URL is kept as parsed (`CIMUrl` trims it and rewrites a local host); `toMOF`, serialization and copy-on-write are not modelled. Values are null or strings.
- Btree.BTree.Put: requires an inline key and a stored pair below half a page, the exact condition of `PSplit` with `skip` left open; and excludes an overwriting put of the stale key itself under a stale hint, where the source removes a record that is not there, with a negative length.
- Btree.BTree.PutFreed: excludes the same put.
- Runs.Lose: excludes the same put.
- Runs.Step: excludes a put that goes astray, which `Runs.Lose` shows to be wrong.
- Runs.Run: stops at a put that goes astray, for the same reason; a run after a lost put is not followed further.
- Btree.BTree.Delete: with R_CURSOR requires a cursor that is unset, in ACQUIRE or on a record; past the last record of its page, where a split leaves it if `Loses` holds, the source removes whatever its index slot holds.
- Btree.BTree.Seq: R_NEXT requires the same, as the source would read beyond the index; R_PREV admits a cursor past the last record, but not on a page that has since been freed.
- PoolRuns.Run: a legal call pins no page twice, at most five, and puts changed pages dirty, as the tree does.
- Conv.OutAndIn: requires that the parts of the page the conversion touches do not overlap, which `WellFormedConverts` gives for well-formed pages whose entries it stays inside; `NotRestored` shows what happens otherwise.
