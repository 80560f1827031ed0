# Disk B+tree index, modelled in Dafny

This project models the core of a disk-based B+tree index of a small
record store. It has three parts:

- **The page store (`PageFile`).** A file of fixed-size pages, addressed
  by page id. It keeps an end-of-file mark and a process-wide read cache
  with least-recently-used eviction. A build switch (`NOCACHE`) turns the
  cache off.
- **The tree node (`BTNode`).** One node page with its on-page layout:
  a 9-byte header, then the keys, then the record ids of a leaf or the
  child ids of a non-leaf. The node does the page-level operations:
  - the sorted leaf insert;
  - the split of a full child;
  - the recursive `insertNonFull`;
  - `locate` down to a leaf entry;
  - `readEntry` and the next-leaf link.
- **The index (`BTreeIndex`).** Page 0 is a header holding the root id
  and the tree height. The index operations are:
  - `open` and `close`, which read and write that header;
  - `insert`, including the three-page tree of the first insert and the
    growth of a new root when the root is full;
  - `locate` and `readForward`, a cursor over leaf entries;
  - the smallest and largest key.

The Dafny modules follow the source files:

| module | file | models |
|---|---|---|
| `BPBase` | bpbase.dfy | return codes, `Int32`, bytes, the 4-byte little-endian copy of an `int`, `RecordId` |
| `PageFile` | pagefile.dfy | `PageFile` (class) and the read cache (class `ReadCache`) of PageFile.cc |
| `NodeLayout` | nodelayout.dfy | capacities and page layout of BTreeNode.h, `IndexCursor`, the node codec `Encode`/`Decode` |
| `NodeSpec` | nodespec.dfy | value-level meaning of the node operations: insert position, routing, leaf insert, split, tree shape (`Typed`), where `locate` lands (`LocateSpec`) |
| `BTreeNode` | btreenode.dfy | class `BTNode` with its arrays and the methods of BTreeNode.cc |
| `BTreeIndex` | btreeindex.dfy | class `BTreeIndex` and the header page of BTreeIndex.cc |

The state follows the source:

- **Disk contents.** The file on disk is a `seq<Page>` field of
  `PageFile`. A write replaces one page, after padding the file with zero
  pages up to it.
- **Cache slots.** The cache slots are an `array<Slot>` of `ReadCache`.
- **Node arrays.** A node's keys, record ids and child ids are arrays,
  updated in place by the shift loops of the leaf insert and the split.
- **Decoded pages.** Every node page is read through the codec: `Decode`
  gives a `NodeImage` value, and `Encode` followed by `Decode` gives back
  the same image (`NodeLayout.DecodeEncode`).
- **Tree shape.** The shape of the tree is a ghost level map
  `lv: map<Int32, nat>`, which gives the level of every page of the tree.
  `Typed(pages, lv)` says four things about every such page:
  - it decodes to a node of the right kind (leaves at level 0);
  - it has at most 2t-1 keys;
  - a leaf's keys are sorted;
  - its children are tree pages one level down.

  Every insert keeps `Typed`, which makes it a preserved invariant.
- **Tree entries.** `TreeEntries(pages, lv)` is the multiset of the
  (key, rid) pairs held by the leaves of the level map. A split keeps
  it, and an insert adds exactly the new pair to it. So after an insert
  the level map's leaves hold every entry they held before, plus one.
  The level map is not proved to hold only pages reachable from the
  root (see "Left out").
- **The reached leaf.** The leaf an insert reached holds the new pair at
  its insert position, among the entries it had just before the pair
  went in (`HoldsInsert`). Those may be half of a leaf split on the way
  down. That leaf is reachable from the root: `Reaches(pages, lv, root,
  path, leaf)` says that following the child slots of `path` from the
  root, one level down per step, ends at it.

The source's own behaviour is kept as written, including where it looks
unintended:

- `insertNonFull` routes a key equal to a separator to the right child;
  `locate` routes it to the left (see Findings).
- A leaf `locate` past the last entry gives the cursor (-1, -1).
- The first insert leaves leaf page 2 empty, and duplicate keys are
  accepted.
- `readEntry` accepts `eid == n`.
- `readForward` on a non-leaf page returns 0, with the cursor and the
  outputs untouched.
- `locate` on an empty index returns 0, with the cursor untouched.
- The return codes the source ignores stay ignored.
- The seek check in `write` assigns the comparison, not the code. On a
  closed store, `write` therefore returns 1, and `close` of an index whose
  page file is not open returns 1, or -1 when pages were handed out.

## Model

| member | source | states |
|---|---|---|
| BPBase.Int32RoundTrip | BTreeNode.cc:41-43 | reading back the four bytes `memcpy` writes for an `int` gives the same `int` |
| PageFile.WritePage | PageFile.cc:104-135 | a page write replaces that page, pads the file with zero pages up to it, and keeps every other page |
| PageFile.VictimUnique | PageFile.cc:171-180 | the eviction rule picks exactly one slot |
| PageFile.OtherStoresStayCoherent | PageFile.cc:115-126 | slots of one descriptor changing leaves every other descriptor's live slots coherent with its file |
| PageFile.ReadCache.constructor | PageFile.cc:20-21 | the static cache starts zero-filled with the clock at 1 |
| PageFile.ReadCache.Find | PageFile.cc:156-164 | returns a slot holding (fd, pid), or -1 exactly when no live slot holds it |
| PageFile.ReadCache.Victim | PageFile.cc:171-180 | returns the first empty slot, else the first slot with the smallest access time |
| PageFile.ReadCache.Touch | PageFile.cc:160 | a hit stamps the slot with `++cacheClock` and changes nothing else |
| PageFile.ReadCache.Fill | PageFile.cc:181-189 | a miss retags the victim slot with (fd, pid), stamps it and stores the page in it |
| PageFile.ReadCache.InvalidatePage | PageFile.cc:117-125 | empties the live slot holding (fd, pid), if there is one, and no other |
| PageFile.ReadCache.InvalidateFile | PageFile.cc:79-85 | empties every live slot of descriptor fd and no other |
| PageFile.PageFile.constructor | PageFile.cc:23-27 | a new store is closed: fd -1, end pid 0 |
| PageFile.PageFile.EndPid | PageFile.cc:94-97 | the end pid is the page count of the open file, and 0 when the store is closed |
| PageFile.PageFile.Open | PageFile.cc:36-68 | fails on an open store, on a mode other than r/R/w/W, or when the OS refuses. Otherwise it takes the descriptor, the pages on disk and end pid size / PAGE_SIZE |
| PageFile.PageFile.Close | PageFile.cc:70-92 | fails on a closed store. Otherwise it empties exactly that descriptor's cache slots and resets fd and end pid |
| PageFile.PageFile.Seek | PageFile.cc:99-102 | fails only without a descriptor |
| PageFile.PageFile.Write | PageFile.cc:104-135 | states each error code: invalid pid; 1 on a closed store; write failure when read-only. Success holds exactly for a valid pid on an open, writable store; the file becomes `WritePage` of the old file, the end pid grows past pid, and the cache loses only that page's slot |
| PageFile.PageFile.Read | PageFile.cc:137-196 | succeeds exactly for 0 <= pid < end pid and gives that page. With the cache on, a hit restamps the hit slot; a miss fills the eviction victim. No other slot changes |
| NodeLayout.CapacitiesAreQuotients | BTreeNode.h:47-51 | the capacities are the quotients of the page size after the 9-byte header, by 12 bytes for a leaf and by 8 bytes (minus one) for a non-leaf |
| NodeLayout.Capacities | BTreeNode.h:47-51 | a full node of 2t-1 keys fits; t >= 2 for both kinds, so 2t-1 >= 3 |
| NodeLayout.LeafFits | BTreeNode.cc:11-13 | header, key array and record-id array of a leaf fit in one page |
| NodeLayout.NonLeafFits | BTreeNode.cc:11-13 | header, key array and child-id array of a non-leaf fit in one page |
| NodeLayout.Repeat | BTreeNode.cc:10 | k copies of a value, as the zero fill of a fresh node buffer |
| NodeLayout.HeaderLayout | BTreeNode.h:44-46 | byte 0 is the node type, bytes 1-4 the key count, bytes 5-8 the next-leaf id, then the keys |
| NodeLayout.DecodeEncode | BTreeNode.cc:52-63 | what `write` stores, `read` gives back: the header and every array slot |
| NodeLayout.DecodeEncodeInts | BTreeNode.cc:11-13 | an array of ints laid out in a row reads back in a row, whatever follows it |
| NodeSpec.Entries | BTreeNode.cc:104-116 | the first n (key, rid) pairs of a leaf image |
| NodeSpec.InsertPos | BTreeNode.cc:105-111 | the slot where the shift loop stops: every key after it is greater, the key before it is at most the new key |
| NodeSpec.InsertPosUnique | BTreeNode.cc:105-111 | that slot is the only one with those two properties |
| NodeSpec.FirstGeq | BTreeNode.cc:248-250 | the slot where `locate`'s scan stops: every key before it is smaller, the key at it is at least the search key |
| NodeSpec.FirstGeqUnique | BTreeNode.cc:248-250 | that slot is the only one with those properties |
| NodeSpec.RoutesOnSortedKeys | BTreeNode.cc:126-127 | on sorted keys the insert slot splits the keys into "at most key" and "greater", and the locate slot into "smaller" and "at least key" |
| NodeSpec.InsertedAt | BTreeNode.cc:105-114 | the array after the shift and store: the prefix kept, x at p, the tail moved up one |
| NodeSpec.LeafInsertEntries | BTreeNode.cc:104-116 | a leaf insert puts (key, rid) among the entries at the insert slot, adds one to n, and keeps the link and the slots past n |
| NodeSpec.LeafInsertMultiset | BTreeNode.cc:104-116 | the entries after a leaf insert are the old ones plus the new pair, as a multiset |
| NodeSpec.MultisetInsert | BTreeNode.cc:104-116 | inserting into a sequence adds the element to its multiset |
| NodeSpec.LeafInsertSorted | BTreeNode.cc:104-116 | a leaf insert keeps the leaf's keys sorted |
| NodeSpec.LeafSplit | BTreeNode.cc:175-192 | leaf split: t-1 entries stay, t move, the two halves together are the old entries, the separator is the right half's first key, the links chain old -> new -> old next, and sortedness is kept |
| NodeSpec.NonLeafSplit | BTreeNode.cc:193-209 | non-leaf split: t-1 keys on each side and the middle key moves up; the keys and child ids of the halves together are the old ones |
| NodeSpec.ParentAfterSplit | BTreeNode.cc:182-188 | the parent after a split gains the separator at slot i and the new child at i+1; everything else is shifted up one, unchanged |
| NodeSpec.SplitHalvesRoomy | BTreeNode.cc:138-143 | both halves of a split have room for another key |
| NodeSpec.LeafInsertKeepsTyped | BTreeNode.cc:104-119 | writing a leaf insert into a tree leaf with room keeps the tree shape |
| NodeSpec.LeafInsertAddsEntry | BTreeNode.cc:104-119 | writing a leaf insert into a tree leaf adds exactly (key, rid) to the tree's entries |
| NodeSpec.LeafInsertOutcome | BTreeNode.cc:104-119 | that write keeps the tree shape, is a run of `insertNonFull` at level 0, and adds exactly the pair to the entries |
| NodeSpec.RewriteKeepsEntries | BTreeIndex.cc:165 | rewriting a page with the node it holds keeps the tree's entries |
| NodeSpec.SplitKeepsEntries | BTreeNode.cc:172-218 | a split keeps the tree's entries: the two halves of a leaf hold its old entries, and non-leaf pages hold none |
| NodeSpec.HalvesOk | BTreeNode.cc:172-210 | both halves of a full child are fit for the child's level |
| NodeSpec.ParentOk | BTreeNode.cc:182-188 | the parent after a split is fit for its level, with children one level down |
| NodeSpec.TypedExtend | BTreeNode.cc:216-218 | the tree shape survives writes of fit pages under a grown level map |
| NodeSpec.TypedThree | BTreeNode.cc:216-218 | the three writes ending a split keep the tree shape under the grown level map |
| NodeSpec.SplitStoredWritten | BTreeNode.cc:216-218 | the three writes in source order leave the left half, the parent and the right half readable on their pages |
| NodeSpec.ThreePuts | BTreeNode.cc:216-218 | three writes to distinct pages each read back and change nothing else |
| NodeSpec.SplitLevelsGrow | BTreeNode.cc:174 | the new sibling joins the tree at the child's level; the parent is at the level above |
| NodeSpec.SplitKeepsTyped | BTreeNode.cc:162-223 | `splitChild` on a tree page keeps the tree shape |
| NodeSpec.ChildInTree | BTreeNode.cc:261 | a child pointer of a tree non-leaf is a tree page one level down |
| NodeSpec.OneChildOk | BTreeIndex.cc:154-157 | a non-leaf with no key whose only child is at some level is fit for the level above |
| NodeSpec.PutExtends | BTreeNode.cc:119 | rewriting a tree page at or below a level, keeping the shape, is a run of `insertNonFull` |
| NodeSpec.ExtendsRefl | BTreeNode.cc:100-150 | doing nothing is such a run |
| NodeSpec.ExtendsChain | BTreeNode.cc:138-144 | a split at one level followed by the insert one level down is a run at that level, and it leaves the parent's page as the split wrote it |
| NodeSpec.SplitChildTyped | BTreeNode.cc:162-223 | after a split, the tree has its shape under the grown level map, starts at the old end of the file, and keeps the non-tree pages |
| NodeSpec.SplitFrame | BTreeNode.cc:216-218 | the split touches no page outside the tree except the new one |
| NodeSpec.SplitChildWritten | BTreeNode.cc:216-218 | the three pages the split writes read back as left half, parent and right half |
| NodeSpec.SplitChildParent | BTreeNode.cc:186-187 | the parent gets the separator at i, keeps child i and gets the new child at i+1 |
| NodeSpec.SplitChildOutcome | BTreeNode.cc:138-142 | after a split, the descent reaches a tree page one level down with room for the key, whichever half the key goes to. The tree holds the same entries, and the parent page reads back as the parent after the split |
| NodeSpec.RootSplitOutcome | BTreeIndex.cc:154-161 | the split of the only child of a new root at the end of the file: the root gets one key, both children are tree pages one level down with room, the tree holds the same entries, and the root page reads back |
| NodeSpec.RootReadBack | BTreeIndex.cc:158-160 | under a new root at the end of the file, the root page reads back as the parent after the split |
| NodeSpec.ReadBackMiddle | BTreeNode.cc:216-218 | the parent page written between the two halves reads back as the parent |
| NodeSpec.SplitChildKeepsAbove | BTreeNode.cc:162-223 | a split keeps every tree page above the parent |
| NodeSpec.SplitChildLands | BTreeNode.cc:141-142 | after the split, child i or i+1 is a tree page one level down with room |
| NodeSpec.SplitLevelsAt | BTreeNode.cc:174 | after a split the old child and the new sibling are both at the child's level |
| NodeSpec.HalvesLand | BTreeNode.cc:141-142 | either half of the split is a landing child with room |
| NodeSpec.RoutedKept | BTreeNode.cc:129-143 | when child i has room, the descent keeps the parent and goes on into child i |
| NodeSpec.RoutedSplit | BTreeNode.cc:138-143 | when child i is full, the split parent gains the child's separator at i, and the descent goes on into child i+1 exactly when key >= it |
| NodeSpec.ReachesStep | BTreeNode.cc:129-144 | a path from child j of a tree non-leaf, preceded by slot j, is a path from that non-leaf to the same page |
| NodeSpec.ReachesSameImages | BTreeNode.cc:216-218 | a path survives any change of the file that keeps the images of the pages it passes |
| NodeSpec.RewriteReaches | BTreeIndex.cc:165 | rewriting a page with the image it holds keeps every path |
| NodeSpec.LocateStep | BTreeNode.cc:242-270 | one step of `locate`: at a leaf it picks the first entry at least k or (-1, -1); at a non-leaf it moves to the child at the scan slot, one level down |
| NodeSpec.LocateLands | BTreeNode.cc:242-270 | `locate` ends at (-1, -1) or at a tree-leaf entry, where the key is at least k and every key before it in the leaf is smaller |
| BTreeNode.UpperThenZeros | BTreeNode.cc:176-180 | a copied upper half followed by zero slots is the slice followed by zeros |
| BTreeNode.ShiftStep | BTreeNode.cc:105-111 | one step of the shift loop keeps its invariant |
| BTreeNode.ShiftedInserted | BTreeNode.cc:112-114 | storing the pair at the stop slot of the shift gives the inserted array |
| BTreeNode.LeafRightImage | BTreeNode.cc:175-180 | the new leaf built by the copy loop is the right half of the split |
| BTreeNode.SeparatorImage | BTreeNode.cc:182-188 | the parent arrays after the shift loops and stores are the parent after the split |
| BTreeNode.NonLeafRightImage | BTreeNode.cc:194-200 | the new non-leaf built by the copy loops is the right half of the split |
| BTreeNode.BTNode.Image | BTreeNode.cc:11-13 | the node as a well-sized image of its header fields and arrays |
| BTreeNode.BTNode.constructor | BTreeNode.cc:4-14 | a fresh node: non-leaf, n 0, next -1, pid -1, zeroed arrays |
| BTreeNode.BTNode.Load | BTreeNode.cc:37-43 | after the load the node's image is the given one |
| BTreeNode.BTNode.Read | BTreeNode.cc:33-45 | succeeds exactly for a page id below the end pid; the node then decodes that page and takes its id. On failure it returns invalid pid and the node is unchanged |
| BTreeNode.BTNode.Write | BTreeNode.cc:52-63 | pid -1 gives -1. Otherwise it returns the store's negative code, else 0 (a closed store's 1 becomes 0, with nothing written); on success the page holds the node's image |
| BTreeNode.BTNode.WriteTo | BTreeNode.cc:71-83 | writes the image to page p and takes p as its id only when the write succeeds |
| BTreeNode.BTNode.GetKeyCount | BTreeNode.cc:89-92 | the key count |
| BTreeNode.BTNode.GetT | BTreeNode.cc:225-231 | t = (capacity + 1) / 2 for the node's kind, with t >= 2 and 2t-1 within the capacity |
| BTreeNode.BTNode.GetNextNodePtr | BTreeNode.cc:299-302 | the next-leaf id |
| BTreeNode.BTNode.SetNextNodePtr | BTreeNode.cc:309-313 | sets only the next-leaf id, returns 0 |
| BTreeNode.BTNode.InitializeRoot | BTreeNode.cc:318-328 | one key and two children, n 1, nothing else changed |
| BTreeNode.BTNode.ReadEntry | BTreeNode.cc:279-293 | fails with -1 exactly on a non-leaf or eid outside 0..n, leaving the outputs; otherwise gives slot eid |
| BTreeNode.BTNode.OpenSlot | BTreeNode.cc:182-185 | the two shift loops move keys i..n-1 and child ids i+1..n up one and keep the rest |
| BTreeNode.BTNode.InsertSeparator | BTreeNode.cc:182-188 | the node becomes the parent after the split with separator sep and new child newPid at i |
| BTreeNode.BTNode.TakeUpperLeaf | BTreeNode.cc:176-180 | the copy loop takes the upper t entries of the full leaf; the other slots stay zero |
| BTreeNode.BTNode.TakeUpperNonLeaf | BTreeNode.cc:194-200 | the copy loops take the upper t-1 keys and t child ids; the other slots stay zero |
| BTreeNode.BTNode.SplitFrom | BTreeNode.cc:172-210 | the fresh node becomes the right half on page newPid, the old child the left half, and the separator is returned |
| BTreeNode.BTNode.SplitLeafFrom | BTreeNode.cc:175-192 | the leaf case of that |
| BTreeNode.BTNode.SplitNonLeafFrom | BTreeNode.cc:193-209 | the non-leaf case of that |
| BTreeNode.BTNode.StoreSplit | BTreeNode.cc:216-218 | the three writes in order: old child, parent, new node |
| BTreeNode.BTNode.SplitLoaded | BTreeNode.cc:172-218 | the split of a loaded full child: the parent image after the split, and the three pages stored |
| BTreeNode.BTNode.ReadChild | BTreeNode.cc:166-171 | reads child i into a fresh node, failing exactly when its id is not below the end pid |
| BTreeNode.BTNode.SplitChild | BTreeNode.cc:162-223 | -1 on a leaf and -2 when the child cannot be read, both leaving all unchanged; otherwise 0, with the parent the split image and the three pages stored |
| BTreeNode.BTNode.ShiftRight | BTreeNode.cc:105-111 | the shift loop stops at the insert slot, having moved the greater entries up one |
| BTreeNode.BTNode.ShiftInsert | BTreeNode.cc:104-116 | the node becomes the leaf insert of its old image |
| BTreeNode.BTNode.ChildSlot | BTreeNode.cc:126-127 | the child slot is the insert slot of the key |
| BTreeNode.BTNode.InsertIntoLeaf | BTreeNode.cc:104-121 | the leaf page becomes the leaf insert of the old image. The tree keeps its shape, and its entries gain exactly (key, rid) |
| BTreeNode.BTNode.SplitFullChild | BTreeNode.cc:138-141 | splits child i on page newPid and picks i+1 exactly when key >= separator. That child is a tree page with room, and the tree holds the same entries |
| BTreeNode.BTNode.SplitOnlyChild | BTreeIndex.cc:154-161 | the new root's only child, a full tree page, is split with its sibling after it. The root becomes the parent after that split, with one key. Both its children are tree pages one level down with room, the root is a tree page one level up, and the tree holds the same entries |
| BTreeNode.BTNode.SplitFirst | BTreeIndex.cc:160 | that split of child 0: the root holds the separator between the halves |
| BTreeNode.BTNode.PrepareChild | BTreeNode.cc:129-143 | reads the child at the insert slot i and splits it first when full (newPid +1); the node returned is child j of the parent afterwards, has room and is one level down, and the tree holds the same entries. `Routed`: when child i had room, j == i and the parent, the pages and the level map are unchanged; otherwise the parent is `AfterSplit` at slot i with the new separator, and j is i+1 exactly when key >= that separator |
| BTreeNode.BTNode.NextChild | BTreeNode.cc:129-143 | what the descent uses of that: child j of the parent afterwards, with room, one level down, the same entries, and the parent kept when child i had room |
| BTreeNode.BTNode.SplitAndReload | BTreeNode.cc:138-142 | split, re-pick and re-read: the parent becomes `AfterSplit` at slot i with the old child's `Separator`; j is i+1 exactly when key >= that separator, and the node read back is child j, has room and is one level down. The tree holds the same entries |
| BTreeNode.BTNode.ReadTreeChild | BTreeNode.cc:129-130 | child i read into a fresh node is a tree page one level down |
| BTreeNode.BTNode.ReloadTreeChild | BTreeNode.cc:142 | the re-read gives child j of the parent (node.pid == pids[j]), a tree page one level down with room |
| BTreeNode.BTNode.InsertNonFull | BTreeNode.cc:100-150 | returns 0. The tree keeps its shape, pages outside it and above the level are kept, and new pages are numbered from newPid, now the end pid. The tree's entries are the old ones plus (key, rid), and the reached leaf holds the pair at its insert position. At a leaf, the page becomes the leaf insert. A non-leaf whose child for key has room is itself unchanged. The returned path leads from this page to the reached leaf (`Reaches`) |
| BTreeNode.BTNode.InsertBelow | BTreeNode.cc:122-145 | the non-leaf case of that: the entries gain exactly the pair, the node is unchanged when its child for key has room, and the path from this page reaches the leaf |
| BTreeNode.BTNode.Descend | BTreeNode.cc:144 | the recursive insert into child j: the entries gain exactly the pair, this page's own page is kept, and the path, slot j followed by the child's path, leads from this page to the leaf |
| BTreeNode.BTNode.KeyScan | BTreeNode.cc:248-250 | the scan stops at the first key at least the search key |
| BTreeNode.BTNode.Locate | BTreeNode.cc:242-270 | returns 0 and the cursor `LocateSpec` gives from this node; no page changes |
| BTreeNode.BTNode.LocateBelow | BTreeNode.cc:261-264 | from child i, the cursor `LocateSpec` gives there |
| BTreeIndex.SetRootPid | BTreeIndex.cc:332-336 | `getRootPid` of the result is pid, and bytes 4 on are unchanged |
| BTreeIndex.SetTreeHeight | BTreeIndex.cc:348-352 | `getTreeHeight` of the result is the height, and the other bytes are unchanged |
| BTreeIndex.HeaderPage | BTreeIndex.cc:85-89 | the header page `close` writes: root id and height read back, the rest zero |
| BTreeIndex.TypedKept | BTreeIndex.cc:165 | rewriting pages outside the tree keeps its shape |
| BTreeIndex.Rewrite | BTreeIndex.cc:136 | rewriting a page with the node it holds changes no decoded page |
| BTreeIndex.LeftmostLeaf | BTreeIndex.cc:258-262 | the leaf reached by always taking child 0 is a tree leaf |
| BTreeIndex.RightmostLeaf | BTreeIndex.cc:270-274 | the leaf reached by always taking child n is a tree leaf |
| BTreeIndex.LeftmostStep | BTreeIndex.cc:260-261 | from a non-leaf, the leftmost leaf is that of child 0 |
| BTreeIndex.RightmostStep | BTreeIndex.cc:272-273 | from a non-leaf, the rightmost leaf is that of child n |
| BTreeIndex.LocateSmallest | BTreeIndex.cc:254-264 | `locate` of the smallest key lands on entry 0 of the leftmost leaf, or gives (-1, -1) when that leaf is empty |
| BTreeIndex.LeafBounds | BTreeIndex.cc:263 | in a tree leaf, keys[0] is the least and keys[n-1] the greatest of its keys |
| BTreeIndex.BootLocateMisses | BTreeNode.cc:248-250 | after the first insert, `locate` of that very key gives (-1, -1) |
| BTreeIndex.LocateRight | BTreeNode.cc:248-250 | corrected routing: equal keys go right, as in `insertNonFull`; it lands on a tree-leaf entry or (-1, -1) |
| BTreeIndex.BootLocateRightFinds | BTreeIndex.cc:121-146 | with that routing, the key after the first insert is found at (3, 0) with its rid |
| BTreeIndex.PutThree | BTreeIndex.cc:128-133 | the three bootstrap writes each read back and change nothing else |
| BTreeIndex.BootTyped | BTreeIndex.cc:122-133 | root 1 over leaves 2 and 3 is a tree of height 1 |
| BTreeIndex.BootShape | BTreeIndex.cc:121-146 | with leaf 3 holding the pair, the 4-page file is the tree of the first insert |
| BTreeIndex.BootFinish | BTreeIndex.cc:135-136 | after leaf 3 takes the pair, the file has that shape, leaf 3 is child 1 of root 1, and pages outside the tree are kept |
| BTreeIndex.RewriteHolds | BTreeIndex.cc:136 | rewriting a page with its own node keeps the shape and the leaf holding the insert |
| BTreeIndex.ExtendsTree | BTreeIndex.cc:171 | an insert run from the root leaves a tree of the same height at the same root |
| BTreeIndex.RootRewrite | BTreeIndex.cc:163-165 | after the insert below the new root and its rewrite, the file is a tree of height h at that root holding the insert. The rewrite keeps the tree's entries and the path from the root to the reached leaf |
| BTreeIndex.BootEntries | BTreeIndex.cc:121-146 | the tree of the first insert holds exactly the one pair |
| BTreeIndex.GrownRoot | BTreeIndex.cc:154-160 | after the split of its only child, the new root holds one key, the separator, between the old root and the sibling |
| BTreeIndex.GrowChain | BTreeIndex.cc:154-167 | the split under the new root followed by the insert is one growth of the tree |
| BTreeIndex.SplitUnder | BTreeIndex.cc:154-161 | the full root gets a new parent on the end page, and the old root is split with its sibling on the next page. The parent then has one key, the separator, between the old root and the sibling (`RootOf`); both have room. The parent is a tree page of height h+1, the tree holds the same entries, and the end pid is two pages further |
| BTreeIndex.InsertFrom | BTreeIndex.cc:163-166 | the insert from the new root and its rewrite leave a tree at that root; its entries gain exactly the pair, and the leaf reached holds it and lies on the returned path from the root. The root page holds the root as the split left it, and pages outside are kept |
| BTreeIndex.NewRoot | BTreeIndex.cc:154-158 | an empty non-leaf with the old root as child 0, on page p |
| BTreeIndex.FirstPage | BTreeIndex.cc:60 | page 0 of the file |
| BTreeIndex.BTreeIndex.constructor | BTreeIndex.cc:24-29 | newPid 0, root -1, height -1, over a closed page file |
| BTreeIndex.BTreeIndex.Open | BTreeIndex.cc:38-74 | passes on the page-file errors and changes nothing then. On success: readOnly iff mode r/R, newPid = end pid, root -1 and height 0 on an empty file, else root and height from page 0; the index is well formed when the file is an index file |
| BTreeIndex.BTreeIndex.ReadHeader | BTreeIndex.cc:45-70 | root and height from page 0, or -1 and 0 on an empty file |
| BTreeIndex.BTreeIndex.Close | BTreeIndex.cc:80-101 | read-only: 0 without writing. Otherwise it writes the header to page 0 and returns -1 when newPid differs from the end pid. It resets root and height and closes the file; a closed page file gives 1 or -1. A well-formed index leaves a file that reopens to the same root and height |
| BTreeIndex.BTreeIndex.Locate | BTreeIndex.cc:200-222 | returns 0; the cursor is untouched on an empty tree, else the cursor `LocateSpec` gives from the root |
| BTreeIndex.BTreeIndex.ReadForward | BTreeIndex.cc:232-252 | invalid pid off the file; 0 with nothing changed on a non-leaf; -1 outside 0..n. Otherwise the entry, with the cursor moved on, or to the next leaf's entry 0 at the end |
| BTreeIndex.BTreeIndex.Insert | BTreeIndex.cc:110-179 | read-only: the read-only code, nothing changed. Empty tree: as `Bootstrap`. Otherwise 0 and still well formed, and the tree's entries are the old ones plus (key, rid). A full root grows the tree by one level under root old newPid, holding the old root's separator between the old root and its sibling. The leaf reached holds the pair and lies on the returned path from the root; for a fresh tree that path is slot 1 of root page 1, ending at leaf page 3 |
| BTreeIndex.BTreeIndex.Bootstrap | BTreeIndex.cc:121-146 | the first insert: root 1, height 1, newPid 4. It returns 0 exactly when the file had at most 4 pages, else -1. On 0 the file is the 3-page tree, its entries are exactly the pair, and leaf 3 is child 1 of root 1 |
| BTreeIndex.BTreeIndex.BootPages | BTreeIndex.cc:122-136 | the page work of that: pages 1-3 written, leaf 3 holds the pair and is child 1 of root 1, other pages kept. A 4-page result holds exactly the pair |
| BTreeIndex.BootHeld | BTreeIndex.cc:122-136 | of the three fresh tree pages, root 1 and leaf 2 hold no entry and leaf 3 holds just the pair; page 0 is outside the tree |
| BTreeIndex.BTreeIndex.BootAdopt | BTreeIndex.cc:138-140 | the index takes root 1, height 1 and newPid 4; the store is unchanged |
| BTreeIndex.BTreeIndex.BootStart | BTreeIndex.cc:122-133 | root 1 over the empty leaves 2 and 3, written; leaf 3 returned in sync with its page |
| BTreeIndex.BTreeIndex.BootNodes | BTreeIndex.cc:122-126 | the three fresh nodes: root with key and children 2, 3; leaf 2 linked to 3; leaf 3 with no next |
| BTreeIndex.BTreeIndex.BootWrite | BTreeIndex.cc:128-133 | the three writes to pages 1, 2, 3 succeed and read back, forming a tree of height 1 |
| BTreeIndex.BTreeIndex.FillLeaf | BTreeIndex.cc:135-136 | leaf 3 takes the pair and is written again; only its page changes |
| BTreeIndex.BTreeIndex.GrowRoot | BTreeIndex.cc:151-169 | a full root: the new root is old newPid, with the old root's separator between the old root and the sibling. The height grows by one, the tree's entries gain exactly the pair, and the leaf that took it lies on the returned path from the new root |
| BTreeIndex.BTreeIndex.GrowInsert | BTreeIndex.cc:163-167 | the insert from the new root: the entries gain exactly the pair, the leaf lies on the path from p, and the root page is as the split left it. The index takes the new root, end pid and height |
| BTreeIndex.BTreeIndex.InsertIntoRoot | BTreeIndex.cc:170-172 | a root with room: root and height unchanged. The tree grew from the end, its entries gain exactly the pair, and the leaf lies on the path from the root |
| BTreeIndex.BTreeIndex.Adopt | BTreeIndex.cc:171 | the index takes the root, height and end pid the insert left, with the store unchanged; the index is well formed |
| BTreeIndex.BTreeIndex.Down | BTreeIndex.cc:260-261 | reads child j, a tree page one level down |
| BTreeIndex.BTreeIndex.GetMinimumKey | BTreeIndex.cc:254-264 | keys[0] of the leftmost leaf |
| BTreeIndex.BTreeIndex.GetMaximumKey | BTreeIndex.cc:266-276 | keys[n-1] of the rightmost leaf |
| BTreeIndex.BTreeIndex.ReadRoot | BTreeIndex.cc:148-149 | the root read into a fresh node |
| BTreeIndex.BTreeIndex.WalkLeft | BTreeIndex.cc:258-262 | the loop ends at the leftmost leaf below the node |
| BTreeIndex.BTreeIndex.WalkRight | BTreeIndex.cc:270-274 | the loop ends at the rightmost leaf below the node |

`Insert` in detail:

- In read-only mode it returns the read-only code and changes nothing.
- On an empty tree it does what `Bootstrap` states.
- Otherwise it returns 0, and the index stays well formed. The level map
  only grows, from the old end of the file on, and pages outside the tree
  are kept. The tree's entries are the old ones plus (key, rid).
- A full root makes old newPid the root and the tree one level higher.
  The new root holds the old root's separator between the old root and
  its sibling. Otherwise root and height are unchanged.
- The leaf reached holds the pair at its insert position.

## Left out

- PageFile.h, RecordFile.h and BTreeIndex.h are not part of this model.
  PAGE_SIZE and CACHE_COUNT are any positive numbers. The node
  capacities are pinned by the bounds of a floor quotient
  (`GeometryOk`), with t >= 2.
- The operating system's file calls (`_open`, `_fstat32`, `_lseek`,
  `_read`, `_write`, `_close`) are not modelled as calls:
  - `Open` receives their results as parameters.
  - An OS read or write on an open descriptor does not fail. The store's
    own `write` still fails with RC_FILE_WRITE_FAILED on a store opened
    read-only, since the OS refuses the write there (PageFile.cc:113).
  - A failing `_fstat32` or `_close` is not modelled.
- PageFile.PageFile.Open: the second constructor taking a file name, and
  the file name itself, are left out.
- Statistics counters (`readCount`, `writeCount`), `DEBUG`, `printNode`,
  `printTree`, the `WARNING` print of `write(p, pf)` and Main.cpp: output
  only.
- Concurrency: the cache is shared process-wide, but the model is
  single-threaded.
- BTreeNode.BTNode.constructor: the one buffer behind the three arrays is
  modelled as three separate arrays. The overlap of the record-id or
  child-id region with the key region of the other node kind is not
  captured. The copy constructor is left out.
- BTreeNode.BTNode.ReadEntry: requires eid < KEYS_PER_LEAF_PAGE when a
  leaf is read at eid == n. The source would read the bytes past the key
  array, which belong to the record-id region.
- BTreeIndex.BTreeIndex.ReadForward: the same requirement, for the same
  reason.
- BTreeNode.BTNode.InsertNonFull and the methods below it: these require
  an open, writable store holding a well-shaped tree (`InTree`). Their
  error exits (a failed node read or write) are proved unreachable there,
  so each return code is 0. A failing OS write is not modelled.
- BTreeIndex.BTreeIndex.Insert: requires a well-formed index and, when
  the tree is not empty, `newPid + treeHeight + 3 <= INT32_MAX`. Page ids
  are 32-bit, and the model does not follow a wrap-around.
- BTreeIndex.BTreeIndex.Insert: no key order beyond single leaves. The
  tree-wide facts are the shape (`Typed`) and the entry multiset
  (`TreeEntries`). Three orderings are not stated:
  - the keys of a non-leaf node are sorted;
  - a separator bounds the keys of the subtrees on either side;
  - the leaf chain runs in key order.
  They need a key-range invariant carried through every split and every
  descent. The routing finding below shows that `locate` breaks the
  ranges for keys equal to a separator in any case.
- BTreeNode.BTNode.InsertNonFull: the same; only a leaf's own keys are
  kept sorted (`Typed`).
- BTreeIndex.BTreeIndex.Insert: the level map `lv` is not proved to hold
  only the pages reachable from the root. `Typed` makes every child of a
  tree page a tree page, but a page of `lv` that no parent points to is
  not ruled out, and `TreeEntries` counts its entries too. The insert
  proves that the leaf it wrote lies on a path from the root
  (`Reaches`), so the new pair is reachable; that no entry counted
  before sits on an unreachable page is not stated.
- BTreeIndex.BTreeIndex.GrowRoot: the same gap in the level map.
- BTreeIndex.BTreeIndex.GrowInsert: the same gap in the level map.
- BTreeIndex.BTreeIndex.InsertIntoRoot: the same gap in the level map.
- BTreeIndex.InsertFrom: the same gap in the level map.
- BTreeNode.BTNode.InsertNonFull: the same gap, for the subtree below the
  page.
- BTreeNode.BTNode.InsertBelow: the same gap, for the subtree below the
  page.
- BTreeNode.BTNode.Descend: the same gap, for the subtree below the page.
- BTreeNode.BTNode.PrepareChild: `Routed` names the new separator as the
  key the split left at slot i of the parent. That it is the old child's
  `Separator` is stated by BTreeNode.BTNode.SplitAndReload.
- BTreeIndex.BTreeIndex.Bootstrap: on a file of more than 4 pages it
  returns -1. The index keeps the new root, height and newPid, as in the
  source, but is then not well formed.
- BTreeIndex.BTreeIndex.constructor: the source leaves `readOnlyMode`
  uninitialised; the model starts it false.
- BTreeIndex.BTreeIndex.GetMinimumKey: requires a non-empty tree
  (rootPid != -1). On an empty index the source's walk does not end:
  - `read(-1)` fails and leaves the fresh node a non-leaf with
    `pids[0] == 0`;
  - on a file without page 0 (a new index) each `read(0)` fails too, so
    the loop at BTreeIndex.cc:258-261 repeats forever;
  - on a file whose page 0 holds the header, it decodes that page as a
    node.
  After the first insert it returns the filler key 0 of the empty
  leaf 2, as the source does.
- BTreeIndex.BTreeIndex.GetMaximumKey: requires a non-empty tree, for the
  same reason (BTreeIndex.cc:270-273, with `pids[n] == pids[0]`). It also
  requires that the rightmost leaf has an entry. `keys[n-1]` of an empty
  leaf is `keys[-1]`: since the keys start at byte 9 of the node buffer
  (BTreeNode.cc:11), that reads bytes 5-8, the next-leaf id.
- PageFile.ReadCache.Touch: the clock `cacheClock` is a C `int`
  (PageFile.cc:20, 160, 183) but is unbounded here. After 2^31 stamps the
  source's clock would wrap: least-recently-used order would break, and a
  stamp of 0 would mark a live slot empty. The model does not follow
  that wrap-around.
- PageFile.ReadCache.Fill: the same unbounded clock (PageFile.cc:183).
- PageFile.PageFile.Open: requires `osFd != 0`. The OS does not hand out
  descriptor 0 while standard input is open. The source would keep fd 0
  but then treat the store as closed (PageFile.cc:42, 72).
- PageFile.PageFile.Open: requires that no live cache slot holds the new
  descriptor. The OS hands out only descriptors no open file holds, and
  `close` empties a descriptor's slots (PageFile.cc:79-85). Slots left by
  a descriptor closed outside `PageFile` are not modelled.
- BTreeIndex.BTreeIndex.Open: the same two requirements.
- PageFile.OtherStoresStayCoherent: each `PageFile` owns its own copy of
  its file's pages, so two stores open on the same file at once are not
  modelled. The source's cache is keyed by descriptor (PageFile.cc:117-119,
  156-157): a write through one descriptor invalidates only that
  descriptor's slot, and another descriptor's slot for the same page stays
  stale. The lemma's coherence holds only because every descriptor has a
  file of its own.
- PageFile.PageFile.Read: the same single-owner file. A cache hit gives
  the page as this store last wrote it; a stale slot left by a write
  through another descriptor of the same file is not modelled.
- NodeLayout.LeafFits: `sizeof(RecordId)` is fixed at 8, two 4-byte
  `int`s with no padding, as on the usual platforms. The byte width of
  `int` is fixed at 4 throughout.
- BTreeIndex.BTreeIndex.Open: requires the file to have at most
  INT32_MAX pages (`newPid` is an `int`). The failing read of page 0 and
  the `pf.close()` after it cannot happen on a non-empty open file, so
  they are not modelled.

## Findings

| source | as written | input that shows it | evidently intended | confidence | as-written member | corrected member |
|---|---|---|---|---|---|---|
| BTreeNode.cc:248-250 | the non-leaf descent of `locate` takes the child at the first key >= searchKey, so a key equal to a separator goes to the left child. `insertNonFull` (BTreeNode.cc:126-127) and the leaf split (BTreeNode.cc:186) put an equal key in the right subtree | `insert(k, r)` into an empty index, then `locate(k)`: the root holds k over the empty leaf 2 and leaf 3 = [k]; `locate` goes to leaf 2 and returns (-1, -1) | route an equal key right in non-leaf nodes (child after every key <= k), which finds (3, 0) holding (k, r) | high; not executed | BTreeIndex.BootLocateMisses | BTreeIndex.LocateRight |

`BTreeIndex.BTreeIndex.Locate` keeps the source's routing (`LocateSpec`).
The corrected routing `LocateRight` stands beside it. For the input above,
`BTreeIndex.BootLocateRightFinds` proves that `LocateRight` finds the pair.
