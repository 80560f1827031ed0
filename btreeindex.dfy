/**
 * The B+tree index of BTreeIndex.cc: a page file whose page 0 holds the
 * root page id and the tree height, and whose other pages are the nodes of
 * the tree. The index opens and closes the file, inserts (key, record id)
 * pairs, growing the tree at the root, and finds and reads leaf entries
 * through an index cursor.
 */
module BTreeIndex {
  import opened BPBase
  import opened PageFile
  import opened NodeLayout
  import opened NodeSpec
  import opened BTreeNode

  /** `getRootPid`: the first four bytes of the header page. */
  function GetRootPid(page: Page): (r: Int32)
    requires GeometryOk()
  {
    DecodeInt32(page[0..4])
  }

  /** `getTreeHeight`: the next four bytes of the header page. */
  function GetTreeHeight(page: Page): (h: Int32)
    requires GeometryOk()
  {
    DecodeInt32(page[4..8])
  }

  /** `setRootPid`: overwrites the first four bytes, so that `getRootPid` reads pid back. */
  function SetRootPid(page: Page, pid: Int32): (r: Page)
    requires GeometryOk()
    ensures GetRootPid(r) == pid
    ensures r[4..] == page[4..]
  {
    Int32RoundTrip(pid);
    var r: Page := EncodeInt32(pid) + page[4..];
    assert r[0..4] == EncodeInt32(pid);
    r
  }

  /** `setTreeHeight`: overwrites the next four bytes, so that `getTreeHeight` reads h back. */
  function SetTreeHeight(page: Page, h: Int32): (r: Page)
    requires GeometryOk()
    ensures GetTreeHeight(r) == h
    ensures r[..4] == page[..4] && r[8..] == page[8..]
  {
    Int32RoundTrip(h);
    var r: Page := page[..4] + EncodeInt32(h) + page[8..];
    assert r[4..8] == EncodeInt32(h);
    r
  }

  /**
   * The header page `close` writes: a zeroed page with the root page id and
   * the height set. Reading it back gives both, and the rest stays zero.
   */
  function HeaderPage(root: Int32, height: Int32): (page: Page)
    requires GeometryOk()
    ensures GetRootPid(page) == root && GetTreeHeight(page) == height
    ensures forall k :: 8 <= k < PAGE_SIZE ==> page[k] == 0
  {
    var p1 := SetRootPid(ZeroPage(), root);
    var p2 := SetTreeHeight(p1, height);
    assert p2[0..4] == p1[0..4];
    assert forall k :: 8 <= k < PAGE_SIZE ==> p2[k] == p2[8..][k - 8] == p1[8..][k - 8] == p1[4..][k - 4];
    p2
  }

  /** The tree page 0 names: `root` at level `height`, with page 0 itself outside the tree. */
  ghost predicate TreeAt(pages: seq<Page>, lv: map<Int32, nat>, root: Int32, height: int)
    requires GeometryOk()
  {
    Typed(pages, lv) && 0 !in lv && root in lv && lv[root] == height
  }

  /**
   * A file `open` can start from: an empty file, a header for an empty
   * tree (root id -1), or a header naming a tree of `lv`'s shape.
   */
  ghost predicate IndexFile(pages: seq<Page>, lv: map<Int32, nat>)
    requires GeometryOk()
  {
    |pages| == 0 || GetRootPid(pages[0]) == -1 || TreeAt(pages, lv, GetRootPid(pages[0]), GetTreeHeight(pages[0]))
  }

  /** Rewriting pages outside the tree keeps its shape. */
  lemma TypedKept(pages: seq<Page>, pages': seq<Page>, lv: map<Int32, nat>)
    requires GeometryOk() && Typed(pages, lv) && |pages| <= |pages'|
    requires forall q :: q in lv && 0 <= q < |pages| ==> pages'[q] == pages[q]
    ensures Typed(pages', lv)
  {
    forall p | p in lv && 0 <= p < |pages'|
      ensures NodeOk(Decode(pages'[p]), lv[p]) && ChildrenOk(Decode(pages'[p]), lv, lv[p])
    {
      assert pages'[p] == pages[p];
    }
  }

  /**
   * Writing a page with the node it already decodes to leaves every page
   * decoding as before, so the tree keeps its shape.
   */
  lemma Rewrite(pages: seq<Page>, lv: map<Int32, nat>, p: Int32, img: NodeImage)
    requires GeometryOk() && WellSized(img) && Typed(pages, lv)
    requires 0 <= p < |pages| && Decode(pages[p]) == img
    ensures |Put(pages, p, img)| == |pages| && Typed(Put(pages, p, img), lv)
    ensures forall q :: 0 <= q < |pages| ==> Decode(Put(pages, p, img)[q]) == Decode(pages[q])
  {
    var r := Put(pages, p, img);
    forall q | q in lv && 0 <= q < |r|
      ensures NodeOk(Decode(r[q]), lv[q]) && ChildrenOk(Decode(r[q]), lv, lv[q])
    {
      if q != p {
        assert r[q] == pages[q];
      }
    }
  }

  /** The leaf `getMinimumKey` reaches from page p: always down child 0. */
  ghost function LeftmostLeaf(pages: seq<Page>, lv: map<Int32, nat>, p: Int32): (leaf: Int32)
    requires GeometryOk() && Typed(pages, lv) && p in lv
    decreases lv[p]
    ensures leaf in lv && lv[leaf] == 0 && Decode(pages[leaf]).isLeaf
  {
    Capacities();
    var img := Decode(pages[p]);
    assert NodeOk(img, lv[p]) && ChildrenOk(img, lv, lv[p]);
    if img.isLeaf then p else LeftmostLeaf(pages, lv, img.pids[0])
  }

  /** The leaf `getMaximumKey` reaches from page p: always down the last child, n. */
  ghost function RightmostLeaf(pages: seq<Page>, lv: map<Int32, nat>, p: Int32): (leaf: Int32)
    requires GeometryOk() && Typed(pages, lv) && p in lv
    decreases lv[p]
    ensures leaf in lv && lv[leaf] == 0 && Decode(pages[leaf]).isLeaf
  {
    Capacities();
    var img := Decode(pages[p]);
    assert NodeOk(img, lv[p]) && ChildrenOk(img, lv, lv[p]);
    if img.isLeaf then p else RightmostLeaf(pages, lv, img.pids[img.n])
  }

  /** A non-leaf page has the leftmost and the rightmost leaf of its first and its last child. */
  lemma LeftmostStep(pages: seq<Page>, lv: map<Int32, nat>, p: Int32)
    requires GeometryOk() && Typed(pages, lv) && p in lv && !Decode(pages[p]).isLeaf
    ensures Decode(pages[p]).pids[0] in lv && LeftmostLeaf(pages, lv, p) == LeftmostLeaf(pages, lv, Decode(pages[p]).pids[0])
  {
    Capacities();
    assert NodeOk(Decode(pages[p]), lv[p]) && ChildrenOk(Decode(pages[p]), lv, lv[p]);
  }

  lemma RightmostStep(pages: seq<Page>, lv: map<Int32, nat>, p: Int32)
    requires GeometryOk() && Typed(pages, lv) && p in lv && !Decode(pages[p]).isLeaf
    ensures 0 <= Decode(pages[p]).n < |Decode(pages[p]).pids|
    ensures var img := Decode(pages[p]); img.pids[img.n] in lv && RightmostLeaf(pages, lv, p) == RightmostLeaf(pages, lv, img.pids[img.n])
  {
    Capacities();
    assert NodeOk(Decode(pages[p]), lv[p]) && ChildrenOk(Decode(pages[p]), lv, lv[p]);
  }

  /**
   * Locating the smallest key goes the way `getMinimumKey` goes and stops
   * at the first entry of the leftmost leaf, or runs off an empty one.
   */
  lemma {:induction false} LocateSmallest(pages: seq<Page>, lv: map<Int32, nat>, p: Int32)
    requires GeometryOk() && Typed(pages, lv) && p in lv
    decreases lv[p]
    ensures var leaf := LeftmostLeaf(pages, lv, p);
      LocateSpec(pages, lv, p, INT32_MIN) ==
        if Decode(pages[leaf]).n > 0 then IndexCursor(leaf, 0) else IndexCursor(-1, -1)
  {
    Capacities();
    var img := Decode(pages[p]);
    LocateStep(pages, lv, p, INT32_MIN, 0);
    if !img.isLeaf {
      LocateSmallest(pages, lv, img.pids[0]);
    }
  }

  /** The leaf a search reaches holds its smallest key first and its largest key last. */
  lemma LeafBounds(pages: seq<Page>, lv: map<Int32, nat>, leaf: Int32)
    requires GeometryOk() && Typed(pages, lv) && leaf in lv && lv[leaf] == 0
    ensures var img := Decode(pages[leaf]);
      img.isLeaf && 0 <= img.n <= KEYS_PER_LEAF_PAGE &&
      forall j :: 0 <= j < img.n ==> img.keys[0] <= img.keys[j] <= img.keys[img.n - 1]
  {
    Capacities();
    assert NodeOk(Decode(pages[leaf]), 0);
  }

  /** The level map of the tree of the first insert: root page 1 over leaves 2 and 3. */
  const BOOT_LEVELS: map<Int32, nat> := map[1 := 1, 2 := 0, 3 := 0]

  /**
   * The file after the first insert into an empty tree: root page 1 with
   * the one key and children 2 and 3, leaf 2 empty and linked to leaf 3,
   * and leaf 3 holding the pair, with no next leaf.
   */
  ghost predicate BootTree(pages: seq<Page>, lv: map<Int32, nat>, key: Int32, rid: RecordId)
    requires GeometryOk()
  {
    Capacities();
    |pages| == 4 && lv == BOOT_LEVELS &&
    var r, l, t := Decode(pages[1]), Decode(pages[2]), Decode(pages[3]);
    !r.isLeaf && r.n == 1 && r.keys[0] == key && r.pids[0] == 2 && r.pids[1] == 3 &&
    l.isLeaf && l.n == 0 && l.nextPage == 3 &&
    t.isLeaf && t.n == 1 && t.keys[0] == key && t.rids[0] == rid && t.nextPage == -1
  }

  /**
   * On that file a search for the inserted key itself stops at the
   * separator, which is equal, goes down to the empty leaf 2, and comes
   * back exhausted: the pair just inserted is not found.
   */
  lemma BootLocateMisses(pages: seq<Page>, lv: map<Int32, nat>, key: Int32, rid: RecordId)
    requires GeometryOk() && BootTree(pages, lv, key, rid) && Typed(pages, lv)
    ensures LocateSpec(pages, lv, 1, key) == IndexCursor(-1, -1)
  {
    Capacities();
    LocateStep(pages, lv, 1, key, 0);
    LocateStep(pages, lv, 2, key, 0);
  }

  /**
   * `locate` routing an equal key right, the way `insertNonFull` places
   * it: down the child past every key at most k.
   */
  ghost function LocateRight(pages: seq<Page>, lv: map<Int32, nat>, p: Int32, k: int): (c: IndexCursor)
    requires GeometryOk() && Typed(pages, lv) && p in lv
    decreases lv[p]
    ensures c == IndexCursor(-1, -1) || (c.pid in lv && lv[c.pid] == 0 && 0 <= c.eid < Decode(pages[c.pid]).n)
  {
    Capacities();
    var img := Decode(pages[p]);
    assert NodeOk(img, lv[p]) && ChildrenOk(img, lv, lv[p]);
    if img.isLeaf then
      var i := FirstGeq(img.keys, img.n, k, 0);
      if i < img.n then IndexCursor(p, i) else IndexCursor(-1, -1)
    else LocateRight(pages, lv, img.pids[InsertPos(img.keys, img.n, k)], k)
  }

  /** Routed that way, the search for the first inserted key finds its pair. */
  lemma BootLocateRightFinds(pages: seq<Page>, lv: map<Int32, nat>, key: Int32, rid: RecordId)
    requires GeometryOk() && BootTree(pages, lv, key, rid) && Typed(pages, lv)
    ensures var c := LocateRight(pages, lv, 1, key);
      c == IndexCursor(3, 0) && Decode(pages[c.pid]).keys[c.eid] == key && Decode(pages[c.pid]).rids[c.eid] == rid
  {
    Capacities();
    var r := Decode(pages[1]);
    assert InsertPos(r.keys, 1, key) == 1;
    var t := Decode(pages[3]);
    assert FirstGeq(t.keys, 1, key, 0) == 0;
  }

  /** A non-leaf holding one key between two children, as `initializeRoot` leaves a fresh node. */
  ghost predicate RootOf(img: NodeImage, key: Int32, left: Int32, right: Int32)
    requires GeometryOk()
  {
    Capacities();
    WellSized(img) && !img.isLeaf && img.n == 1 && img.keys[0] == key && img.pids[0] == left && img.pids[1] == right
  }

  /** A leaf without entries whose next leaf is `next`. */
  ghost predicate EmptyLeaf(img: NodeImage, next: Int32)
  {
    WellSized(img) && img.isLeaf && img.n == 0 && img.nextPage == next
  }

  /** Three node writes to distinct pages: each reads back, and no other page changes. */
  lemma PutThree(pages: seq<Page>, a: Int32, ia: NodeImage, b: Int32, ib: NodeImage, c: Int32, ic: NodeImage)
    requires GeometryOk() && WellSized(ia) && WellSized(ib) && WellSized(ic)
    requires 0 <= a && 0 <= b && 0 <= c && a != b && a != c && b != c
    ensures WrittenThree(pages, Put(Put(Put(pages, a, ia), b, ib), c, ic), a, ia, b, ib, c, ic)
  {
  }

  /** The three pages the first insert writes form a tree of height 1: root 1 over leaves 2 and 3. */
  lemma BootTyped(pages: seq<Page>, pages': seq<Page>, key: Int32, ia: NodeImage, ib: NodeImage, ic: NodeImage)
    requires GeometryOk() && WrittenThree(pages, pages', 1, ia, 2, ib, 3, ic)
    requires RootOf(ia, key, 2, 3) && EmptyLeaf(ib, 3) && EmptyLeaf(ic, -1)
    ensures Typed(pages', BOOT_LEVELS)
  {
    Capacities();
    var lv: map<Int32, nat> := BOOT_LEVELS;
    assert Fit(ia, lv, 1) && Fit(ib, lv, 2) && Fit(ic, lv, 3);
    TypedThree(pages, map[], pages', lv, 1, ia, 2, ib, 3, ic);
  }

  /** Once leaf 3 holds the pair and the file ends at page 4, the file is the tree of the first insert. */
  lemma BootShape(pages: seq<Page>, key: Int32, rid: RecordId, before: NodeImage)
    requires GeometryOk() && |pages| == 4
    requires RootOf(Decode(pages[1]), key, 2, 3) && EmptyLeaf(Decode(pages[2]), 3)
    requires HoldsInsert(pages, BOOT_LEVELS, 3, before, key, rid) && EmptyLeaf(before, -1)
    ensures BootTree(pages, BOOT_LEVELS, key, rid)
  {
    Capacities();
    InsertedAt(before.keys, 0, 0, key);
    InsertedAt(before.rids, 0, 0, rid);
  }

  /** That file holds exactly the one pair, in leaf 3. */
  lemma BootEntries(pages: seq<Page>, key: Int32, rid: RecordId)
    requires GeometryOk() && BootTree(pages, BOOT_LEVELS, key, rid)
    ensures TreeEntries(pages, BOOT_LEVELS) == multiset{Entry(key, rid)}
  {
    var s := Shares(pages, BOOT_LEVELS);
    BootHeld(pages, key, rid);
    SumEmpty(s[..3]);
  }

  /** Of the four pages of that file, only leaf 3 holds entries: the one pair. */
  lemma BootHeld(pages: seq<Page>, key: Int32, rid: RecordId)
    requires GeometryOk() && BootTree(pages, BOOT_LEVELS, key, rid)
    ensures Held(pages, BOOT_LEVELS, 0) == Held(pages, BOOT_LEVELS, 1) == Held(pages, BOOT_LEVELS, 2) == multiset{}
    ensures Held(pages, BOOT_LEVELS, 3) == multiset{Entry(key, rid)}
  {
    Capacities();
    assert Entries(Decode(pages[2])) == [];
    assert Entries(Decode(pages[3])) == [Entry(key, rid)];
  }

  /**
   * The file after the three writes of the first insert: root 1 over the
   * empty leaves 2 and 3, a typed tree, and nothing else changed.
   */
  ghost predicate BootStarted(p0: seq<Page>, p1: seq<Page>, key: Int32)
    requires GeometryOk()
  {
    |p1| == (if |p0| <= 4 then 4 else |p0|) && OutsideKept(p0, p1, BOOT_LEVELS) && Typed(p1, BOOT_LEVELS) &&
    RootOf(Decode(p1[1]), key, 2, 3) && EmptyLeaf(Decode(p1[2]), 3)
  }

  /** After the pair goes into leaf 3 of that file, the file is what the first insert leaves. */
  lemma BootFinish(p0: seq<Page>, p1: seq<Page>, p2: seq<Page>, key: Int32, rid: RecordId, before: NodeImage)
    requires GeometryOk() && BootStarted(p0, p1, key) && EmptyLeaf(before, -1)
    requires Typed(p2, BOOT_LEVELS) && HoldsInsert(p2, BOOT_LEVELS, 3, before, key, rid)
    requires |p2| == |p1| && forall q :: 0 <= q < |p1| && q != 3 ==> p2[q] == p1[q]
    ensures |p2| == (if |p0| <= 4 then 4 else |p0|) && OutsideKept(p0, p2, BOOT_LEVELS)
    ensures |p2| == 4 ==> BootTree(p2, BOOT_LEVELS, key, rid)
    ensures Reaches(p2, BOOT_LEVELS, 1, [1], 3)
  {
    Capacities();
    assert p2[1] == p1[1] && p2[2] == p1[2];
    assert [1][1..] == [];
    if |p2| == 4 {
      BootShape(p2, key, rid, before);
    }
  }

  /** A rewrite of a page with the node it holds keeps the leaf that holds an insert. */
  lemma RewriteHolds(pages: seq<Page>, lv: map<Int32, nat>, p: Int32, img: NodeImage,
                     leaf: Int32, before: NodeImage, key: Int32, rid: RecordId)
    requires GeometryOk() && WellSized(img) && Typed(pages, lv)
    requires 0 <= p < |pages| && Decode(pages[p]) == img
    requires HoldsInsert(pages, lv, leaf, before, key, rid)
    ensures |Put(pages, p, img)| == |pages| && Typed(Put(pages, p, img), lv)
    ensures HoldsInsert(Put(pages, p, img), lv, leaf, before, key, rid)
  {
    Rewrite(pages, lv, p, img);
  }

  /** A run from the root r of a tree of height h leaves a tree of that height rooted at r. */
  lemma ExtendsTree(p0: seq<Page>, pages: seq<Page>, lv: map<Int32, nat>, lv': map<Int32, nat>, r: Int32, h: int)
    requires GeometryOk() && TreeAt(p0, lv, r, h) && Extends(p0, pages, lv, lv', lv[r])
    ensures TreeAt(pages, lv', r, h) && Grows(lv, lv', |p0|) && OutsideKept(p0, pages, lv)
  {
  }

  /**
   * The write of the new root r, once the insert below it has run, leaves
   * a tree of height h rooted at r that holds the insert.
   */
  lemma RootRewrite(p0: seq<Page>, pages: seq<Page>, lv1: map<Int32, nat>, lv2: map<Int32, nat>,
                    r: Int32, h: nat, img: NodeImage, leaf: Int32, before: NodeImage, key: Int32, rid: RecordId,
                    path: seq<int>)
    requires GeometryOk() && WellSized(img) && Extends(p0, pages, lv1, lv2, h)
    requires 0 !in lv1 && r in lv1 && 0 <= r < |p0| && r in lv2 && lv2[r] == h
    requires 0 <= r < |pages| && Decode(pages[r]) == img
    requires HoldsInsert(pages, lv2, leaf, before, key, rid) && Reaches(pages, lv2, r, path, leaf)
    ensures TreeAt(Put(pages, r, img), lv2, r, h) && Grows(lv1, lv2, |p0|)
    ensures OutsideKept(p0, Put(pages, r, img), lv1)
    ensures HoldsInsert(Put(pages, r, img), lv2, leaf, before, key, rid)
    ensures TreeEntries(Put(pages, r, img), lv2) == TreeEntries(pages, lv2)
    ensures Reaches(Put(pages, r, img), lv2, r, path, leaf)
  {
    RewriteHolds(pages, lv2, r, img, leaf, before, key, rid);
    RewriteKeepsEntries(pages, lv2, r, img);
    RewriteReaches(pages, lv2, r, img, r, path, leaf);
  }

  /**
   * A step that grows the level map from the end of the file and keeps
   * the pages outside the tree, followed by another such step, is one.
   */
  lemma GrowChain(p0: seq<Page>, p1: seq<Page>, p2: seq<Page>,
                  lv0: map<Int32, nat>, lv1: map<Int32, nat>, lv2: map<Int32, nat>)
    requires Grows(lv0, lv1, |p0|) && OutsideKept(p0, p1, lv0)
    requires Grows(lv1, lv2, |p1|) && OutsideKept(p1, p2, lv1)
    ensures Grows(lv0, lv2, |p0|) && OutsideKept(p0, p2, lv0)
  {
    forall q: Int32 | 0 <= q < |p0| && q !in lv0
      ensures p2[q] == p0[q]
    {
      assert q !in lv1;
    }
  }

  /**
   * The page work of a root split: the full root on page root of a tree of
   * height h gets a new empty parent s on page p, the end of the file, and
   * is split with its sibling on page p + 1. The new root then holds the
   * separator between the two, both have room for an insert, and the
   * tree holds the same entries.
   */
  method SplitUnder(pf: PageFile, root: Int32, p: Int32, ghost lv: map<Int32, nat>, ghost h: nat)
      returns (s: BTNode, ghost lv1: map<Int32, nat>)
    requires GeometryOk() && pf.Valid() && pf.IsOpen() && pf.writable && p == pf.epid && p + 2 <= INT32_MAX
    requires TreeAt(pf.pages, lv, root, h) && Full(Decode(pf.pages[root]))
    modifies pf, pf.cache, pf.cache.slots
    ensures fresh(s) && fresh(s.keys) && fresh(s.rids) && fresh(s.pids)
    ensures pf.Valid() && pf.IsOpen() && pf.writable && pf.fd == old(pf.fd) && pf.epid == p + 2
    ensures s.InTree(pf, lv1, h + 1) && s.pid == p && s.n < 2 * T(s.isLeaf) - 1
    ensures Extends(old(pf.pages), pf.pages, lv, lv1, h + 1) && 0 !in lv1
    ensures RootOf(s.Image(), Separator(Decode(old(pf.pages)[root])), root, p + 1)
    ensures s.n == 1 && Landing(pf.pages, lv1, s.Image(), 0, h) && Landing(pf.pages, lv1, s.Image(), 1, h)
    ensures TreeEntries(pf.pages, lv1) == TreeEntries(old(pf.pages), lv)
  {
    s := NewRoot(root, p);
    ghost var parent := s.Image();
    lv1 := s.SplitOnlyChild(p + 1, pf, lv, h);
    GrownRoot(parent, root, Separator(Decode(old(pf.pages)[root])), p + 1);
  }

  /** An empty non-leaf over `child`, after the split of that child, holds one key between the two halves. */
  lemma GrownRoot(parent: NodeImage, child: Int32, sep: Int32, sibling: Int32)
    requires GeometryOk() && WellSized(parent) && !parent.isLeaf && parent.n == 0 && parent.pids[0] == child
    ensures RootOf(AfterSplit(parent, 0, sep, sibling), sep, child, sibling)
  {
    Capacities();
    SplitChildParent(parent, 0, sep, sibling);
  }

  /**
   * The insert from a new root s at level h, which is then written to
   * its page again; the codes are ignored, and nothing fails. As both
   * children of s have room, the insert below leaves s as the split made
   * it, and that is what its page holds at the end. The leaf that took
   * the pair lies on the returned path from the root.
   */
  method InsertFrom(pf: PageFile, s: BTNode, root: Int32, key: Int32, rid: RecordId, newPid: Int32,
                    ghost lv1: map<Int32, nat>, ghost h: nat)
      returns (newPid': Int32, ghost lv2: map<Int32, nat>, ghost leaf: Int32, ghost before: NodeImage,
               ghost path: seq<int>)
    requires s.InTree(pf, lv1, h) && s.pid == root && s.n < 2 * T(s.isLeaf) - 1 && 0 !in lv1
    requires h > 0 && newPid == pf.epid && newPid + h <= INT32_MAX
    requires s.n == 1 && Landing(pf.pages, lv1, s.Image(), 0, h - 1) && Landing(pf.pages, lv1, s.Image(), 1, h - 1)
    modifies pf, pf.cache, pf.cache.slots, s, s.keys, s.rids, s.pids
    ensures pf.Valid() && pf.IsOpen() && pf.writable && pf.fd == old(pf.fd) && newPid' == pf.epid
    ensures TreeAt(pf.pages, lv2, root, h)
    ensures Grows(lv1, lv2, |old(pf.pages)|) && OutsideKept(old(pf.pages), pf.pages, lv1)
    ensures HoldsInsert(pf.pages, lv2, leaf, before, key, rid) && Reaches(pf.pages, lv2, root, path, leaf)
    ensures TreeEntries(pf.pages, lv2) == TreeEntries(old(pf.pages), lv1) + multiset{Entry(key, rid)}
    ensures Decode(pf.pages[root]) == old(s.Image())
  {
    ghost var j := InsertPos(s.Image().keys, s.n, key);
    assert j == 0 || j == 1;
    assert Landing(pf.pages, lv1, s.Image(), j, h - 1);
    var _, np, lv, lf, b, pth := s.InsertNonFull(key, rid, newPid, pf, lv1, h);
    newPid', lv2, leaf, before, path := np, lv, lf, b, pth;
    ghost var pages := pf.pages;
    var _ := s.WriteTo(root, pf);
    RootRewrite(old(pf.pages), pages, lv1, lv2, root, h, s.Image(), leaf, before, key, rid, path);
  }

  /** The new root of a root split, before the split: an empty non-leaf on page p whose child 0 is `child`. */
  method NewRoot(child: Int32, p: Int32) returns (s: BTNode)
    requires GeometryOk()
    ensures fresh(s) && fresh(s.keys) && fresh(s.rids) && fresh(s.pids)
    ensures s.Valid() && !s.isLeaf && s.n == 0 && s.pid == p && s.pids[0] == child
  {
    Capacities();
    s := new BTNode();
    s.isLeaf := false;
    s.n := 0;
    s.pids[0] := child;
    s.pid := p;
  }

  /** Page 0 of a non-empty store: the read that `open` makes and whose status it ignores. */
  method FirstPage(pf: PageFile) returns (page: Page)
    requires pf.Valid() && pf.epid > 0
    modifies pf.cache, pf.cache.slots
    ensures pf.Valid() && page == pf.pages[0]
  {
    var _, p := pf.Read(0);
    page := p;
  }

  /**
   * The index: its page file, the root page id (-1 for an empty tree), the
   * tree height, the next page id to hand out and the open mode. The ghost
   * level map gives the shape of the tree held in the file.
   */
  class BTreeIndex {
    const pf: PageFile
    var rootPid: Int32
    var treeHeight: Int32
    var newPid: Int32
    var readOnly: bool
    ghost var lv: map<Int32, nat>

    /**
     * An open index: the mode agrees with the file's, the next page id is
     * the end of the file, and a non-empty tree is rooted at rootPid, at
     * level treeHeight, with the header page 0 outside it.
     */
    ghost predicate WellFormed()
      reads this, pf, pf.cache, pf.cache.slots
    {
      GeometryOk() && pf.Valid() && pf.IsOpen() && readOnly == !pf.writable && newPid == pf.epid &&
      (rootPid != -1 ==> TreeAt(pf.pages, lv, rootPid, treeHeight))
    }

    /** The constructor: no tree and no page handed out yet, over a page file that is not open. */
    constructor (cache: ReadCache, useCache: bool)
      requires cache.Valid()
      ensures fresh(pf) && pf.Valid() && !pf.IsOpen() && pf.pages == [] && pf.cache == cache
      ensures newPid == 0 && rootPid == -1 && treeHeight == -1 && !readOnly && lv == map[]
    {
      pf := new PageFile(cache, useCache);
      newPid := 0;
      rootPid := -1;
      treeHeight := -1;
      readOnly := false;
      lv := map[];
    }

    /**
     * `open`: opens the page file (the OS results are parameters, as for
     * the page file), takes the next page id from its end and reads the
     * root id and height from page 0; an empty file is an empty tree of
     * height 0. Page 0 exists once the file is not empty, so its read
     * cannot fail. `shape` is the level map of the tree the file holds.
     */
    method Open(mode: char, osFd: int, fileSize: nat, onDisk: seq<Page>, ghost shape: map<Int32, nat>) returns (rc: int)
      requires GeometryOk() && pf.Valid()
      requires osFd != 0 && |onDisk| == fileSize / PAGE_SIZE && |onDisk| <= INT32_MAX
      requires pf.cached && osFd > 0 ==>
        forall j :: 0 <= j < CACHE_COUNT ==> !(pf.cache.slots[j].Live() && pf.cache.slots[j].fd == osFd)
      modifies this, pf, pf.cache, pf.cache.slots
      ensures pf.Valid()
      ensures old(pf.IsOpen()) ==> rc == RC_FILE_OPEN_FAILED
      ensures !old(pf.IsOpen()) && mode !in "rRwW" ==> rc == RC_INVALID_FILE_MODE
      ensures !old(pf.IsOpen()) && mode in "rRwW" && osFd < 0 ==> rc == RC_FILE_OPEN_FAILED
      ensures rc == 0 <==> !old(pf.IsOpen()) && mode in "rRwW" && osFd > 0
      ensures rc != 0 ==> unchanged(this) && unchanged(pf)
      ensures rc == 0 ==> pf.fd == osFd && pf.pages == onDisk && pf.writable == (mode in "wW")
      ensures rc == 0 ==> readOnly == (mode in "rR") && newPid == |onDisk| && lv == shape
      ensures rc == 0 && |onDisk| == 0 ==> rootPid == -1 && treeHeight == 0
      ensures rc == 0 && |onDisk| > 0 ==> rootPid == GetRootPid(onDisk[0]) && treeHeight == GetTreeHeight(onDisk[0])
      ensures rc == 0 && IndexFile(onDisk, shape) ==> WellFormed()
    {
      rc := pf.Open(mode, osFd, fileSize, onDisk);
      if rc < 0 {
        return;
      }
      ReadHeader(mode, shape);
    }

    /** The rest of `open` once the file is open: the mode, the next page id, then root and height. */
    method ReadHeader(mode: char, ghost shape: map<Int32, nat>)
      requires GeometryOk() && pf.Valid() && pf.IsOpen() && pf.epid <= INT32_MAX
      modifies this, pf.cache, pf.cache.slots
      ensures pf.Valid() && pf.pages == old(pf.pages) && pf.epid == old(pf.epid)
      ensures readOnly == (mode == 'r' || mode == 'R') && newPid == pf.epid && lv == shape
      ensures |pf.pages| == 0 ==> rootPid == -1 && treeHeight == 0
      ensures |pf.pages| > 0 ==> rootPid == GetRootPid(pf.pages[0]) && treeHeight == GetTreeHeight(pf.pages[0])
    {
      var root, height := -1, 0;
      if pf.EndPid() != 0 {
        var page := FirstPage(pf);
        root, height := GetRootPid(page), GetTreeHeight(page);
      }
      readOnly := mode == 'r' || mode == 'R';
      newPid := pf.EndPid();
      lv := shape;
      rootPid, treeHeight := root, height;
    }

    /**
     * `close`: unless read-only, writes the header page. A failed write
     * returns at once, leaving the index and the file open; otherwise an
     * end of file other than the next page id turns the code into -1. Then
     * the root id and the height are reset and the file is closed, its
     * code ignored. On a closed file the write reports 1, which is passed
     * on. Closing a well-formed writable index leaves a file `open` takes
     * back, with the same root and height in page 0.
     */
    method Close() returns (rc: int)
      requires GeometryOk() && pf.Valid()
      modifies this, pf, pf.cache.slots
      ensures pf.Valid() && lv == old(lv) && readOnly == old(readOnly) && newPid == old(newPid)
      ensures old(readOnly) ==> rc == 0 && pf.pages == old(pf.pages)
      ensures !old(readOnly) && old(pf.IsOpen()) && !old(pf.writable) ==>
        rc == RC_FILE_WRITE_FAILED && unchanged(this) && unchanged(pf)
      ensures !old(readOnly) && !old(pf.IsOpen()) ==>
        rc == (if old(newPid) != 0 then -1 else 1) && pf.pages == old(pf.pages)
      ensures !old(readOnly) && old(pf.IsOpen()) && old(pf.writable) ==>
        pf.pages == WritePage(old(pf.pages), 0, HeaderPage(old(rootPid), old(treeHeight))) &&
        rc == (if old(newPid) != |pf.pages| then -1 else 0)
      ensures rc != RC_FILE_WRITE_FAILED ==> rootPid == 0 && treeHeight == 0 && !pf.IsOpen()
      ensures old(WellFormed()) && !old(readOnly) ==>
        IndexFile(pf.pages, lv) && GetRootPid(pf.pages[0]) == old(rootPid) && GetTreeHeight(pf.pages[0]) == old(treeHeight)
    {
      rc := 0;
      if !readOnly {
        var page := HeaderPage(rootPid, treeHeight);
        rc := pf.Write(0, page);
        if rc < 0 {
          return;
        }
        if newPid != pf.EndPid() {
          rc := -1;
        }
        if old(WellFormed()) && rootPid != -1 {
          TypedKept(old(pf.pages), pf.pages, lv);
        }
      }
      rootPid := 0;
      treeHeight := 0;
      var _ := pf.Close();
    }

    /**
     * `locate`: on an empty tree the code is 0 and the cursor is left as
     * it was; otherwise the root is read and the search runs from it, to
     * the cursor `LocateSpec` describes.
     */
    method Locate(searchKey: Int32, cursor0: IndexCursor) returns (rc: int, cursor: IndexCursor)
      requires WellFormed()
      modifies pf.cache, pf.cache.slots
      ensures WellFormed() && pf.pages == old(pf.pages)
      ensures rc == 0
      ensures rootPid == -1 ==> cursor == cursor0
      ensures rootPid != -1 ==> cursor == LocateSpec(pf.pages, lv, rootPid, searchKey)
    {
      if rootPid == -1 {
        return 0, cursor0;
      }
      var root := new BTNode();
      var _ := root.Read(rootPid, pf);
      rc, cursor := root.Locate(searchKey, pf, lv, treeHeight);
    }

    /**
     * `readForward`: reads the node the cursor names; a non-leaf ends the
     * call with code 0 and nothing read. In a leaf the entry is read and
     * the cursor moves one entry on, to the next leaf's first entry once
     * it reaches the entry count. The entry check lets the slot just past
     * the last entry through, so the precondition keeps that slot inside
     * the arrays.
     */
    method ReadForward(cursor: IndexCursor, key0: Int32, rid0: RecordId)
        returns (rc: int, next: IndexCursor, key: Int32, rid: RecordId)
      requires GeometryOk() && pf.Valid()
      requires (0 <= cursor.pid < pf.epid && Decode(pf.pages[cursor.pid]).isLeaf &&
                0 <= cursor.eid <= Decode(pf.pages[cursor.pid]).n) ==> cursor.eid < KEYS_PER_LEAF_PAGE
      modifies pf.cache, pf.cache.slots
      ensures pf.Valid() && pf.pages == old(pf.pages) && pf.epid == old(pf.epid)
      ensures !(0 <= cursor.pid < pf.epid) ==> rc == RC_INVALID_PID && next == cursor && key == key0 && rid == rid0
      ensures 0 <= cursor.pid < pf.epid ==> var img := Decode(pf.pages[cursor.pid]);
        (!img.isLeaf ==> rc == 0 && next == cursor && key == key0 && rid == rid0) &&
        (img.isLeaf && !(0 <= cursor.eid <= img.n) ==> rc == -1 && next == cursor && key == key0 && rid == rid0) &&
        (img.isLeaf && 0 <= cursor.eid <= img.n ==>
          rc == 0 && key == img.keys[cursor.eid] && rid == img.rids[cursor.eid] &&
          next == if cursor.eid + 1 >= img.n then IndexCursor(img.nextPage, 0) else IndexCursor(cursor.pid, cursor.eid + 1))
    {
      next, key, rid := cursor, key0, rid0;
      var node := new BTNode();
      rc := node.Read(cursor.pid, pf);
      if rc != 0 {
        return;
      }
      if !node.isLeaf {
        return;
      }
      rc, key, rid := node.ReadEntry(cursor.eid, key0, rid0);
      if rc != 0 {
        return;
      }
      next := IndexCursor(next.pid, next.eid + 1);
      if next.eid >= node.n {
        next := IndexCursor(node.GetNextNodePtr(), 0);
      }
      rc := 0;
    }

    /**
     * `insert`: a read-only index refuses; an empty tree gets its first
     * three pages; otherwise the root is read, a full root is split under a
     * new root on the next page id, and the pair goes in from the root. The
     * root read cannot fail, as the root is a page of the tree. Some tree
     * leaf ends up holding its former entries plus the pair, the tree only
     * gains pages numbered from the old end of the file on, and the pages
     * outside the tree, the header page among them, keep their contents.
     * That leaf is reached from the root along the returned path of child
     * slots (for a fresh tree: slot 1 of root page 1, leaf page 3).
     */
    method Insert(key: Int32, rid: RecordId) returns (rc: int, ghost leaf: Int32, ghost before: NodeImage, ghost path: seq<int>)
      requires WellFormed()
      requires rootPid != -1 ==> newPid + treeHeight + 3 <= INT32_MAX
      modifies this, pf, pf.cache, pf.cache.slots
      ensures readOnly == old(readOnly) && pf.Valid() && pf.fd == old(pf.fd)
      ensures old(readOnly) ==> rc == RC_FILE_READ_ONLY && unchanged(this) && unchanged(pf)
      ensures !old(readOnly) && old(rootPid) == -1 ==>
        rootPid == 1 && treeHeight == 1 && newPid == 4 && lv == BOOT_LEVELS &&
        (rc == 0 <==> |old(pf.pages)| <= 4) && (rc != 0 ==> rc == -1) && OutsideKept(old(pf.pages), pf.pages, lv)
      ensures !old(readOnly) && old(rootPid) == -1 && rc == 0 ==>
        WellFormed() && BootTree(pf.pages, lv, key, rid) && TreeEntries(pf.pages, lv) == multiset{Entry(key, rid)}
      ensures !old(readOnly) && old(rootPid) != -1 ==>
        rc == 0 && WellFormed() && Grows(old(lv), lv, |old(pf.pages)|) && OutsideKept(old(pf.pages), pf.pages, old(lv))
      ensures !old(readOnly) && old(rootPid) != -1 ==>
        TreeEntries(pf.pages, lv) == TreeEntries(old(pf.pages), old(lv)) + multiset{Entry(key, rid)}
      ensures !old(readOnly) && old(rootPid) != -1 ==>
        if Full(Decode(old(pf.pages)[old(rootPid)]))
        then rootPid == old(newPid) && treeHeight == old(treeHeight) + 1 &&
             RootOf(Decode(pf.pages[rootPid]), Separator(Decode(old(pf.pages)[old(rootPid)])), old(rootPid), old(newPid) + 1)
        else rootPid == old(rootPid) && treeHeight == old(treeHeight)
      ensures !old(readOnly) ==> HoldsInsert(pf.pages, lv, leaf, before, key, rid) && Reaches(pf.pages, lv, rootPid, path, leaf)
    {
      if readOnly {
        rc, leaf, before, path := RC_FILE_READ_ONLY, -1, NodeImage(false, 0, -1, [], [], []), [];
        return;
      }
      if rootPid == -1 {
        rc, before := Bootstrap(key, rid);
        leaf, path := 3, [1];
        return;
      }
      var root := ReadRoot();
      Capacities();
      if root.n == 2 * root.GetT() - 1 {
        leaf, before, path := GrowRoot(key, rid);
      } else {
        leaf, before, path := InsertIntoRoot(key, rid, root);
      }
      rc := 0;
    }

    /**
     * The empty-tree branch of `insert`: root page 1 with the key between
     * leaves 2 and 3, leaf 2 linked to leaf 3, the three written in that
     * order, then the pair inserted into leaf 3 and leaf 3 written again.
     * The writes cannot fail on the open, writable file. The code is -1
     * when the file then does not end at page 4.
     */
    method Bootstrap(key: Int32, rid: RecordId) returns (rc: int, ghost before: NodeImage)
      requires WellFormed() && !readOnly
      modifies this, pf, pf.cache, pf.cache.slots
      ensures readOnly == old(readOnly) && pf.Valid() && pf.IsOpen() && pf.writable && pf.fd == old(pf.fd)
      ensures rootPid == 1 && treeHeight == 1 && newPid == 4 && lv == BOOT_LEVELS
      ensures (rc == 0 <==> |old(pf.pages)| <= 4) && (rc != 0 ==> rc == -1)
      ensures OutsideKept(old(pf.pages), pf.pages, lv) && Typed(pf.pages, lv)
      ensures HoldsInsert(pf.pages, lv, 3, before, key, rid) && Reaches(pf.pages, lv, 1, [1], 3)
      ensures rc == 0 ==> WellFormed() && BootTree(pf.pages, lv, key, rid) && TreeEntries(pf.pages, lv) == multiset{Entry(key, rid)}
    {
      before := BootPages(key, rid);
      BootAdopt();
      if pf.EndPid() != 4 {
        rc := -1;
      } else {
        rc := 0;
      }
    }

    /** The index takes the tree of that branch: root 1, height 1, pages 0 to 3 handed out. */
    method BootAdopt()
      requires pf.Valid() && pf.IsOpen() && pf.writable
      modifies this
      ensures rootPid == 1 && treeHeight == 1 && newPid == 4 && lv == BOOT_LEVELS && readOnly == old(readOnly)
      ensures pf.Valid() && pf.IsOpen() && pf.writable && pf.pages == old(pf.pages) && pf.fd == old(pf.fd)
    {
      rootPid, treeHeight, newPid, lv := 1, 1, 4, BOOT_LEVELS;
    }

    /** The page side of that branch: the nodes, their writes, and the insert into leaf 3. */
    method BootPages(key: Int32, rid: RecordId) returns (ghost before: NodeImage)
      requires GeometryOk() && pf.Valid() && pf.IsOpen() && pf.writable
      modifies pf, pf.cache, pf.cache.slots
      ensures pf.Valid() && pf.IsOpen() && pf.writable && pf.fd == old(pf.fd)
      ensures |pf.pages| == if |old(pf.pages)| <= 4 then 4 else |old(pf.pages)|
      ensures OutsideKept(old(pf.pages), pf.pages, BOOT_LEVELS) && Typed(pf.pages, BOOT_LEVELS)
      ensures HoldsInsert(pf.pages, BOOT_LEVELS, 3, before, key, rid) && Reaches(pf.pages, BOOT_LEVELS, 1, [1], 3)
      ensures |pf.pages| == 4 ==>
        BootTree(pf.pages, BOOT_LEVELS, key, rid) && TreeEntries(pf.pages, BOOT_LEVELS) == multiset{Entry(key, rid)}
    {
      var rnode := BootStart(key);
      ghost var pages1 := pf.pages;
      before := FillLeaf(rnode, key, rid, BOOT_LEVELS);
      BootFinish(old(pf.pages), pages1, pf.pages, key, rid, before);
      if |pf.pages| == 4 {
        BootEntries(pf.pages, key, rid);
      }
    }

    /** The first part of that: the three nodes, written; leaf 3 is returned for the insert. */
    method BootStart(key: Int32) returns (rnode: BTNode)
      requires GeometryOk() && pf.Valid() && pf.IsOpen() && pf.writable
      modifies pf, pf.cache, pf.cache.slots
      ensures pf.Valid() && pf.IsOpen() && pf.writable && pf.fd == old(pf.fd)
      ensures fresh(rnode) && fresh(rnode.keys) && fresh(rnode.rids) && fresh(rnode.pids)
      ensures rnode.InTree(pf, BOOT_LEVELS, 0) && rnode.n == 0 && rnode.pid == 3 && EmptyLeaf(rnode.Image(), -1)
      ensures BootStarted(old(pf.pages), pf.pages, key)
    {
      var root, lnode, rn := BootNodes(key);
      BootWrite(root, lnode, rn, key);
      rnode := rn;
    }

    /** The three nodes of the first insert, before they are written. */
    method BootNodes(key: Int32) returns (root: BTNode, lnode: BTNode, rnode: BTNode)
      requires GeometryOk()
      ensures fresh(root) && fresh(root.keys) && fresh(root.rids) && fresh(root.pids)
      ensures fresh(lnode) && fresh(lnode.keys) && fresh(lnode.rids) && fresh(lnode.pids)
      ensures fresh(rnode) && fresh(rnode.keys) && fresh(rnode.rids) && fresh(rnode.pids)
      ensures root.Valid() && lnode.Valid() && rnode.Valid()
      ensures root.Apart(lnode) && root.Apart(rnode) && lnode.Apart(rnode)
      ensures RootOf(root.Image(), key, 2, 3) && EmptyLeaf(lnode.Image(), 3) && EmptyLeaf(rnode.Image(), -1)
    {
      root := new BTNode();
      lnode := new BTNode();
      rnode := new BTNode();
      lnode.isLeaf, rnode.isLeaf := true, true;
      var _ := root.InitializeRoot(2, key, 3);
      var _ := lnode.SetNextNodePtr(3);
      var _ := rnode.SetNextNodePtr(-1);
      Capacities();
      assert root.Image().keys[0] == root.keys[0];
    }

    /** The three writes of the first insert, to pages 1, 2 and 3; none fails on the open, writable file. */
    method BootWrite(root: BTNode, lnode: BTNode, rnode: BTNode, ghost key: Int32)
      requires GeometryOk() && pf.Valid() && pf.IsOpen() && pf.writable
      requires root.Valid() && lnode.Valid() && rnode.Valid()
      requires root.Apart(lnode) && root.Apart(rnode) && lnode.Apart(rnode)
      requires RootOf(root.Image(), key, 2, 3) && EmptyLeaf(lnode.Image(), 3) && EmptyLeaf(rnode.Image(), -1)
      modifies root, lnode, rnode, pf, pf.cache.slots
      ensures pf.Valid() && pf.IsOpen() && pf.writable && pf.fd == old(pf.fd)
      ensures WrittenThree(old(pf.pages), pf.pages, 1, old(root.Image()), 2, old(lnode.Image()), 3, old(rnode.Image()))
      ensures |pf.pages| == if |old(pf.pages)| <= 4 then 4 else |old(pf.pages)|
      ensures Typed(pf.pages, BOOT_LEVELS)
      ensures rnode.Valid() && rnode.pid == 3 && rnode.Image() == old(rnode.Image()) && rnode.Synced(pf)
    {
      ghost var pages, ia, ib, ic := pf.pages, root.Image(), lnode.Image(), rnode.Image();
      var _ := root.WriteTo(1, pf);
      var _ := lnode.WriteTo(2, pf);
      var _ := rnode.WriteTo(3, pf);
      PutThree(pages, 1, ia, 2, ib, 3, ic);
      BootTyped(pages, pf.pages, key, ia, ib, ic);
    }

    /** Leaf 3 of the first insert takes the pair and is written back; the codes are ignored, as in the source. */
    method FillLeaf(node: BTNode, key: Int32, rid: RecordId, ghost lv0: map<Int32, nat>) returns (ghost before: NodeImage)
      requires node.InTree(pf, lv0, 0) && node.n == 0
      modifies node, node.keys, node.rids, node.pids, pf, pf.cache, pf.cache.slots
      ensures pf.Valid() && pf.IsOpen() && pf.writable && pf.fd == old(pf.fd) && pf.epid == old(pf.epid)
      ensures Typed(pf.pages, lv0) && before == old(node.Image()) && node.pid == old(node.pid)
      ensures HoldsInsert(pf.pages, lv0, node.pid, before, key, rid)
      ensures |pf.pages| == |old(pf.pages)|
      ensures forall q :: 0 <= q < |old(pf.pages)| && q != node.pid ==> pf.pages[q] == old(pf.pages)[q]
    {
      Capacities();
      before := node.Image();
      var _, _, _, _, _, _ := node.InsertNonFull(key, rid, newPid, pf, lv0, 0);
      ghost var pages := pf.pages;
      var _ := node.Write(pf);
      RewriteHolds(pages, lv0, node.pid, node.Image(), node.pid, before, key, rid);
    }

    /**
     * The full-root branch of `insert`: a new non-leaf on page newPid gets
     * the old root as its only child and becomes the root, the old root is
     * split with its new sibling on the next page, the pair goes in from
     * the new root, which is then written once more, and the tree is one
     * level higher. The leaf that took the pair lies on the returned path
     * from the new root.
     */
    method GrowRoot(key: Int32, rid: RecordId) returns (ghost leaf: Int32, ghost before: NodeImage, ghost path: seq<int>)
      requires WellFormed() && !readOnly && rootPid != -1 && newPid + treeHeight + 3 <= INT32_MAX
      requires Full(Decode(pf.pages[rootPid]))
      modifies this, pf, pf.cache, pf.cache.slots
      ensures WellFormed() && readOnly == old(readOnly) && pf.fd == old(pf.fd)
      ensures rootPid == old(newPid) && treeHeight == old(treeHeight) + 1
      ensures Grows(old(lv), lv, |old(pf.pages)|) && OutsideKept(old(pf.pages), pf.pages, old(lv))
      ensures HoldsInsert(pf.pages, lv, leaf, before, key, rid)
      ensures TreeEntries(pf.pages, lv) == TreeEntries(old(pf.pages), old(lv)) + multiset{Entry(key, rid)}
      ensures RootOf(Decode(pf.pages[rootPid]), Separator(Decode(old(pf.pages)[old(rootPid)])), old(rootPid), old(newPid) + 1)
      ensures Reaches(pf.pages, lv, rootPid, path, leaf)
    {
      ghost var pages0, lv0, r0 := pf.pages, lv, rootPid;
      var p := newPid;
      var s, lv1 := SplitUnder(pf, rootPid, p, lv, treeHeight);
      ghost var pages1, img := pf.pages, s.Image();
      leaf, before, path := GrowInsert(s, p, key, rid, lv1);
      GrowChain(pages0, pages1, pf.pages, lv0, lv1, lv);
      assert RootOf(img, Separator(Decode(pages0[r0])), r0, p + 1);
    }

    /** The rest of that branch: the insert from the new root s on page p, and the taller tree; the leaf lies on the path from p. */
    method GrowInsert(s: BTNode, p: Int32, key: Int32, rid: RecordId, ghost lv1: map<Int32, nat>)
        returns (ghost leaf: Int32, ghost before: NodeImage, ghost path: seq<int>)
      requires GeometryOk() && !readOnly && treeHeight >= 0 && p + 2 + treeHeight + 1 <= INT32_MAX
      requires s.InTree(pf, lv1, treeHeight + 1) && s.pid == p && s.n < 2 * T(s.isLeaf) - 1
      requires p + 2 == pf.epid && 0 !in lv1
      requires s.n == 1 && Landing(pf.pages, lv1, s.Image(), 0, treeHeight) && Landing(pf.pages, lv1, s.Image(), 1, treeHeight)
      modifies this, pf, pf.cache, pf.cache.slots, s, s.keys, s.rids, s.pids
      ensures WellFormed() && rootPid == p && treeHeight == old(treeHeight) + 1
      ensures readOnly == old(readOnly) && pf.fd == old(pf.fd)
      ensures Grows(lv1, lv, |old(pf.pages)|) && OutsideKept(old(pf.pages), pf.pages, lv1)
      ensures HoldsInsert(pf.pages, lv, leaf, before, key, rid)
      ensures TreeEntries(pf.pages, lv) == TreeEntries(old(pf.pages), lv1) + multiset{Entry(key, rid)}
      ensures Decode(pf.pages[p]) == old(s.Image()) && Reaches(pf.pages, lv, p, path, leaf)
    {
      var h: Int32 := treeHeight + 1;
      var np, lv2, lf, b, pth := InsertFrom(pf, s, p, key, rid, p + 2, lv1, h);
      Adopt(p, h, np, lv2);
      leaf, before, path := lf, b, pth;
    }

    /**
     * The branch of `insert` for a root with room: the insert runs from the
     * root, newPid follows its splits, and the leaf lies on the path from the root.
     */
    method InsertIntoRoot(key: Int32, rid: RecordId, root: BTNode)
        returns (ghost leaf: Int32, ghost before: NodeImage, ghost path: seq<int>)
      requires WellFormed() && !readOnly && rootPid != -1 && newPid + treeHeight <= INT32_MAX
      requires root.Valid() && root.Synced(pf) && root.pid == rootPid && root.n < 2 * T(root.isLeaf) - 1
      modifies this, pf, pf.cache, pf.cache.slots, root, root.keys, root.rids, root.pids
      ensures WellFormed() && rootPid == old(rootPid) && treeHeight == old(treeHeight)
      ensures readOnly == old(readOnly) && pf.fd == old(pf.fd)
      ensures Grows(old(lv), lv, |old(pf.pages)|) && OutsideKept(old(pf.pages), pf.pages, old(lv))
      ensures HoldsInsert(pf.pages, lv, leaf, before, key, rid)
      ensures TreeEntries(pf.pages, lv) == TreeEntries(old(pf.pages), old(lv)) + multiset{Entry(key, rid)}
      ensures Reaches(pf.pages, lv, rootPid, path, leaf)
    {
      ghost var pages0 := pf.pages;
      var _, np, lv', lf, b, pth := root.InsertNonFull(key, rid, newPid, pf, lv, lv[rootPid]);
      ExtendsTree(pages0, pf.pages, lv, lv', rootPid, treeHeight);
      Adopt(rootPid, treeHeight, np, lv');
      leaf, before, path := lf, b, pth;
    }

    /**
     * The index takes the root, the height, the page counter and the level
     * map an insert left behind; an insert only runs on a writable store, so
     * the index stays writable.
     */
    method Adopt(r: Int32, h: Int32, np: Int32, ghost lv': map<Int32, nat>)
      requires GeometryOk() && pf.Valid() && pf.IsOpen() && pf.writable && np == pf.epid
      requires r != -1 && TreeAt(pf.pages, lv', r, h)
      modifies this
      ensures WellFormed() && rootPid == r && treeHeight == h && newPid == np && lv == lv'
      ensures !readOnly && pf.pages == old(pf.pages) && pf.fd == old(pf.fd)
    {
      rootPid, treeHeight, newPid, lv, readOnly := r, h, np, lv', false;
    }

    /** One step of the walks below: the node reads its child j, one level down. */
    method Down(node: BTNode, j: int)
      requires GeometryOk() && pf.Valid() && pf.IsOpen() && Typed(pf.pages, lv)
      requires node.Valid() && node.Synced(pf) && node.pid in lv && !node.isLeaf && 0 <= j <= node.n
      modifies node, node.keys, node.rids, node.pids, pf.cache, pf.cache.slots
      ensures pf.Valid() && pf.pages == old(pf.pages) && pf.epid == old(pf.epid)
      ensures node.Valid() && node.Synced(pf) && node.pid == Decode(pf.pages[old(node.pid)]).pids[j]
      ensures node.pid in lv && lv[node.pid] == lv[old(node.pid)] - 1
    {
      Capacities();
      assert NodeOk(node.Image(), lv[node.pid]) && ChildrenOk(node.Image(), lv, lv[node.pid]);
      var p := node.pids[j];
      assert p == node.Image().pids[j];
      var _ := node.Read(p, pf);
    }

    /**
     * `getMinimumKey`: from the root down child 0 to a leaf, whose slot 0
     * is returned. The source reads the root without looking at rootPid,
     * so the tree must not be empty.
     */
    method GetMinimumKey() returns (key: Int32)
      requires WellFormed() && rootPid != -1
      modifies pf.cache, pf.cache.slots
      ensures WellFormed() && pf.pages == old(pf.pages)
      ensures key == Decode(pf.pages[LeftmostLeaf(pf.pages, lv, rootPid)]).keys[0]
    {
      var node := ReadRoot();
      WalkLeft(node);
      Capacities();
      key := node.keys[0];
    }

    /**
     * `getMaximumKey`: from the root down the last child to a leaf, whose
     * last entry is returned. An empty tree, or an empty rightmost leaf
     * (slot -1), is outside what the source handles.
     */
    method GetMaximumKey() returns (key: Int32)
      requires WellFormed() && rootPid != -1
      requires Decode(pf.pages[RightmostLeaf(pf.pages, lv, rootPid)]).n > 0
      modifies pf.cache, pf.cache.slots
      ensures WellFormed() && pf.pages == old(pf.pages)
      ensures var img := Decode(pf.pages[RightmostLeaf(pf.pages, lv, rootPid)]); key == img.keys[img.n - 1]
    {
      var node := ReadRoot();
      WalkRight(node);
      Capacities();
      ghost var img := Decode(pf.pages[RightmostLeaf(pf.pages, lv, rootPid)]);
      assert node.Image() == img;
      assert node.keys[node.n - 1] == img.keys[img.n - 1];
      key := node.keys[node.n - 1];
    }

    /** The first read of the walks below: a fresh node holding the root page. */
    method ReadRoot() returns (node: BTNode)
      requires WellFormed() && rootPid != -1
      modifies pf.cache, pf.cache.slots
      ensures fresh(node) && fresh(node.keys) && fresh(node.rids) && fresh(node.pids)
      ensures WellFormed() && pf.pages == old(pf.pages)
      ensures node.Valid() && node.Synced(pf) && node.pid == rootPid
    {
      node := new BTNode();
      var _ := node.Read(rootPid, pf);
    }

    /** The loop of `getMinimumKey`: down child 0 until a leaf, the leftmost leaf below the start. */
    method WalkLeft(node: BTNode)
      requires WellFormed() && rootPid != -1 && node.Valid() && node.Synced(pf) && node.pid in lv
      modifies node, node.keys, node.rids, node.pids, pf.cache, pf.cache.slots
      ensures WellFormed() && pf.pages == old(pf.pages)
      ensures node.Valid() && node.Synced(pf) && node.pid == LeftmostLeaf(pf.pages, lv, old(node.pid))
    {
      ghost var start := node.pid;
      while !node.isLeaf
        invariant pf.Valid() && pf.IsOpen() && pf.pages == old(pf.pages) && Typed(pf.pages, lv)
        invariant node.Valid() && node.Synced(pf) && node.pid in lv
        invariant LeftmostLeaf(pf.pages, lv, node.pid) == LeftmostLeaf(pf.pages, lv, start)
        decreases lv[node.pid]
      {
        LeftmostStep(pf.pages, lv, node.pid);
        Down(node, 0);
      }
    }

    /** The loop of `getMaximumKey`: down the last child until a leaf, the rightmost leaf below the start. */
    method WalkRight(node: BTNode)
      requires WellFormed() && rootPid != -1 && node.Valid() && node.Synced(pf) && node.pid in lv
      modifies node, node.keys, node.rids, node.pids, pf.cache, pf.cache.slots
      ensures WellFormed() && pf.pages == old(pf.pages)
      ensures node.Valid() && node.Synced(pf) && node.pid == RightmostLeaf(pf.pages, lv, old(node.pid))
      ensures node.isLeaf && 0 <= node.n <= KEYS_PER_LEAF_PAGE
    {
      ghost var start := node.pid;
      while !node.isLeaf
        invariant pf.Valid() && pf.IsOpen() && pf.pages == old(pf.pages) && Typed(pf.pages, lv)
        invariant node.Valid() && node.Synced(pf) && node.pid in lv
        invariant RightmostLeaf(pf.pages, lv, node.pid) == RightmostLeaf(pf.pages, lv, start)
        decreases lv[node.pid]
      {
        RightmostStep(pf.pages, lv, node.pid);
        Down(node, node.n);
      }
      Capacities();
      assert NodeOk(node.Image(), lv[node.pid]);
    }
  }
}
