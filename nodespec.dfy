/**
 * What the node operations of BTreeNode.cc do, on node images: where a key
 * is inserted or routed, what a leaf insert and a split produce, and the
 * shape every node page reachable from the root keeps (right kind for its
 * level, at most 2t-1 keys, sorted leaves, children one level down).
 */
module NodeSpec {
  import opened BPBase
  import opened PageFile
  import opened NodeLayout

  /** One (key, record id) pair of a leaf. */
  datatype Entry = Entry(key: Int32, rid: RecordId)

  /** The first n entries of a leaf image. */
  function Entries(img: NodeImage): (es: seq<Entry>)
    requires 0 <= img.n <= |img.keys| && img.n <= |img.rids|
    ensures |es| == img.n
    ensures forall j :: 0 <= j < img.n ==> es[j] == Entry(img.keys[j], img.rids[j])
  {
    seq(img.n, j requires 0 <= j < img.n => Entry(img.keys[j], img.rids[j]))
  }

  ghost predicate SortedPrefix(keys: seq<Int32>, n: int)
    requires 0 <= n <= |keys|
  {
    forall a, b :: 0 <= a < b < n ==> keys[a] <= keys[b]
  }

  /**
   * The slot `insertNonFull` picks, walking from the right past every key
   * greater than `key`: an equal key stays on the left, so a leaf puts the
   * new entry after its equals and a non-leaf routes an equal key right.
   */
  function InsertPos(keys: seq<Int32>, n: nat, key: int): (p: nat)
    requires n <= |keys|
    ensures p <= n
    ensures forall j :: p <= j < n ==> key < keys[j]
    ensures p > 0 ==> keys[p - 1] <= key
  {
    if n == 0 then 0 else if key < keys[n - 1] then InsertPos(keys, n - 1, key) else n
  }

  /** The slot is determined by the two conditions the walk stops on. */
  lemma InsertPosUnique(keys: seq<Int32>, n: nat, key: int, q: nat)
    requires n <= |keys| && q <= n
    requires forall j :: q <= j < n ==> key < keys[j]
    requires q > 0 ==> keys[q - 1] <= key
    ensures q == InsertPos(keys, n, key)
  {
  }

  /**
   * The slot `locate` picks, walking from the left while the key is greater
   * than `k`: the first key that is at least `k` (an equal key routes left).
   */
  function FirstGeq(keys: seq<Int32>, n: nat, k: int, from: nat): (i: nat)
    requires from <= n <= |keys|
    decreases n - from
    ensures from <= i <= n
    ensures forall j :: from <= j < i ==> keys[j] < k
    ensures i < n ==> k <= keys[i]
  {
    if from == n || k <= keys[from] then from else FirstGeq(keys, n, k, from + 1)
  }

  lemma FirstGeqUnique(keys: seq<Int32>, n: nat, k: int, q: nat)
    requires q <= n <= |keys|
    requires forall j :: 0 <= j < q ==> keys[j] < k
    requires q < n ==> k <= keys[q]
    ensures q == FirstGeq(keys, n, k, 0)
  {
  }

  /**
   * On sorted keys the two walks count different keys: the insert walk
   * passes every key at most `key`, the locate walk only those below it.
   */
  lemma {:induction false} RoutesOnSortedKeys(keys: seq<Int32>, n: nat, key: Int32)
    requires n <= |keys| && SortedPrefix(keys, n)
    ensures var p := InsertPos(keys, n, key);
      (forall j :: 0 <= j < p ==> keys[j] <= key) && (forall j :: p <= j < n ==> key < keys[j])
    ensures var i := FirstGeq(keys, n, key, 0);
      (forall j :: 0 <= j < i ==> keys[j] < key) && (forall j :: i <= j < n ==> key <= keys[j])
  {
    var p := InsertPos(keys, n, key);
    var i := FirstGeq(keys, n, key, 0);
    forall j | 0 <= j < p
      ensures keys[j] <= key
    {
      assert keys[j] <= keys[p - 1];
    }
    forall j | i <= j < n
      ensures key <= keys[j]
    {
      assert keys[i] <= keys[j];
    }
  }

  /** `s` with `x` put at slot p and slots p..n-1 moved one to the right. */
  function Inserted<T>(s: seq<T>, n: nat, p: nat, x: T): (r: seq<T>)
    requires p <= n < |s|
    ensures |r| == |s|
  {
    s[..p] + [x] + s[p..n] + s[n + 1..]
  }

  lemma InsertedAt<T>(s: seq<T>, n: nat, p: nat, x: T)
    requires p <= n < |s|
    ensures forall j :: 0 <= j < p ==> Inserted(s, n, p, x)[j] == s[j]
    ensures Inserted(s, n, p, x)[p] == x
    ensures forall j :: p < j <= n ==> Inserted(s, n, p, x)[j] == s[j - 1]
    ensures forall j :: n < j < |s| ==> Inserted(s, n, p, x)[j] == s[j]
  {
  }

  /** The leaf branch of `insertNonFull`: the entry goes after its equals, the rest shift right. */
  function LeafInsert(img: NodeImage, key: Int32, rid: RecordId): (r: NodeImage)
    requires GeometryOk() && WellSized(img) && img.isLeaf && 0 <= img.n < KEYS_PER_LEAF_PAGE
    ensures WellSized(r)
  {
    var p := InsertPos(img.keys, img.n, key);
    img.(n := img.n + 1, keys := Inserted(img.keys, img.n, p, key), rids := Inserted(img.rids, img.n, p, rid))
  }

  /** Past the inserted element, a sequence with x put in at p holds what sat one slot lower. */
  lemma ShiftedAt<T>(a: seq<T>, p: nat, x: T, j: nat)
    requires p < j <= |a|
    ensures (a[..p] + [x] + a[p..])[j] == a[j - 1]
  {
    assert (a[..p] + [x] + a[p..])[j] == a[p..][j - p - 1];
  }

  /**
   * A leaf insert adds exactly one entry: the old entries keep their order
   * and the new one goes in at the insert slot; the header and the spare
   * slots past the new count are left alone.
   */
  lemma LeafInsertEntries(img: NodeImage, key: Int32, rid: RecordId)
    requires GeometryOk() && WellSized(img) && img.isLeaf && 0 <= img.n < KEYS_PER_LEAF_PAGE
    ensures var r, p := LeafInsert(img, key, rid), InsertPos(img.keys, img.n, key);
      r.n == img.n + 1 && r.isLeaf && r.nextPage == img.nextPage &&
      Entries(r) == Entries(img)[..p] + [Entry(key, rid)] + Entries(img)[p..] &&
      r.keys[img.n + 1..] == img.keys[img.n + 1..] && r.rids[img.n + 1..] == img.rids[img.n + 1..]
  {
    var r, p := LeafInsert(img, key, rid), InsertPos(img.keys, img.n, key);
    var e, er := Entries(img), Entries(r);
    var want := e[..p] + [Entry(key, rid)] + e[p..];
    InsertedAt(img.keys, img.n, p, key);
    InsertedAt(img.rids, img.n, p, rid);
    forall j | 0 <= j < img.n + 1
      ensures er[j] == want[j]
    {
      if j < p {
        assert want[j] == e[j];
      } else if j == p {
        assert want[j] == Entry(key, rid);
      } else {
        ShiftedAt(e, p, Entry(key, rid), j);
      }
    }
    assert |er| == |want|;
    assert r.keys[img.n + 1..] == img.keys[img.n + 1..];
    assert r.rids[img.n + 1..] == img.rids[img.n + 1..];
  }

  /** ... so the leaf holds the old entries plus the new one, no more and no fewer. */
  lemma LeafInsertMultiset(img: NodeImage, key: Int32, rid: RecordId)
    requires GeometryOk() && WellSized(img) && img.isLeaf && 0 <= img.n < KEYS_PER_LEAF_PAGE
    ensures multiset(Entries(LeafInsert(img, key, rid))) == multiset(Entries(img)) + multiset{Entry(key, rid)}
  {
    var p := InsertPos(img.keys, img.n, key);
    LeafInsertEntries(img, key, rid);
    MultisetInsert(Entries(img), p, Entry(key, rid));
  }

  lemma MultisetInsert<T>(e: seq<T>, p: nat, x: T)
    requires p <= |e|
    ensures multiset(e[..p] + [x] + e[p..]) == multiset(e) + multiset{x}
  {
    assert e[..p] + e[p..] == e;
  }

  /** ... and a sorted leaf stays sorted, the new key after its equals. */
  lemma LeafInsertSorted(img: NodeImage, key: Int32, rid: RecordId)
    requires GeometryOk() && WellSized(img) && img.isLeaf && 0 <= img.n < KEYS_PER_LEAF_PAGE
    requires SortedPrefix(img.keys, img.n)
    ensures SortedPrefix(LeafInsert(img, key, rid).keys, img.n + 1)
  {
    var r, p := LeafInsert(img, key, rid), InsertPos(img.keys, img.n, key);
    InsertedAt(img.keys, img.n, p, key);
    RoutesOnSortedKeys(img.keys, img.n, key);
    forall a, b | 0 <= a < b < img.n + 1
      ensures r.keys[a] <= r.keys[b]
    {
      if b < p || a > p {
      } else if a == p {
      } else if b == p {
      } else {
      }
    }
  }

  /** A full node: 2t-1 keys. `insertNonFull` and `insert` split exactly these. */
  ghost predicate Full(img: NodeImage)
  {
    img.n == 2 * T(img.isLeaf) - 1
  }

  /** The child after `splitChild`: it loses its upper half; a leaf now links to its new sibling. */
  function SplitLeft(c: NodeImage, newPid: Int32): (r: NodeImage)
    requires GeometryOk() && WellSized(c) && Full(c)
    ensures WellSized(r)
  {
    if c.isLeaf then c.(n := c.n - LEAF_T, nextPage := newPid)
    else c.(n := c.n - (NONLEAF_T - 1) - 1)
  }

  /**
   * The new sibling of `splitChild`: a leaf takes the top t entries and the
   * old next link; a non-leaf takes the top t-1 keys and t children and
   * keeps a fresh node's -1 link. Its remaining slots are zero.
   */
  function SplitRight(c: NodeImage): (r: NodeImage)
    requires GeometryOk() && WellSized(c) && Full(c)
    ensures WellSized(r)
  {
    Capacities();
    if c.isLeaf then
      NodeImage(true, LEAF_T, c.nextPage,
                c.keys[LEAF_T - 1 .. 2 * LEAF_T - 1] + Repeat<Int32>(0, KEYS_PER_LEAF_PAGE - LEAF_T),
                c.rids[LEAF_T - 1 .. 2 * LEAF_T - 1] + Repeat(RecordId(0, 0), KEYS_PER_LEAF_PAGE - LEAF_T), [])
    else
      NodeImage(false, NONLEAF_T - 1, -1,
                c.keys[NONLEAF_T .. 2 * NONLEAF_T - 1] + Repeat<Int32>(0, KEYS_PER_NONLEAF_PAGE - (NONLEAF_T - 1)), [],
                c.pids[NONLEAF_T .. 2 * NONLEAF_T] + Repeat<Int32>(0, PIDS_PER_PAGE - NONLEAF_T))
  }

  /** The key `splitChild` puts into the parent: copied up from a leaf, moved up from a non-leaf. */
  function Separator(c: NodeImage): (k: Int32)
    requires GeometryOk() && WellSized(c) && Full(c)
  {
    Capacities();
    if c.isLeaf then SplitRight(c).keys[0] else c.keys[SplitLeft(c, 0).n]
  }

  /** The parent after `splitChild(i, newPid)`: separator at key slot i, new sibling at child slot i+1. */
  function AfterSplit(parent: NodeImage, i: nat, sep: Int32, newPid: Int32): (r: NodeImage)
    requires GeometryOk() && WellSized(parent) && !parent.isLeaf
    requires 0 <= parent.n < KEYS_PER_NONLEAF_PAGE && i <= parent.n
    ensures WellSized(r)
  {
    parent.(n := parent.n + 1,
            keys := Inserted(parent.keys, parent.n, i, sep),
            pids := Inserted(parent.pids, parent.n + 1, i + 1, newPid))
  }

  /**
   * Splitting a full leaf: the two halves hold t-1 and t entries and, read
   * in order, exactly the old entries; the left half links to the new page
   * and the new page to the old successor; the separator is the first key of
   * the new page; both halves stay sorted.
   */
  lemma LeafSplit(c: NodeImage, newPid: Int32)
    requires GeometryOk() && WellSized(c) && Full(c) && c.isLeaf
    ensures var l, r := SplitLeft(c, newPid), SplitRight(c);
      l.n == LEAF_T - 1 && r.n == LEAF_T && l.isLeaf && r.isLeaf &&
      Entries(l) + Entries(r) == Entries(c) &&
      l.nextPage == newPid && r.nextPage == c.nextPage &&
      Separator(c) == r.keys[0] == c.keys[LEAF_T - 1] && l.keys == c.keys && l.rids == c.rids
    ensures SortedPrefix(c.keys, c.n) ==>
      SortedPrefix(SplitLeft(c, newPid).keys, LEAF_T - 1) && SortedPrefix(SplitRight(c).keys, LEAF_T)
  {
    Capacities();
    var l, r := SplitLeft(c, newPid), SplitRight(c);
    assert Entries(l) + Entries(r) == Entries(c);
  }

  /**
   * Splitting a full non-leaf: t-1 keys stay, the middle key moves up, t-1
   * keys move to the new page; the children split t and t.
   */
  lemma NonLeafSplit(c: NodeImage, newPid: Int32)
    requires GeometryOk() && WellSized(c) && Full(c) && !c.isLeaf
    ensures var l, r := SplitLeft(c, newPid), SplitRight(c);
      l.n == NONLEAF_T - 1 && r.n == NONLEAF_T - 1 && !l.isLeaf && !r.isLeaf &&
      l.keys[..NONLEAF_T - 1] + [Separator(c)] + r.keys[..NONLEAF_T - 1] == c.keys[..c.n] &&
      l.pids[..NONLEAF_T] + r.pids[..NONLEAF_T] == c.pids[..c.n + 1] &&
      l.nextPage == c.nextPage && r.nextPage == -1
  {
    Capacities();
    var l, r := SplitLeft(c, newPid), SplitRight(c);
    assert l.keys[..NONLEAF_T - 1] + [Separator(c)] + r.keys[..NONLEAF_T - 1] == c.keys[..c.n];
    assert l.pids[..NONLEAF_T] + r.pids[..NONLEAF_T] == c.pids[..c.n + 1];
  }

  /**
   * The parent gains one key and one child: child i stays where it was, the
   * new page is child i+1, the separator is key i, and later keys and
   * children move one slot right.
   */
  lemma ParentAfterSplit(parent: NodeImage, i: nat, sep: Int32, newPid: Int32)
    requires GeometryOk() && WellSized(parent) && !parent.isLeaf
    requires 0 <= parent.n < KEYS_PER_NONLEAF_PAGE && i <= parent.n
    ensures var r := AfterSplit(parent, i, sep, newPid);
      r.n == parent.n + 1 && !r.isLeaf && r.nextPage == parent.nextPage &&
      r.keys[i] == sep && r.pids[i] == parent.pids[i] && r.pids[i + 1] == newPid &&
      r.keys[..i] == parent.keys[..i] && r.pids[..i + 1] == parent.pids[..i + 1] &&
      r.keys[i + 1 .. r.n] == parent.keys[i .. parent.n] &&
      r.pids[i + 2 .. r.n + 1] == parent.pids[i + 1 .. parent.n + 1]
  {
    var r := AfterSplit(parent, i, sep, newPid);
    InsertedAt(parent.keys, parent.n, i, sep);
    InsertedAt(parent.pids, parent.n + 1, i + 1, newPid);
    assert r.pids[..i + 1] == parent.pids[..i + 1];
    assert r.keys[i + 1 .. r.n] == parent.keys[i .. parent.n];
    assert r.pids[i + 2 .. r.n + 1] == parent.pids[i + 1 .. parent.n + 1];
  }

  /** A node page fit for its level: leaves at level 0, at most 2t-1 keys, leaf keys sorted. */
  ghost predicate NodeOk(img: NodeImage, level: nat)
  {
    WellSized(img) && img.isLeaf == (level == 0) && 0 <= img.n <= 2 * T(img.isLeaf) - 1 &&
    (img.isLeaf ==> SortedPrefix(img.keys, img.n))
  }

  /** Every child of a non-leaf at `level` is a known page one level down. */
  ghost predicate ChildrenOk(img: NodeImage, lv: map<Int32, nat>, level: nat)
    requires WellSized(img) && 0 <= img.n <= 2 * T(img.isLeaf) - 1
  {
    level > 0 && !img.isLeaf ==>
      forall j :: 0 <= j <= img.n ==> img.pids[j] in lv && lv[img.pids[j]] == level - 1
  }

  /**
   * The shape of the node pages of a file: `lv` gives the level of every
   * page that belongs to the tree, each such page decodes to a node fit
   * for that level, and its children belong to the tree one level down.
   */
  ghost predicate Typed(pages: seq<Page>, lv: map<Int32, nat>)
    requires GeometryOk()
  {
    (forall p :: p in lv ==> 0 <= p < |pages|) &&
    forall p {:trigger pages[p]} :: p in lv && 0 <= p < |pages| ==>
      NodeOk(Decode(pages[p]), lv[p]) && ChildrenOk(Decode(pages[p]), lv, lv[p])
  }

  /** The pages after a node write; a negative page id writes nothing, as `write` refuses it. */
  ghost function Put(pages: seq<Page>, p: int, img: NodeImage): (r: seq<Page>)
    requires GeometryOk() && WellSized(img)
    ensures |r| >= |pages|
    ensures p >= 0 ==> |r| == (if p < |pages| then |pages| else p + 1) && Decode(r[p]) == img
    ensures forall q :: 0 <= q < |pages| && q != p ==> r[q] == pages[q]
  {
    if p < 0 then pages else DecodeEncode(img); WritePage(pages, p, Encode(img))
  }

  /**
   * Typed survives growing the level map and rewriting pages, provided old
   * pages keep their level and every new or rewritten page is fit.
   */
  lemma TypedExtend(pages: seq<Page>, lv: map<Int32, nat>, pages': seq<Page>, lv': map<Int32, nat>)
    requires GeometryOk() && Typed(pages, lv)
    requires forall q :: q in lv ==> q in lv' && lv'[q] == lv[q]
    requires forall q :: q in lv' ==> (0 <= q < |pages'| &&
      ((q in lv && pages'[q] == pages[q]) ||
       (NodeOk(Decode(pages'[q]), lv'[q]) && ChildrenOk(Decode(pages'[q]), lv', lv'[q]))))
    ensures Typed(pages', lv')
  {
    forall q | q in lv' && q in lv && pages'[q] == pages[q]
      ensures ChildrenOk(Decode(pages'[q]), lv', lv'[q])
    {
      var img := Decode(pages[q]);
      Capacities();
      assert ChildrenOk(img, lv, lv[q]);
      if lv[q] > 0 {
        forall j | 0 <= j <= img.n
          ensures img.pids[j] in lv' && lv'[img.pids[j]] == lv'[q] - 1
        {
          assert img.pids[j] in lv;
        }
      }
    }
  }

  /** A leaf insert into a non-full leaf of the tree keeps the tree's shape. */
  lemma LeafInsertKeepsTyped(pages: seq<Page>, lv: map<Int32, nat>, p: Int32, key: Int32, rid: RecordId)
    requires GeometryOk() && Typed(pages, lv) && p in lv && lv[p] == 0
    requires Decode(pages[p]).n < 2 * LEAF_T - 1
    ensures Typed(Put(pages, p, LeafInsert(Decode(pages[p]), key, rid)), lv)
  {
    Capacities();
    var img := Decode(pages[p]);
    var r := LeafInsert(img, key, rid);
    LeafInsertEntries(img, key, rid);
    LeafInsertSorted(img, key, rid);
    assert NodeOk(r, 0);
    TypedExtend(pages, lv, Put(pages, p, r), lv);
  }

  /** Page q of the tree may hold img: it is fit for q's level and its children are one level down. */
  ghost predicate Fit(img: NodeImage, lv: map<Int32, nat>, q: int)
  {
    q in lv && NodeOk(img, lv[q]) && ChildrenOk(img, lv, lv[q])
  }

  /** Both halves of a split node are fit for the node's level, with the same children below. */
  lemma HalvesOk(c: NodeImage, cp: Int32, newPid: Int32, level: nat, lv: map<Int32, nat>, lv': map<Int32, nat>)
    requires GeometryOk() && NodeOk(c, level) && ChildrenOk(c, lv, level) && Full(c)
    requires forall q :: q in lv ==> q in lv' && lv'[q] == lv[q]
    requires cp in lv' && lv'[cp] == level && newPid in lv' && lv'[newPid] == level
    ensures Fit(SplitLeft(c, newPid), lv', cp) && Fit(SplitRight(c), lv', newPid)
  {
    Capacities();
    var left, right := SplitLeft(c, newPid), SplitRight(c);
    if c.isLeaf {
      LeafSplit(c, newPid);
    } else {
      NonLeafSplit(c, newPid);
      forall j | 0 <= j <= left.n
        ensures left.pids[j] in lv' && lv'[left.pids[j]] == level - 1
      {
        assert left.pids[j] == c.pids[j];
      }
      forall j | 0 <= j <= right.n
        ensures right.pids[j] in lv' && lv'[right.pids[j]] == level - 1
      {
        assert right.pids[j] == c.pids[NONLEAF_T + j];
      }
    }
  }

  /** The parent after a split is fit one level up, its children being the old ones and the new page. */
  lemma ParentOk(parent: NodeImage, ppid: Int32, i: nat, sep: Int32, newPid: Int32, level: nat,
                 lv: map<Int32, nat>, lv': map<Int32, nat>)
    requires GeometryOk() && NodeOk(parent, level + 1) && parent.n < 2 * NONLEAF_T - 1 && i <= parent.n
    requires ChildrenOk(parent, lv, level + 1)
    requires forall q :: q in lv ==> q in lv' && lv'[q] == lv[q]
    requires newPid in lv' && lv'[newPid] == level && ppid in lv' && lv'[ppid] == level + 1
    ensures Fit(AfterSplit(parent, i, sep, newPid), lv', ppid)
  {
    Capacities();
    var up := AfterSplit(parent, i, sep, newPid);
    InsertedAt(parent.pids, parent.n + 1, i + 1, newPid);
    forall j | 0 <= j <= up.n
      ensures up.pids[j] in lv' && lv'[up.pids[j]] == level
    {
      if j < i + 1 {
        assert up.pids[j] == parent.pids[j];
      } else if j > i + 1 {
        assert up.pids[j] == parent.pids[j - 1];
      }
    }
  }

  /** Pages a, b and c of `pages'` hold the three images, and every other page is as in `pages`. */
  ghost predicate WrittenThree(pages: seq<Page>, pages': seq<Page>, a: int, ia: NodeImage,
                               b: int, ib: NodeImage, c: int, ic: NodeImage)
    requires GeometryOk()
  {
    0 <= a < |pages'| && 0 <= b < |pages'| && 0 <= c < |pages'| && |pages'| >= |pages| &&
    Decode(pages'[a]) == ia && Decode(pages'[b]) == ib && Decode(pages'[c]) == ic &&
    forall q :: 0 <= q < |pages| && q != a && q != b && q != c ==> pages'[q] == pages[q]
  }

  /**
   * The store after the three writes that end `splitChild`, in their order:
   * the child's lower half, the parent, the new sibling.
   */
  ghost predicate SplitStored(pages: seq<Page>, pages': seq<Page>, cp: Int32, c: NodeImage,
                              pp: Int32, parent: NodeImage, newPid: Int32)
    requires GeometryOk() && WellSized(c) && Full(c) && WellSized(parent)
  {
    pages' == Put(Put(Put(pages, cp, SplitLeft(c, newPid)), pp, parent), newPid, SplitRight(c))
  }

  /** When the three pages are distinct, each of them reads back and nothing else moved. */
  lemma SplitStoredWritten(pages: seq<Page>, pages': seq<Page>, cp: Int32, c: NodeImage,
                           pp: Int32, parent: NodeImage, newPid: Int32)
    requires GeometryOk() && WellSized(c) && Full(c) && WellSized(parent)
    requires SplitStored(pages, pages', cp, c, pp, parent, newPid)
    requires 0 <= cp && 0 <= pp && 0 <= newPid && cp != pp && cp != newPid && pp != newPid
    ensures WrittenThree(pages, pages', cp, SplitLeft(c, newPid), pp, parent, newPid, SplitRight(c))
  {
    ThreePuts(pages, cp, SplitLeft(c, newPid), pp, parent, newPid, SplitRight(c));
  }

  /** Three node writes to distinct pages: each reads back, every other page is untouched. */
  lemma ThreePuts(pages: seq<Page>, a: Int32, ia: NodeImage, b: Int32, ib: NodeImage, c: Int32, ic: NodeImage)
    requires GeometryOk() && WellSized(ia) && WellSized(ib) && WellSized(ic)
    requires 0 <= a && 0 <= b && 0 <= c && a != b && a != c && b != c
    ensures WrittenThree(pages, Put(Put(Put(pages, a, ia), b, ib), c, ic), a, ia, b, ib, c, ic)
  {
    var r1 := Put(pages, a, ia);
    var r2 := Put(r1, b, ib);
    var r := Put(r2, c, ic);
    assert r[a] == r2[a] == r1[a];
    assert r[b] == r2[b];
  }

  /** The levels after a split under parent ppid: the parent at level+1, the new sibling at `level`. */
  ghost function SplitLevels(lv: map<Int32, nat>, ppid: Int32, newPid: Int32, level: nat): map<Int32, nat>
  {
    var up: nat := level + 1;
    lv[ppid := up][newPid := level]
  }

  /**
   * Typed survives the three writes of a split when the level map only
   * gains the written pages and each written image is fit for its level.
   */
  lemma TypedThree(pages: seq<Page>, lv: map<Int32, nat>, pages': seq<Page>, lv': map<Int32, nat>,
                   a: int, ia: NodeImage, b: int, ib: NodeImage, c: int, ic: NodeImage)
    requires GeometryOk() && Typed(pages, lv) && WrittenThree(pages, pages', a, ia, b, ib, c, ic)
    requires forall q :: q in lv ==> q in lv' && lv'[q] == lv[q]
    requires forall q :: q in lv' ==> q in lv || q == a || q == b || q == c
    requires Fit(ia, lv', a) && Fit(ib, lv', b) && Fit(ic, lv', c)
    ensures Typed(pages', lv')
  {
    forall q | q in lv'
      ensures 0 <= q < |pages'|
      ensures (q in lv && pages'[q] == pages[q]) ||
              (NodeOk(Decode(pages'[q]), lv'[q]) && ChildrenOk(Decode(pages'[q]), lv', lv'[q]))
    {
      if q != a && q != b && q != c {
        assert q in lv && pages'[q] == pages[q];
      }
    }
    TypedExtend(pages, lv, pages', lv');
  }

  /** Every page keeps its level when a split adds the parent one level up and the new sibling. */
  lemma SplitLevelsGrow(lv: map<Int32, nat>, ppid: Int32, newPid: Int32, level: nat)
    requires ppid !in lv || lv[ppid] == level + 1
    requires newPid !in lv && newPid != ppid
    ensures var lv' := SplitLevels(lv, ppid, newPid, level);
      ppid in lv' && lv'[ppid] == level + 1 && newPid in lv' && lv'[newPid] == level &&
      (forall q :: q in lv ==> q in lv' && lv'[q] == lv[q]) &&
      (forall q :: q in lv' ==> q in lv || q == ppid || q == newPid)
  {
  }

  /**
   * `splitChild` keeps the tree's shape. The parent (at page `ppid`, one
   * level above the full child i) may still be outside the tree, as the new
   * root is when `insert` grows the tree; afterwards it and the new sibling
   * `newPid` belong to it. `pages'` is the file after the three writes of
   * the old child, the parent and the new sibling.
   */
  lemma SplitKeepsTyped(pages: seq<Page>, lv: map<Int32, nat>, parent: NodeImage, ppid: Int32,
                        i: nat, sep: Int32, newPid: Int32, level: nat, pages': seq<Page>)
    requires GeometryOk() && Typed(pages, lv)
    requires NodeOk(parent, level + 1) && parent.n < 2 * NONLEAF_T - 1 && i <= parent.n
    requires ChildrenOk(parent, lv, level + 1)
    requires ppid >= 0 && (ppid !in lv || lv[ppid] == level + 1)
    requires newPid >= 0 && newPid !in lv && newPid != ppid
    requires 0 <= parent.pids[i] < |pages| && Full(Decode(pages[parent.pids[i]]))
    requires var c := Decode(pages[parent.pids[i]]);
      WrittenThree(pages, pages', parent.pids[i], SplitLeft(c, newPid), ppid,
                   AfterSplit(parent, i, sep, newPid), newPid, SplitRight(c))
    ensures Typed(pages', SplitLevels(lv, ppid, newPid, level))
  {
    Capacities();
    var cp := parent.pids[i];
    assert cp in lv && lv[cp] == level;
    var c := Decode(pages[cp]);
    var lv' := SplitLevels(lv, ppid, newPid, level);
    SplitLevelsGrow(lv, ppid, newPid, level);
    HalvesOk(c, cp, newPid, level, lv, lv');
    var up := AfterSplit(parent, i, sep, newPid);
    ParentOk(parent, ppid, i, sep, newPid, level, lv, lv');
    TypedThree(pages, lv, pages', lv', cp, SplitLeft(c, newPid), ppid, up, newPid, SplitRight(c));
  }

  /** A known page's child j is a known page one level down. */
  lemma ChildInTree(pages: seq<Page>, lv: map<Int32, nat>, p: Int32, j: int)
    requires GeometryOk() && Typed(pages, lv) && p in lv && lv[p] > 0 && 0 <= j <= Decode(pages[p]).n
    ensures 0 <= Decode(pages[p]).pids[j] < |pages|
    ensures Decode(pages[p]).pids[j] in lv && lv[Decode(pages[p]).pids[j]] == lv[p] - 1
  {
    assert ChildrenOk(Decode(pages[p]), lv, lv[p]);
  }

  /** A non-leaf without keys has one child, so a known child one level down is all it needs. */
  lemma OneChildOk(img: NodeImage, lv: map<Int32, nat>, level: nat)
    requires GeometryOk() && WellSized(img) && !img.isLeaf && img.n == 0
    requires img.pids[0] in lv && lv[img.pids[0]] == level
    ensures ChildrenOk(img, lv, level + 1)
  {
  }

  /** lv' keeps every level of lv, and the pages it adds are numbered from `from` on. */
  ghost predicate Grows(lv: map<Int32, nat>, lv': map<Int32, nat>, from: int)
  {
    (forall q :: q in lv ==> q in lv' && lv'[q] == lv[q]) &&
    (forall q :: q in lv' && q !in lv ==> q >= from)
  }

  /** The file only grows, and its pages outside the tree keep their contents. */
  ghost predicate OutsideKept(pages: seq<Page>, pages': seq<Page>, lv: map<Int32, nat>)
  {
    |pages| <= |pages'| &&
    forall q: Int32 :: 0 <= q < |pages| && q !in lv ==> pages'[q] == pages[q]
  }

  /** The file only grows, and the tree pages above `level` keep their contents. */
  ghost predicate KeptAbove(pages: seq<Page>, pages': seq<Page>, lv: map<Int32, nat>, level: nat)
  {
    |pages| <= |pages'| &&
    forall q :: q in lv && lv[q] > level && 0 <= q < |pages| ==> pages'[q] == pages[q]
  }

  /** Tree leaf `leaf` holds the entries of the leaf image `before` with (key, rid) inserted. */
  ghost predicate HoldsInsert(pages: seq<Page>, lv: map<Int32, nat>, leaf: Int32, before: NodeImage, key: Int32, rid: RecordId)
    requires GeometryOk()
  {
    leaf in lv && lv[leaf] == 0 && 0 <= leaf < |pages| &&
    WellSized(before) && before.isLeaf && 0 <= before.n < KEYS_PER_LEAF_PAGE &&
    Decode(pages[leaf]) == LeafInsert(before, key, rid)
  }

  /**
   * Tree page q is reached from tree page p by following the child slots
   * of `path` down: every page on the way is a tree page one level below
   * the one before, and the page at the end of the path is q.
   */
  ghost predicate Reaches(pages: seq<Page>, lv: map<Int32, nat>, p: Int32, path: seq<int>, q: Int32)
    requires GeometryOk()
    decreases |path|
  {
    p in lv && lv[p] == |path| && 0 <= p < |pages| &&
    if path == [] then q == p
    else
      var img := Decode(pages[p]);
      !img.isLeaf && 0 <= path[0] <= img.n && path[0] < |img.pids| && Reaches(pages, lv, img.pids[path[0]], path[1..], q)
  }

  /** A path down the tree depends only on what the pages decode to. */
  lemma {:induction false} ReachesSameImages(pages: seq<Page>, pages': seq<Page>, lv: map<Int32, nat>,
                                             p: Int32, path: seq<int>, q: Int32)
    requires GeometryOk() && Reaches(pages, lv, p, path, q) && |pages| <= |pages'|
    requires forall x :: 0 <= x < |pages| ==> Decode(pages'[x]) == Decode(pages[x])
    ensures Reaches(pages', lv, p, path, q)
    decreases |path|
  {
    if path != [] {
      ReachesSameImages(pages, pages', lv, Decode(pages[p]).pids[path[0]], path[1..], q);
    }
  }

  /** One step down: a path from child j of tree page p, prefixed with j, is a path from p. */
  lemma ReachesStep(pages: seq<Page>, lv: map<Int32, nat>, p: Int32, j: int, below: seq<int>, q: Int32)
    requires GeometryOk() && p in lv && lv[p] == |below| + 1 && 0 <= p < |pages|
    requires !Decode(pages[p]).isLeaf && 0 <= j <= Decode(pages[p]).n && j < |Decode(pages[p]).pids|
    requires Reaches(pages, lv, Decode(pages[p]).pids[j], below, q)
    ensures Reaches(pages, lv, p, [j] + below, q)
  {
    assert ([j] + below)[1..] == below;
  }

  /** Writing a page again with the image it already decodes to keeps every path. */
  lemma RewriteReaches(pages: seq<Page>, lv: map<Int32, nat>, p: Int32, img: NodeImage, r: Int32, path: seq<int>, q: Int32)
    requires GeometryOk() && WellSized(img) && 0 <= p < |pages| && Decode(pages[p]) == img
    requires Reaches(pages, lv, r, path, q)
    ensures Reaches(Put(pages, p, img), lv, r, path, q)
  {
    var pages' := Put(pages, p, img);
    forall x | 0 <= x < |pages|
      ensures Decode(pages'[x]) == Decode(pages[x])
    {
      if x != p {
        assert pages'[x] == pages[x];
      }
    }
    ReachesSameImages(pages, pages', lv, r, path, q);
  }

  /** The entries of page q when it is a leaf of the tree; any other page contributes none. */
  ghost function Held(pages: seq<Page>, lv: map<Int32, nat>, q: nat): multiset<Entry>
    requires GeometryOk() && q < |pages|
  {
    var img := Decode(pages[q]);
    if q in lv && lv[q] == 0 && img.isLeaf && 0 <= img.n <= |img.keys| && img.n <= |img.rids|
    then multiset(Entries(img)) else multiset{}
  }

  /** What each page of the file contributes to the tree's entries. */
  ghost function Shares(pages: seq<Page>, lv: map<Int32, nat>): (s: seq<multiset<Entry>>)
    requires GeometryOk()
    ensures |s| == |pages| && forall q :: 0 <= q < |pages| ==> s[q] == Held(pages, lv, q)
  {
    seq(|pages|, q requires 0 <= q < |pages| => Held(pages, lv, q))
  }

  /** The union of a sequence of multisets. */
  function Sum<T>(s: seq<multiset<T>>): multiset<T>
  {
    if s == [] then multiset{} else Sum(s[..|s| - 1]) + s[|s| - 1]
  }

  /** Every (key, rid) pair the tree holds, once per leaf slot that holds it. */
  ghost function TreeEntries(pages: seq<Page>, lv: map<Int32, nat>): multiset<Entry>
    requires GeometryOk()
  {
    Sum(Shares(pages, lv))
  }

  /** Two sequences that differ only at d have sums that differ by exactly those two elements. */
  lemma {:induction false} SumOne<T>(s: seq<multiset<T>>, t: seq<multiset<T>>, d: nat)
    requires |s| == |t| && d < |s|
    requires forall q :: 0 <= q < |s| && q != d ==> s[q] == t[q]
    ensures Sum(t) + s[d] == Sum(s) + t[d]
  {
    var k := |s| - 1;
    if k == d {
      assert s[..k] == t[..k];
    } else {
      SumOne(s[..k], t[..k], d);
      assert s[..k][d] == s[d] && t[..k][d] == t[d] && s[k] == t[k];
      assert Sum(t) + s[d] == (Sum(t[..k]) + s[d]) + t[k];
    }
  }

  /** A sequence of empty multisets sums to the empty multiset. */
  lemma {:induction false} SumEmpty<T>(s: seq<multiset<T>>)
    requires forall q :: 0 <= q < |s| ==> s[q] == multiset{}
    ensures Sum(s) == multiset{}
  {
    if s != [] {
      SumEmpty(s[..|s| - 1]);
    }
  }

  /**
   * A sequence that agrees with s except at d, and then runs past the end
   * of s through empty elements to a last element e, sums to s with s[d]
   * replaced by the elements at d and e.
   */
  lemma SumTwo<T>(s: seq<multiset<T>>, t: seq<multiset<T>>, d: nat, e: nat)
    requires d < |s| <= e && |t| == e + 1 && e <= |s| + 1
    requires forall q :: 0 <= q < |s| && q != d ==> s[q] == t[q]
    requires forall q :: |s| <= q < e ==> t[q] == multiset{}
    ensures Sum(t) + s[d] == Sum(s) + t[d] + t[e]
  {
    var w := t[..e];
    assert Sum(t) == Sum(w) + t[e];
    var w' := w[..|s|];
    if e == |s| + 1 {
      assert Sum(w) == Sum(w') + t[|s|];
    } else {
      assert w' == w;
    }
    SumOne(s, w', d);
  }

  /** Rewriting a page with the image it already decodes to leaves the tree's entries alone. */
  lemma RewriteKeepsEntries(pages: seq<Page>, lv: map<Int32, nat>, p: Int32, img: NodeImage)
    requires GeometryOk() && WellSized(img) && 0 <= p < |pages| && Decode(pages[p]) == img
    ensures TreeEntries(Put(pages, p, img), lv) == TreeEntries(pages, lv)
  {
    var pages' := Put(pages, p, img);
    var s, t := Shares(pages, lv), Shares(pages', lv);
    forall q | 0 <= q < |pages|
      ensures s[q] == t[q]
    {
      if q != p {
        assert pages'[q] == pages[q];
      }
    }
    assert s == t;
  }

  /** The leaf insert of a tree leaf, written back: a run of insert steps that keeps the tree typed and adds the pair. */
  lemma LeafInsertOutcome(pages: seq<Page>, lv: map<Int32, nat>, p: Int32, key: Int32, rid: RecordId)
    requires GeometryOk() && Typed(pages, lv) && p in lv && lv[p] == 0
    requires Decode(pages[p]).n < 2 * LEAF_T - 1
    ensures var pages' := Put(pages, p, LeafInsert(Decode(pages[p]), key, rid));
      Typed(pages', lv) && Extends(pages, pages', lv, lv, 0) &&
      TreeEntries(pages', lv) == TreeEntries(pages, lv) + multiset{Entry(key, rid)}
  {
    Capacities();
    LeafInsertKeepsTyped(pages, lv, p, key, rid);
    LeafInsertAddsEntry(pages, lv, p, key, rid);
    PutExtends(pages, lv, p, LeafInsert(Decode(pages[p]), key, rid), 0);
  }

  /** Writing the insert into a tree leaf adds exactly the new pair to the tree's entries. */
  lemma LeafInsertAddsEntry(pages: seq<Page>, lv: map<Int32, nat>, p: Int32, key: Int32, rid: RecordId)
    requires GeometryOk() && Typed(pages, lv) && p in lv && lv[p] == 0
    requires Decode(pages[p]).n < 2 * LEAF_T - 1
    ensures TreeEntries(Put(pages, p, LeafInsert(Decode(pages[p]), key, rid)), lv)
         == TreeEntries(pages, lv) + multiset{Entry(key, rid)}
  {
    Capacities();
    var img := Decode(pages[p]);
    assert NodeOk(img, lv[p]);
    var pages' := Put(pages, p, LeafInsert(img, key, rid));
    var s, t := Shares(pages, lv), Shares(pages', lv);
    HeldInsert(pages, lv, p, img, pages', key, rid);
    forall q | 0 <= q < |pages| && q != p
      ensures s[q] == t[q]
    {
      assert pages'[q] == pages[q];
    }
    SumOne(s, t, p);
    MultisetShift(Sum(t), Sum(s), s[p], t[p], multiset{Entry(key, rid)});
  }

  /** ... the leaf's own share grows by the pair ... */
  lemma HeldInsert(pages: seq<Page>, lv: map<Int32, nat>, p: Int32, img: NodeImage, pages': seq<Page>,
                   key: Int32, rid: RecordId)
    requires GeometryOk() && 0 <= p < |pages| && p in lv && lv[p] == 0 && img == Decode(pages[p])
    requires WellSized(img) && img.isLeaf && 0 <= img.n < KEYS_PER_LEAF_PAGE
    requires |pages'| == |pages| && Decode(pages'[p]) == LeafInsert(img, key, rid)
    ensures Held(pages', lv, p) == Held(pages, lv, p) + multiset{Entry(key, rid)}
  {
    LeafInsertEntries(img, key, rid);
    LeafInsertMultiset(img, key, rid);
  }

  lemma MultisetShift<T>(a: multiset<T>, b: multiset<T>, c: multiset<T>, d: multiset<T>, e: multiset<T>)
    requires a + c == b + d && d == c + e
    ensures a == b + e
  {
    forall z
      ensures a[z] == (b + e)[z]
    {
      assert (a + c)[z] == (b + d)[z];
    }
  }

  lemma MultisetRegroup<T>(a: multiset<T>, b: multiset<T>, x: multiset<T>, y: multiset<T>, c: multiset<T>)
    requires a + c == b + x + y && x + y == c
    ensures a == b
  {
    forall z
      ensures a[z] == b[z]
    {
      assert (a + c)[z] == (b + x + y)[z];
    }
  }

  /**
   * A split moves the entries of a full leaf into its two halves and adds
   * only non-leaf pages otherwise, so the tree holds the same entries.
   */
  lemma SplitKeepsEntries(pages: seq<Page>, pages': seq<Page>, lv: map<Int32, nat>, parent: NodeImage,
                          ppid: Int32, i: nat, newPid: Int32, level: nat)
    requires SplitSetting(pages, pages', lv, parent, ppid, i, newPid, level)
    ensures TreeEntries(pages', SplitLevels(lv, ppid, newPid, level)) == TreeEntries(pages, lv)
  {
    Capacities();
    var cp := parent.pids[i];
    var c := Decode(pages[cp]);
    var up := AfterSplit(parent, i, Separator(c), newPid);
    var p1 := Put(pages, cp, SplitLeft(c, newPid));
    var p2 := Put(p1, ppid, up);
    assert |p2| == |pages| + (if ppid == |pages| then 1 else 0);
    SplitChildWritten(pages, pages', lv, parent, ppid, i, newPid, level);
    if level == 0 {
      LeafSplit(c, newPid);
    }
    ThreeKeepEntries(pages, pages', lv, c, SplitLeft(c, newPid), up, SplitRight(c), cp, ppid, newPid, level);
  }

  /** ... which holds for any three writes that replace a tree page by two halves holding its entries ... */
  lemma ThreeKeepEntries(pages: seq<Page>, pages': seq<Page>, lv: map<Int32, nat>,
                         c: NodeImage, l: NodeImage, up: NodeImage, r: NodeImage,
                         cp: Int32, ppid: Int32, newPid: Int32, level: nat)
    requires GeometryOk() && WrittenThree(pages, pages', cp, l, ppid, up, newPid, r) && |pages'| == newPid + 1
    requires (0 <= ppid < |pages| && ppid in lv && lv[ppid] == level + 1 && newPid == |pages|) ||
             (ppid == |pages| && newPid == |pages| + 1)
    requires 0 <= cp < |pages| && c == Decode(pages[cp]) && cp in lv && lv[cp] == level && c.isLeaf == (level == 0)
    requires l.isLeaf == c.isLeaf && r.isLeaf == c.isLeaf
    requires c.isLeaf ==> (0 <= l.n <= c.n && 0 <= r.n <= c.n && c.n <= KEYS_PER_LEAF_PAGE &&
                           Entries(l) + Entries(r) == Entries(c))
    ensures TreeEntries(pages', SplitLevels(lv, ppid, newPid, level)) == TreeEntries(pages, lv)
  {
    var lv' := SplitLevels(lv, ppid, newPid, level);
    SplitShares(pages, pages', lv, cp, ppid, newPid, level);
    HalvesHeld(pages, pages', lv, lv', c, l, r, cp, newPid);
    MultisetRegroup(TreeEntries(pages', lv'), TreeEntries(pages, lv),
                    Held(pages', lv', cp), Held(pages', lv', newPid), Held(pages, lv, cp));
  }

  /** ... only the split child and the new sibling contribute differently ... */
  lemma SplitShares(pages: seq<Page>, pages': seq<Page>, lv: map<Int32, nat>,
                    cp: Int32, ppid: Int32, newPid: Int32, level: nat)
    requires GeometryOk() && |pages'| == newPid + 1 && 0 <= cp < |pages| && cp != ppid && newPid >= |pages|
    requires forall q :: 0 <= q < |pages| && q != cp && q != ppid && q != newPid ==> pages'[q] == pages[q]
    requires (0 <= ppid < |pages| && ppid in lv && lv[ppid] == level + 1 && newPid == |pages|) ||
             (ppid == |pages| && newPid == |pages| + 1)
    ensures var lv' := SplitLevels(lv, ppid, newPid, level);
      TreeEntries(pages', lv') + Held(pages, lv, cp) == TreeEntries(pages, lv) + Held(pages', lv', cp) + Held(pages', lv', newPid)
  {
    var lv' := SplitLevels(lv, ppid, newPid, level);
    var s, t := Shares(pages, lv), Shares(pages', lv');
    SplitHeldOthers(pages, pages', lv, cp, ppid, newPid, level);
    if ppid == |pages| {
      assert t[ppid] == Held(pages', lv', ppid) == multiset{};
    }
    SumTwo(s, t, cp, newPid);
  }

  /** ... pages other than the split child contribute as before: the parent is no leaf, the rest is unchanged ... */
  lemma SplitHeldOthers(pages: seq<Page>, pages': seq<Page>, lv: map<Int32, nat>,
                        cp: Int32, ppid: Int32, newPid: Int32, level: nat)
    requires GeometryOk() && |pages'| >= |pages| && newPid >= |pages|
    requires forall q :: 0 <= q < |pages| && q != cp && q != ppid && q != newPid ==> pages'[q] == pages[q]
    requires 0 <= ppid < |pages| ==> ppid in lv && lv[ppid] == level + 1
    ensures forall q: nat :: q < |pages| && q != cp ==> Held(pages, lv, q) == Held(pages', SplitLevels(lv, ppid, newPid, level), q)
  {
    var lv' := SplitLevels(lv, ppid, newPid, level);
    forall q: nat | q < |pages| && q != cp
      ensures Held(pages, lv, q) == Held(pages', lv', q)
    {
      if q != ppid {
        assert pages'[q] == pages[q];
        assert (q in lv') == (q in lv);
      }
    }
  }

  /** ... and the two halves of the child together hold what the child held. */
  lemma HalvesHeld(pages: seq<Page>, pages': seq<Page>, lv: map<Int32, nat>, lv': map<Int32, nat>,
                   c: NodeImage, l: NodeImage, r: NodeImage, cp: Int32, np: Int32)
    requires GeometryOk() && 0 <= cp < |pages| && cp < |pages'| && 0 <= np < |pages'|
    requires c == Decode(pages[cp]) && l == Decode(pages'[cp]) && r == Decode(pages'[np])
    requires cp in lv && cp in lv' && np in lv' && lv'[cp] == lv[cp] && lv'[np] == lv[cp]
    requires c.isLeaf == (lv[cp] == 0) && l.isLeaf == c.isLeaf && r.isLeaf == c.isLeaf
    requires c.isLeaf ==> (0 <= l.n <= c.n && 0 <= r.n <= c.n && c.n <= KEYS_PER_LEAF_PAGE &&
                           Entries(l) + Entries(r) == Entries(c))
    ensures Held(pages', lv', cp) + Held(pages', lv', np) == Held(pages, lv, cp)
  {
    if c.isLeaf {
      assert Held(pages', lv', cp) == multiset(Entries(l));
      assert Held(pages', lv', np) == multiset(Entries(r));
      assert Held(pages, lv, cp) == multiset(Entries(l) + Entries(r));
    }
  }


  /**
   * One run of `insertNonFull` from a page at `level`: the tree keeps its
   * shape under the grown level map, whose new pages are numbered from the
   * old end of the file on, pages outside the tree keep their contents, and
   * so do the tree pages above `level`.
   */
  ghost predicate Extends(pages: seq<Page>, pages': seq<Page>, lv: map<Int32, nat>, lv': map<Int32, nat>, level: nat)
    requires GeometryOk()
  {
    Typed(pages', lv') && Grows(lv, lv', |pages|) && OutsideKept(pages, pages', lv) && KeptAbove(pages, pages', lv, level)
  }

  /** Writing a tree page at or below `level` in place, keeping the shape, is such a run. */
  lemma PutExtends(pages: seq<Page>, lv: map<Int32, nat>, p: Int32, img: NodeImage, level: nat)
    requires GeometryOk() && WellSized(img) && p in lv && lv[p] <= level && Typed(Put(pages, p, img), lv)
    ensures Extends(pages, Put(pages, p, img), lv, lv, level)
  {
  }

  /** Doing nothing is such a run. */
  lemma ExtendsRefl(pages: seq<Page>, lv: map<Int32, nat>, level: nat)
    requires GeometryOk() && Typed(pages, lv)
    ensures Extends(pages, pages, lv, lv, level)
  {
  }

  /**
   * A step at `level` followed by a run from one level down is a run at
   * `level`, and it leaves the page p at `level` where the step put it.
   */
  lemma ExtendsChain(p0: seq<Page>, p1: seq<Page>, p2: seq<Page>,
                     lv: map<Int32, nat>, lv1: map<Int32, nat>, lv2: map<Int32, nat>, level: nat, p: Int32)
    requires GeometryOk() && level >= 1
    requires Extends(p0, p1, lv, lv1, level) && Extends(p1, p2, lv1, lv2, level - 1)
    requires p in lv1 && lv1[p] == level && 0 <= p < |p1|
    ensures Extends(p0, p2, lv, lv2, level) && p2[p] == p1[p]
  {
    forall q: Int32 | 0 <= q < |p0| && q !in lv
      ensures p2[q] == p1[q]
    {
      assert q !in lv1;
    }
  }

  /**
   * The situation of `splitChild` as `insertNonFull` and `insert` use it:
   * child i of the parent on page ppid, one level above the child, is full,
   * and either the parent is a tree page and the new sibling the next page
   * of the file, or the parent is the new root on the next page and the
   * sibling the one after it; `pages'` is the file after the three writes.
   */
  ghost predicate SplitSetting(pages: seq<Page>, pages': seq<Page>, lv: map<Int32, nat>, parent: NodeImage,
                               ppid: Int32, i: nat, newPid: Int32, level: nat)
  {
    SplitReady(pages, lv, parent, ppid, i, newPid, level) &&
    var c := Decode(pages[parent.pids[i]]);
    SplitStored(pages, pages', parent.pids[i], c, ppid, AfterSplit(parent, i, Separator(c), newPid), newPid)
  }

  /** The same situation before the writes. */
  ghost predicate SplitReady(pages: seq<Page>, lv: map<Int32, nat>, parent: NodeImage,
                             ppid: Int32, i: nat, newPid: Int32, level: nat)
  {
    GeometryOk() && (forall q :: q in lv ==> 0 <= q < |pages|) &&
    NodeOk(parent, level + 1) && parent.n < 2 * NONLEAF_T - 1 && i <= parent.n &&
    ((ppid in lv && lv[ppid] == level + 1 && newPid == |pages|) || (ppid == |pages| && newPid == |pages| + 1)) &&
    parent.pids[i] in lv && lv[parent.pids[i]] == level &&
    NodeOk(Decode(pages[parent.pids[i]]), level) && Full(Decode(pages[parent.pids[i]]))
  }

  /**
   * After such a split the tree keeps its shape with the parent and the
   * sibling as members, the file ends just past the sibling, and pages
   * outside the tree are untouched.
   */
  lemma SplitChildTyped(pages: seq<Page>, pages': seq<Page>, lv: map<Int32, nat>, parent: NodeImage,
                        ppid: Int32, i: nat, newPid: Int32, level: nat)
    requires SplitSetting(pages, pages', lv, parent, ppid, i, newPid, level)
    requires Typed(pages, lv) && ChildrenOk(parent, lv, level + 1)
    ensures Typed(pages', SplitLevels(lv, ppid, newPid, level))
    ensures Grows(lv, SplitLevels(lv, ppid, newPid, level), |pages|) && OutsideKept(pages, pages', lv)
    ensures |pages'| == newPid + 1
  {
    Capacities();
    var cp := parent.pids[i];
    var c := Decode(pages[cp]);
    var up := AfterSplit(parent, i, Separator(c), newPid);
    var p1 := Put(pages, cp, SplitLeft(c, newPid));
    var p2 := Put(p1, ppid, up);
    assert |p2| == |pages| + (if ppid == |pages| then 1 else 0);
    SplitStoredWritten(pages, pages', cp, c, ppid, up, newPid);
    SplitKeepsTyped(pages, lv, parent, ppid, i, Separator(c), newPid, level, pages');
    SplitFrame(pages, pages', lv, cp, ppid, newPid, level);
  }

  /** The split adds only the parent and the sibling, numbered from the old end of the file on if new. */
  lemma SplitFrame(pages: seq<Page>, pages': seq<Page>, lv: map<Int32, nat>,
                   cp: Int32, ppid: Int32, newPid: Int32, level: nat)
    requires forall q :: q in lv ==> 0 <= q < |pages|
    requires cp in lv && (ppid in lv ==> lv[ppid] == level + 1) && (ppid !in lv ==> ppid >= |pages|)
    requires newPid >= |pages| && newPid != ppid && |pages'| >= |pages|
    requires forall q :: 0 <= q < |pages| && q != cp && q != ppid && q != newPid ==> pages'[q] == pages[q]
    ensures Grows(lv, SplitLevels(lv, ppid, newPid, level), |pages|) && OutsideKept(pages, pages', lv)
  {
    var lv' := SplitLevels(lv, ppid, newPid, level);
    SplitLevelsGrow(lv, ppid, newPid, level);
  }

  /** ... the three pages hold what `splitChild` wrote and nothing else moved ... */
  lemma SplitChildWritten(pages: seq<Page>, pages': seq<Page>, lv: map<Int32, nat>, parent: NodeImage,
                          ppid: Int32, i: nat, newPid: Int32, level: nat)
    requires SplitSetting(pages, pages', lv, parent, ppid, i, newPid, level)
    ensures var c := Decode(pages[parent.pids[i]]);
      WrittenThree(pages, pages', parent.pids[i], SplitLeft(c, newPid), ppid,
                   AfterSplit(parent, i, Separator(c), newPid), newPid, SplitRight(c))
  {
    var cp := parent.pids[i];
    var c := Decode(pages[cp]);
    SplitStoredWritten(pages, pages', cp, c, ppid, AfterSplit(parent, i, Separator(c), newPid), newPid);
  }

  /** ... the parent holds the separator at key i, between the old child and the sibling ... */
  lemma SplitChildParent(parent: NodeImage, i: nat, sep: Int32, newPid: Int32)
    requires GeometryOk() && WellSized(parent) && !parent.isLeaf
    requires 0 <= parent.n < KEYS_PER_NONLEAF_PAGE && i <= parent.n
    ensures var up := AfterSplit(parent, i, sep, newPid);
      up.keys[i] == sep && up.pids[i] == parent.pids[i] && up.pids[i + 1] == newPid
  {
    InsertedAt(parent.keys, parent.n, i, sep);
    InsertedAt(parent.pids, parent.n + 1, i + 1, newPid);
  }

  /** ... and neither half of the split child is full. */
  lemma SplitHalvesRoomy(c: NodeImage, newPid: Int32)
    requires GeometryOk() && WellSized(c) && Full(c)
    ensures SplitLeft(c, newPid).n < 2 * T(c.isLeaf) - 1 && SplitRight(c).n < 2 * T(c.isLeaf) - 1
  {
    Capacities();
  }

  /**
   * Child slot j of the non-leaf image `up` holds a tree page one level
   * down that is not full: where `insertNonFull` goes on after a split.
   */
  ghost predicate Landing(pages: seq<Page>, lv: map<Int32, nat>, up: NodeImage, j: int, level: nat)
    requires GeometryOk()
  {
    WellSized(up) && !up.isLeaf && 0 <= j <= up.n <= KEYS_PER_NONLEAF_PAGE && j < PIDS_PER_PAGE &&
    up.pids[j] in lv && lv[up.pids[j]] == level && 0 <= up.pids[j] < |pages| &&
    Decode(pages[up.pids[j]]).n < 2 * T(level == 0) - 1
  }

  /**
   * The child of the non-leaf `up` that `insertNonFull` moves on to with
   * key, the parent `up'` it leaves and the next free page newPid': child
   * slot i = InsertPos when that child has room, with the parent and
   * newPid unchanged; otherwise child i is split with its new sibling on
   * page newPid, the parent gains the separator at slot i and the sibling
   * at slot i + 1, newPid moves on by one, and the walk takes i or i + 1 by
   * whether key is below the separator.
   */
  ghost predicate Routed(pages: seq<Page>, lv: map<Int32, nat>, up: NodeImage, key: Int32, level: nat,
                         newPid: Int32, newPid': int, up': NodeImage, j: int)
    requires GeometryOk() && WellSized(up) && !up.isLeaf && 0 <= up.n < KEYS_PER_NONLEAF_PAGE
  {
    var i := InsertPos(up.keys, up.n, key);
    if Landing(pages, lv, up, i, level) then up' == up && j == i && newPid' == newPid
    else
      newPid' == newPid + 1 && i < |up'.keys| && up' == AfterSplit(up, i, up'.keys[i], newPid) &&
      j == (if key >= up'.keys[i] then i + 1 else i)
  }

  /** A child with room at slot InsertPos: the walk goes on there and the parent is kept. */
  lemma RoutedKept(pages: seq<Page>, lv: map<Int32, nat>, up: NodeImage, key: Int32, level: nat, newPid: Int32)
    requires GeometryOk() && WellSized(up) && !up.isLeaf && 0 <= up.n < KEYS_PER_NONLEAF_PAGE
    requires Landing(pages, lv, up, InsertPos(up.keys, up.n, key), level)
    ensures Routed(pages, lv, up, key, level, newPid, newPid, up, InsertPos(up.keys, up.n, key))
  {
  }

  /** A full child at slot i = InsertPos, split: the walk goes on at the half on the key's side. */
  lemma RoutedSplit(pages: seq<Page>, lv: map<Int32, nat>, up: NodeImage, key: Int32, level: nat, newPid: Int32,
                    i: nat, up': NodeImage, j: int)
    requires GeometryOk() && WellSized(up) && !up.isLeaf && 0 <= up.n < KEYS_PER_NONLEAF_PAGE
    requires i == InsertPos(up.keys, up.n, key) && i < |up.pids| && 0 <= up.pids[i] < |pages|
    requires Full(Decode(pages[up.pids[i]])) && Decode(pages[up.pids[i]]).isLeaf == (level == 0)
    requires up' == AfterSplit(up, i, Separator(Decode(pages[up.pids[i]])), newPid)
    requires j == (if key >= Separator(Decode(pages[up.pids[i]])) then i + 1 else i)
    ensures Routed(pages, lv, up, key, level, newPid, newPid + 1, up', j)
  {
    Capacities();
    InsertedAt(up.keys, up.n, i, Separator(Decode(pages[up.pids[i]])));
  }

  /** All that `insertNonFull` needs to know about one split of child i. */
  lemma SplitChildOutcome(pages: seq<Page>, pages': seq<Page>, lv: map<Int32, nat>, parent: NodeImage,
                          ppid: Int32, i: nat, newPid: Int32, level: nat, j: int)
    requires SplitSetting(pages, pages', lv, parent, ppid, i, newPid, level)
    requires Typed(pages, lv) && ChildrenOk(parent, lv, level + 1) && (j == i || j == i + 1)
    ensures var lv' := SplitLevels(lv, ppid, newPid, level);
      var up := AfterSplit(parent, i, Separator(Decode(pages[parent.pids[i]])), newPid);
      Extends(pages, pages', lv, lv', level + 1) &&
      |pages'| == newPid + 1 && up.keys[i] == Separator(Decode(pages[parent.pids[i]])) &&
      Landing(pages', lv', up, j, level) && TreeEntries(pages', lv') == TreeEntries(pages, lv) &&
      0 <= ppid < |pages'| && Decode(pages'[ppid]) == up
  {
    SplitChildWritten(pages, pages', lv, parent, ppid, i, newPid, level);
    SplitKeepsEntries(pages, pages', lv, parent, ppid, i, newPid, level);
    SplitChildTyped(pages, pages', lv, parent, ppid, i, newPid, level);
    SplitChildKeepsAbove(pages, pages', lv, parent, ppid, i, newPid, level);
    SplitChildParent(parent, i, Separator(Decode(pages[parent.pids[i]])), newPid);
    SplitChildLands(pages, pages', lv, parent, ppid, i, newPid, level, j);
  }

  /**
   * All that the root split of `insert` needs: under the new root on page
   * ppid, the end of the file, both children land on a tree page with
   * room, the tree holds the same entries, and the new root reads back.
   */
  lemma RootSplitOutcome(pages: seq<Page>, pages': seq<Page>, lv: map<Int32, nat>, parent: NodeImage,
                         ppid: Int32, newPid: Int32, level: nat)
    requires SplitSetting(pages, pages', lv, parent, ppid, 0, newPid, level) && ppid == |pages|
    requires Typed(pages, lv) && ChildrenOk(parent, lv, level + 1) && parent.n == 0
    ensures var lv' := SplitLevels(lv, ppid, newPid, level);
      var up := AfterSplit(parent, 0, Separator(Decode(pages[parent.pids[0]])), newPid);
      Extends(pages, pages', lv, lv', level + 1) && |pages'| == newPid + 1 &&
      up.n == 1 && Landing(pages', lv', up, 0, level) && Landing(pages', lv', up, 1, level) &&
      TreeEntries(pages', lv') == TreeEntries(pages, lv) &&
      0 <= ppid < |pages'| && Decode(pages'[ppid]) == up
  {
    var lv' := SplitLevels(lv, ppid, newPid, level);
    var up := AfterSplit(parent, 0, Separator(Decode(pages[parent.pids[0]])), newPid);
    SplitChildOutcome(pages, pages', lv, parent, ppid, 0, newPid, level, 0);
    SplitChildLands(pages, pages', lv, parent, ppid, 0, newPid, level, 1);
    RootReadBack(pages, pages', lv, parent, ppid, newPid, level);
  }

  /**
   * After the split under a new root on page ppid, the end of the file,
   * the new root reads back from its page.
   */
  lemma RootReadBack(pages: seq<Page>, pages': seq<Page>, lv: map<Int32, nat>, parent: NodeImage,
                     ppid: Int32, newPid: Int32, level: nat)
    requires SplitSetting(pages, pages', lv, parent, ppid, 0, newPid, level) && ppid == |pages|
    ensures 0 <= ppid < |pages'| && Decode(pages'[ppid]) == AfterSplit(parent, 0, Separator(Decode(pages[parent.pids[0]])), newPid)
  {
    var c := Decode(pages[parent.pids[0]]);
    ReadBackMiddle(pages, pages', parent.pids[0], c, ppid, AfterSplit(parent, 0, Separator(c), newPid), newPid);
  }

  /** Of the three writes of a split, the middle one reads back when it lands past the first, before the last. */
  lemma ReadBackMiddle(pages: seq<Page>, pages': seq<Page>, cp: Int32, c: NodeImage,
                       pp: Int32, parent: NodeImage, newPid: Int32)
    requires GeometryOk() && WellSized(c) && Full(c) && WellSized(parent)
    requires SplitStored(pages, pages', cp, c, pp, parent, newPid)
    requires 0 <= cp < |pages| == pp && newPid == pp + 1
    ensures 0 <= pp < |pages'| && Decode(pages'[pp]) == parent
  {
    var inner := Put(Put(pages, cp, SplitLeft(c, newPid)), pp, parent);
    assert pages'[pp] == inner[pp];
  }

  /** The split writes the child, the parent and a new page, so the tree above the parent is kept. */
  lemma SplitChildKeepsAbove(pages: seq<Page>, pages': seq<Page>, lv: map<Int32, nat>, parent: NodeImage,
                             ppid: Int32, i: nat, newPid: Int32, level: nat)
    requires SplitSetting(pages, pages', lv, parent, ppid, i, newPid, level)
    ensures KeptAbove(pages, pages', lv, level + 1)
  {
    SplitChildWritten(pages, pages', lv, parent, ppid, i, newPid, level);
    forall q | q in lv && lv[q] > level + 1 && 0 <= q < |pages|
      ensures pages'[q] == pages[q]
    {
      assert q != parent.pids[i] && q != ppid && q != newPid;
    }
  }

  /** After the split both children around the new separator are such pages. */
  lemma SplitChildLands(pages: seq<Page>, pages': seq<Page>, lv: map<Int32, nat>, parent: NodeImage,
                        ppid: Int32, i: nat, newPid: Int32, level: nat, j: int)
    requires SplitSetting(pages, pages', lv, parent, ppid, i, newPid, level)
    requires j == i || j == i + 1
    ensures Landing(pages', SplitLevels(lv, ppid, newPid, level),
                    AfterSplit(parent, i, Separator(Decode(pages[parent.pids[i]])), newPid), j, level)
  {
    var cp := parent.pids[i];
    var c := Decode(pages[cp]);
    var lv' := SplitLevels(lv, ppid, newPid, level);
    SplitChildWritten(pages, pages', lv, parent, ppid, i, newPid, level);
    assert cp in lv && lv[cp] == level && cp < |pages| <= newPid;
    assert cp != ppid by {
      assert ppid in lv ==> lv[ppid] == level + 1;
    }
    SplitLevelsAt(lv, ppid, newPid, level, cp);
    HalvesLand(pages', lv', parent, c, cp, i, newPid, level, j);
  }

  /** A split leaves the child and the new sibling at the child's level. */
  lemma SplitLevelsAt(lv: map<Int32, nat>, ppid: Int32, newPid: Int32, level: nat, cp: Int32)
    requires cp in lv && lv[cp] == level && cp != ppid && cp != newPid
    ensures var lv' := SplitLevels(lv, ppid, newPid, level);
      cp in lv' && lv'[cp] == level && newPid in lv' && lv'[newPid] == level
  {
  }

  /** The same, from the two halves as written and their levels. */
  lemma HalvesLand(pages': seq<Page>, lv': map<Int32, nat>, parent: NodeImage, c: NodeImage,
                   cp: Int32, i: nat, newPid: Int32, level: nat, j: int)
    requires GeometryOk() && NodeOk(parent, level + 1) && parent.n < 2 * NONLEAF_T - 1 && i <= parent.n
    requires parent.pids[i] == cp && NodeOk(c, level) && Full(c)
    requires 0 <= cp < |pages'| && 0 <= newPid < |pages'|
    requires Decode(pages'[cp]) == SplitLeft(c, newPid) && Decode(pages'[newPid]) == SplitRight(c)
    requires cp in lv' && lv'[cp] == level && newPid in lv' && lv'[newPid] == level
    requires j == i || j == i + 1
    ensures Landing(pages', lv', AfterSplit(parent, i, Separator(c), newPid), j, level)
  {
    Capacities();
    SplitChildParent(parent, i, Separator(c), newPid);
    SplitHalvesRoomy(c, newPid);
  }

  /**
   * Where `locate` lands when it starts at page p: down the child at the
   * first key that is at least k, to the entry of that leaf with the first
   * key at least k, or the exhausted cursor (-1, -1) past the leaf's end.
   */
  ghost function LocateSpec(pages: seq<Page>, lv: map<Int32, nat>, p: Int32, k: int): (c: IndexCursor)
    requires GeometryOk() && Typed(pages, lv) && p in lv
    decreases lv[p]
  {
    Capacities();
    var img := Decode(pages[p]);
    var i := FirstGeq(img.keys, img.n, k, 0);
    if img.isLeaf then (if i < img.n then IndexCursor(p, i) else IndexCursor(-1, -1))
    else LocateSpec(pages, lv, img.pids[i], k)
  }

  /** One step of `LocateSpec`: at a leaf it picks the entry, at a non-leaf it moves to child i. */
  lemma LocateStep(pages: seq<Page>, lv: map<Int32, nat>, p: Int32, k: int, i: nat)
    requires GeometryOk() && Typed(pages, lv) && p in lv
    requires i == FirstGeq(Decode(pages[p]).keys, Decode(pages[p]).n, k, 0)
    ensures var img := Decode(pages[p]);
      if img.isLeaf then
        LocateSpec(pages, lv, p, k) == (if i < img.n then IndexCursor(p, i) else IndexCursor(-1, -1))
      else
        i <= img.n && img.pids[i] in lv && lv[img.pids[i]] == lv[p] - 1 &&
        LocateSpec(pages, lv, p, k) == LocateSpec(pages, lv, img.pids[i], k)
  {
    Capacities();
    assert NodeOk(Decode(pages[p]), lv[p]) && ChildrenOk(Decode(pages[p]), lv, lv[p]);
  }

  /**
   * The cursor `locate` produces is exhausted or names a real entry of a
   * leaf of the tree, whose key is at least k while every earlier key of
   * that leaf is below k.
   */
  lemma {:induction false} LocateLands(pages: seq<Page>, lv: map<Int32, nat>, p: Int32, k: int)
    requires GeometryOk() && Typed(pages, lv) && p in lv
    decreases lv[p]
    ensures var c := LocateSpec(pages, lv, p, k);
      c == IndexCursor(-1, -1) ||
      (c.pid in lv && lv[c.pid] == 0 && 0 <= c.eid < Decode(pages[c.pid]).n &&
       k <= Decode(pages[c.pid]).keys[c.eid] &&
       forall j :: 0 <= j < c.eid ==> Decode(pages[c.pid]).keys[j] < k)
  {
    Capacities();
    var img := Decode(pages[p]);
    if !img.isLeaf {
      var i := FirstGeq(img.keys, img.n, k, 0);
      assert ChildrenOk(img, lv, lv[p]);
      LocateLands(pages, lv, img.pids[i], k);
    }
  }
}
