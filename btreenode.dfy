/**
 * One B+tree node in memory (BTreeNode.cc): the header fields, the page id
 * it was read from or will be written to, and its key, record-id and
 * child-id arrays. Reading decodes a page into the node, writing encodes the
 * node into a page, and the insert, split and search algorithms work on the
 * arrays in place, reading and writing other nodes through the page store.
 */
module BTreeNode {
  import opened BPBase
  import opened PageFile
  import opened NodeLayout
  import opened NodeSpec

  /** A sequence that holds t elements of s from `from` on and then the filler z is that slice followed by z. */
  lemma UpperThenZeros<T>(a: seq<T>, s: seq<T>, from: nat, t: nat, z: seq<T>)
    requires t <= |a| && from + t <= |s| && |z| == |a| - t
    requires forall m :: 0 <= m < t ==> a[m] == s[m + from]
    requires forall m :: t <= m < |a| ==> a[m] == z[m - t]
    ensures a == s[from .. from + t] + z
  {
  }

  /** a is s with slots p..n-1 moved one to the right (slot p keeps its old value). */
  ghost predicate Shifted<T>(a: seq<T>, s: seq<T>, p: int, n: int)
  {
    0 <= p <= n < |s| == |a| &&
    (forall j :: 0 <= j < p ==> a[j] == s[j]) &&
    (forall j :: p <= j < n ==> a[j + 1] == s[j]) &&
    (forall j :: n < j < |a| ==> a[j] == s[j])
  }

  /** One step of the walk: slot i moves right, and the open slot is now i. */
  lemma ShiftStep<T>(a: seq<T>, s: seq<T>, i: nat, n: nat)
    requires Shifted(a, s, i + 1, n)
    ensures Shifted(a[i + 1 := a[i]], s, i, n)
  {
  }

  /** Filling the opened slot gives the inserted sequence. */
  lemma ShiftedInserted<T>(a: seq<T>, s: seq<T>, p: nat, n: nat, x: T)
    requires Shifted(a, s, p, n)
    ensures a[p := x] == Inserted(s, n, p, x)
  {
    InsertedAt(s, n, p, x);
  }

  /** Key and record-id slots holding the upper t entries of the full leaf c and zeros after them form c's new sibling. */
  lemma LeafRightImage(c: NodeImage, ks: seq<Int32>, rs: seq<RecordId>)
    requires GeometryOk() && WellSized(c) && c.isLeaf && Full(c)
    requires |ks| == KEYS_PER_LEAF_PAGE && |rs| == KEYS_PER_LEAF_PAGE
    requires forall m :: 0 <= m < LEAF_T ==> ks[m] == c.keys[m + LEAF_T - 1] && rs[m] == c.rids[m + LEAF_T - 1]
    requires forall m :: LEAF_T <= m < |ks| ==> ks[m] == 0
    requires forall m :: LEAF_T <= m < |rs| ==> rs[m] == RecordId(0, 0)
    ensures NodeImage(true, LEAF_T, c.nextPage, ks, rs, []) == SplitRight(c)
  {
    Capacities();
    UpperThenZeros(ks, c.keys, LEAF_T - 1, LEAF_T, Repeat<Int32>(0, KEYS_PER_LEAF_PAGE - LEAF_T));
    UpperThenZeros(rs, c.rids, LEAF_T - 1, LEAF_T, Repeat(RecordId(0, 0), KEYS_PER_LEAF_PAGE - LEAF_T));
  }

  /**
   * Key and child slots that hold a non-leaf's keys and children with the
   * separator at key i and the new child at child i+1, later ones one slot
   * to the right, form the parent after a split.
   */
  lemma SeparatorImage(before: NodeImage, ks: seq<Int32>, ps: seq<Int32>, i: nat, sep: Int32, newPid: Int32)
    requires GeometryOk() && WellSized(before) && !before.isLeaf && before.n < KEYS_PER_NONLEAF_PAGE && i <= before.n
    requires |ks| == KEYS_PER_NONLEAF_PAGE && |ps| == PIDS_PER_PAGE
    requires forall j :: 0 <= j < |ks| && !(i <= j <= before.n) ==> ks[j] == before.keys[j]
    requires forall j :: i < j <= before.n ==> ks[j] == before.keys[j - 1]
    requires ks[i] == sep
    requires forall j :: 0 <= j < |ps| && !(i + 1 <= j <= before.n + 1) ==> ps[j] == before.pids[j]
    requires forall j :: i + 1 < j <= before.n + 1 ==> ps[j] == before.pids[j - 1]
    requires ps[i + 1] == newPid
    ensures NodeImage(false, before.n + 1, before.nextPage, ks, [], ps) == AfterSplit(before, i, sep, newPid)
  {
    InsertedAt(before.keys, before.n, i, sep);
    InsertedAt(before.pids, before.n + 1, i + 1, newPid);
    assert ks == Inserted(before.keys, before.n, i, sep);
    assert ps == Inserted(before.pids, before.n + 1, i + 1, newPid);
  }

  /** The same for a full non-leaf: its upper t-1 keys and t children, then zeros. */
  lemma NonLeafRightImage(c: NodeImage, ks: seq<Int32>, ps: seq<Int32>)
    requires GeometryOk() && WellSized(c) && !c.isLeaf && Full(c)
    requires |ks| == KEYS_PER_NONLEAF_PAGE && |ps| == PIDS_PER_PAGE
    requires forall m :: 0 <= m < NONLEAF_T - 1 ==> ks[m] == c.keys[m + NONLEAF_T]
    requires forall m :: NONLEAF_T - 1 <= m < |ks| ==> ks[m] == 0
    requires forall m :: 0 <= m < NONLEAF_T ==> ps[m] == c.pids[m + NONLEAF_T]
    requires forall m :: NONLEAF_T <= m < |ps| ==> ps[m] == 0
    ensures NodeImage(false, NONLEAF_T - 1, -1, ks, [], ps) == SplitRight(c)
  {
    Capacities();
    UpperThenZeros(ks, c.keys, NONLEAF_T, NONLEAF_T - 1, Repeat<Int32>(0, KEYS_PER_NONLEAF_PAGE - (NONLEAF_T - 1)));
    UpperThenZeros(ps, c.pids, NONLEAF_T, NONLEAF_T, Repeat<Int32>(0, PIDS_PER_PAGE - NONLEAF_T));
  }

  class BTNode {
    var n: Int32
    var isLeaf: bool
    var nextPage: Int32
    var pid: Int32
    /** Key slots; a leaf uses the first KEYS_PER_LEAF_PAGE, a non-leaf the first KEYS_PER_NONLEAF_PAGE. */
    const keys: array<Int32>
    const rids: array<RecordId>
    const pids: array<Int32>

    ghost predicate Valid()
    {
      GeometryOk() &&
      keys.Length == KEY_SLOTS && rids.Length == KEYS_PER_LEAF_PAGE && pids.Length == PIDS_PER_PAGE
    }

    /** Key slot k of a non-leaf, as its image holds it. */
    lemma ImageKey(k: int)
      requires Valid() && !isLeaf && 0 <= k < KEYS_PER_NONLEAF_PAGE
      ensures Image().keys[k] == keys[k]
    {
      Capacities();
    }

    /** The node as its page holds it: the slots of its own kind's arrays. */
    function Image(): (img: NodeImage)
      reads this, keys, rids, pids
      requires Valid()
      ensures WellSized(img)
    {
      Capacities();
      NodeImage(isLeaf, n, nextPage, keys[..KeyCap(isLeaf)],
                if isLeaf then rids[..] else [], if isLeaf then [] else pids[..])
    }

    /** The node agrees with its page in the store. */
    ghost predicate Synced(pf: PageFile)
      reads this, keys, rids, pids, pf
      requires Valid()
    {
      0 <= pid < |pf.pages| && Image() == Decode(pf.pages[pid])
    }

    /** A fresh node: an empty non-leaf with no page and no next link, all slots zero. */
    constructor ()
      requires GeometryOk()
      ensures Valid() && fresh(keys) && fresh(rids) && fresh(pids) && Blank()
    {
      Capacities();
      n := 0;
      isLeaf := false;
      nextPage := -1;
      pid := -1;
      keys := new Int32[KEY_SLOTS](_ => 0);
      rids := new RecordId[KEYS_PER_LEAF_PAGE](_ => RecordId(0, 0));
      pids := new Int32[PIDS_PER_PAGE](_ => 0);
    }

    /** Copies a decoded page into the header fields and the arrays of the node's kind. */
    method Load(img: NodeImage)
      requires Valid() && WellSized(img)
      modifies this`isLeaf, this`n, this`nextPage, keys, rids, pids
      ensures Valid() && Image() == img
    {
      isLeaf := img.isLeaf;
      n := img.n;
      nextPage := img.nextPage;
      Capacities();
      forall j | 0 <= j < |img.keys| {
        keys[j] := img.keys[j];
      }
      if isLeaf {
        forall j | 0 <= j < |img.rids| {
          rids[j] := img.rids[j];
        }
        assert rids[..] == img.rids;
      } else {
        forall j | 0 <= j < |img.pids| {
          pids[j] := img.pids[j];
        }
        assert pids[..] == img.pids;
      }
      assert keys[..KeyCap(isLeaf)] == img.keys;
    }

    /** `read`: on success the node is the decoded page and remembers its id; on failure nothing changes. */
    method Read(p: Int32, pf: PageFile) returns (rc: int)
      requires Valid() && pf.Valid()
      modifies this, keys, rids, pids, pf.cache, pf.cache.slots
      ensures Valid() && pf.Valid()
      ensures rc == 0 <==> 0 <= p < pf.epid
      ensures rc != 0 ==> rc == RC_INVALID_PID && unchanged(this, keys, rids, pids)
      ensures rc == 0 ==> pid == p && Image() == Decode(pf.pages[p]) && Synced(pf)
      ensures !pf.cached ==> unchanged(pf.cache, pf.cache.slots)
    {
      var r, page := pf.Read(p);
      if r < 0 {
        return r;
      }
      pid := p;
      Load(Decode(page));
      rc := 0;
    }

    /**
     * `write(pf)`: writes the node to its own page. A node without a page
     * (-1) is refused; a closed store reports 1 from its seek check, which
     * this method passes on as success without anything being written.
     */
    method Write(pf: PageFile) returns (rc: int)
      requires Valid() && pf.Valid()
      modifies pf, pf.cache.slots
      ensures pf.Valid() && pf.fd == old(pf.fd) && pf.writable == old(pf.writable)
      ensures pid == -1 ==> rc == -1 && unchanged(pf) && unchanged(pf.cache.slots)
      ensures pid < -1 ==> rc == RC_INVALID_PID && unchanged(pf) && unchanged(pf.cache.slots)
      ensures pid >= 0 && !pf.IsOpen() ==> rc == 0 && unchanged(pf) && unchanged(pf.cache.slots)
      ensures pid >= 0 && pf.IsOpen() && !pf.writable ==> rc == RC_FILE_WRITE_FAILED && unchanged(pf)
      ensures pid >= 0 && pf.IsOpen() && pf.writable ==> rc == 0 && pf.pages == Put(old(pf.pages), pid, old(Image()))
    {
      if pid == -1 {
        return -1;
      }
      var r := pf.Write(pid, Encode(Image()));
      if r < 0 {
        return r;
      }
      rc := 0;
    }

    /** `write(p, pf)`: writes the node to page p and adopts p as its page unless the store refused. */
    method WriteTo(p: Int32, pf: PageFile) returns (rc: int)
      requires Valid() && pf.Valid()
      modifies this, pf, pf.cache.slots
      ensures Valid() && pf.Valid() && pf.fd == old(pf.fd) && pf.writable == old(pf.writable)
      ensures Image() == old(Image())
      ensures p < 0 ==> rc == RC_INVALID_PID && pid == old(pid) && unchanged(pf) && unchanged(pf.cache.slots)
      ensures p >= 0 && !pf.IsOpen() ==> rc == 0 && pid == p && unchanged(pf) && unchanged(pf.cache.slots)
      ensures p >= 0 && pf.IsOpen() && !pf.writable ==> rc == RC_FILE_WRITE_FAILED && pid == old(pid) && unchanged(pf)
      ensures p >= 0 && pf.IsOpen() && pf.writable ==> rc == 0 && pid == p && pf.pages == Put(old(pf.pages), p, old(Image()))
    {
      var r := pf.Write(p, Encode(Image()));
      if r < 0 {
        return r;
      }
      pid := p;
      rc := 0;
    }

    /** `getKeyCount`. */
    function GetKeyCount(): (k: Int32)
      reads this
      ensures k == n
    {
      n
    }

    /** `getT`: the minimum degree of the node's kind; a full node (2t-1 keys) still fits its arrays. */
    function GetT(): (t: int)
      reads this
      requires GeometryOk()
      ensures t >= 2 && 2 * t - 1 <= KeyCap(isLeaf)
      ensures t == (KeyCap(isLeaf) + 1) / 2
    {
      Capacities();
      if isLeaf then LEAF_T else NONLEAF_T
    }

    function GetNextNodePtr(): (p: Int32)
      reads this
      ensures p == nextPage
    {
      nextPage
    }

    method SetNextNodePtr(p: Int32) returns (rc: int)
      modifies this`nextPage
      ensures nextPage == p && rc == 0
    {
      nextPage := p;
      rc := 0;
    }

    /** `initializeRoot`: one key between two children. */
    method InitializeRoot(pid1: Int32, key: Int32, pid2: Int32) returns (rc: int)
      requires Valid()
      modifies this`n, keys, pids
      ensures rc == 0 && n == 1
      ensures keys[..] == old(keys[..])[0 := key]
      ensures pids[..] == old(pids[..])[0 := pid1][1 := pid2]
    {
      Capacities();
      keys[0] := key;
      pids[0] := pid1;
      pids[1] := pid2;
      n := 1;
      rc := 0;
    }

    /**
     * `readEntry`: the pair in slot `eid` of a leaf. The check lets `eid == n`
     * through, so the slot just past the last entry can be read; the
     * precondition keeps that slot inside the arrays.
     */
    method ReadEntry(eid: int, key0: Int32, rid0: RecordId) returns (rc: int, key: Int32, rid: RecordId)
      requires Valid()
      requires isLeaf && 0 <= eid <= n ==> eid < KEYS_PER_LEAF_PAGE
      ensures rc == 0 || rc == -1
      ensures rc == -1 <==> !isLeaf || eid > n || eid < 0
      ensures rc == 0 ==> key == keys[eid] && rid == rids[eid]
      ensures rc == -1 ==> key == key0 && rid == rid0
    {
      if !isLeaf || eid > n || eid < 0 {
        return -1, key0, rid0;
      }
      Capacities();
      return 0, keys[eid], rids[eid];
    }

    /** Moves keys i..n-1 and children i+1..n one slot right, making room at key i and child i+1. */
    method OpenSlot(i: int)
      requires Valid() && 0 <= i <= n < KEYS_PER_NONLEAF_PAGE
      modifies keys, pids
      ensures forall j :: 0 <= j < keys.Length && !(i < j <= n) ==> keys[j] == old(keys[j])
      ensures forall j :: i < j <= n ==> keys[j] == old(keys[j - 1])
      ensures forall j :: 0 <= j < pids.Length && !(i + 1 < j <= n + 1) ==> pids[j] == old(pids[j])
      ensures forall j :: i + 1 < j <= n + 1 ==> pids[j] == old(pids[j - 1])
    {
      Capacities();
      var j := n;
      while j >= i + 1
        invariant i <= j <= n
        invariant forall m :: 0 <= m < keys.Length && !(j < m <= n) ==> keys[m] == old(keys[m])
        invariant forall m :: j < m <= n ==> keys[m] == old(keys[m - 1])
        invariant pids[..] == old(pids[..])
      {
        keys[j] := keys[j - 1];
        j := j - 1;
      }
      ghost var shifted := keys[..];
      j := n + 1;
      while j >= i + 2
        invariant i + 1 <= j <= n + 1
        invariant keys[..] == shifted
        invariant forall m :: 0 <= m < pids.Length && !(j < m <= n + 1) ==> pids[m] == old(pids[m])
        invariant forall m :: j < m <= n + 1 ==> pids[m] == old(pids[m - 1])
      {
        pids[j] := pids[j - 1];
        j := j - 1;
      }
    }

    /**
     * The parent's side of `splitChild`: the separator goes into key slot i
     * and the new sibling into child slot i+1, after the later slots move right.
     */
    method InsertSeparator(i: int, sep: Int32, newPid: Int32)
      requires Valid() && !isLeaf && 0 <= i <= n < KEYS_PER_NONLEAF_PAGE
      modifies this`n, keys, pids
      ensures Valid() && Image() == AfterSplit(old(Image()), i, sep, newPid)
    {
      ghost var before := Image();
      OpenSlot(i);
      Capacities();
      keys[i] := sep;
      pids[i + 1] := newPid;
      n := n + 1;
      SeparatorImage(before, keys[..KEYS_PER_NONLEAF_PAGE], pids[..], i, sep, newPid);
    }

    /** The leaf half of a split: this fresh node takes entries t-1 .. 2t-2 of `src`, whose image is c. */
    method TakeUpperLeaf(src: BTNode, t: int, ghost c: NodeImage)
      requires Valid() && src.Valid() && t == LEAF_T && src.isLeaf && c == src.Image()
      requires src.keys != keys && src.rids != rids
      requires forall j :: 0 <= j < keys.Length ==> keys[j] == 0
      requires forall j :: 0 <= j < rids.Length ==> rids[j] == RecordId(0, 0)
      modifies keys, rids
      ensures forall m :: 0 <= m < t ==> keys[m] == c.keys[m + t - 1] && rids[m] == c.rids[m + t - 1]
      ensures forall m :: t <= m < keys.Length ==> keys[m] == 0
      ensures forall m :: t <= m < rids.Length ==> rids[m] == RecordId(0, 0)
    {
      Capacities();
      var j := 0;
      while j <= t - 1
        invariant 0 <= j <= t
        invariant forall m :: 0 <= m < j ==> keys[m] == src.keys[m + t - 1] && rids[m] == src.rids[m + t - 1]
        invariant forall m :: j <= m < keys.Length ==> keys[m] == 0
        invariant forall m :: j <= m < rids.Length ==> rids[m] == RecordId(0, 0)
      {
        keys[j] := src.keys[j + t - 1];
        rids[j] := src.rids[j + t - 1];
        j := j + 1;
      }
    }

    /** The non-leaf half of a split: keys t .. 2t-2 and children t .. 2t-1 of `src`, whose image is c. */
    method TakeUpperNonLeaf(src: BTNode, t: int, ghost c: NodeImage)
      requires Valid() && src.Valid() && t == NONLEAF_T && !src.isLeaf && c == src.Image()
      requires src.keys != keys && src.pids != pids
      requires forall j :: 0 <= j < keys.Length ==> keys[j] == 0
      requires forall j :: 0 <= j < pids.Length ==> pids[j] == 0
      modifies keys, pids
      ensures forall m :: 0 <= m < t - 1 ==> keys[m] == c.keys[m + t]
      ensures forall m :: t - 1 <= m < keys.Length ==> keys[m] == 0
      ensures forall m :: 0 <= m < t ==> pids[m] == c.pids[m + t]
      ensures forall m :: t <= m < pids.Length ==> pids[m] == 0
    {
      Capacities();
      var j := 0;
      while j <= t - 2
        invariant 0 <= j <= t - 1
        invariant forall m :: 0 <= m < j ==> keys[m] == src.keys[m + t]
        invariant forall m :: j <= m < keys.Length ==> keys[m] == 0
        invariant pids[..] == old(pids[..])
      {
        keys[j] := src.keys[j + t];
        j := j + 1;
      }
      ghost var copied := keys[..];
      j := 0;
      while j <= t - 1
        invariant 0 <= j <= t
        invariant keys[..] == copied
        invariant forall m :: 0 <= m < j ==> pids[m] == src.pids[m + t]
        invariant forall m :: j <= m < pids.Length ==> pids[m] == 0
      {
        pids[j] := src.pids[j + t];
        j := j + 1;
      }
    }

    /** The node is the tree page pid at `level` of the open, writable store. */
    ghost predicate InTree(pf: PageFile, lv: map<Int32, nat>, level: nat)
      reads this, keys, rids, pids, pf, pf.cache, pf.cache.slots
    {
      Valid() && pf.Valid() && pf.IsOpen() && pf.writable &&
      Typed(pf.pages, lv) && pid in lv && lv[pid] == level && Synced(pf)
    }

    /** o is another node, with arrays of its own. */
    predicate Apart(o: BTNode)
    {
      o != this && o.keys != keys && o.rids != rids && o.pids != pids
    }

    /** A node as the constructor leaves it. */
    ghost predicate Blank()
      reads this, keys, rids, pids
    {
      n == 0 && !isLeaf && nextPage == -1 && pid == -1 &&
      (forall j :: 0 <= j < keys.Length ==> keys[j] == 0) &&
      (forall j :: 0 <= j < rids.Length ==> rids[j] == RecordId(0, 0)) &&
      (forall j :: 0 <= j < pids.Length ==> pids[j] == 0)
    }

    /**
     * The two children's side of `splitChild`: this blank node becomes the
     * new sibling on page newPid, `oldN` keeps the lower half, and the
     * separator for the parent is returned.
     */
    method SplitFrom(oldN: BTNode, newPid: Int32) returns (sep: Int32)
      requires Valid() && oldN.Valid() && Blank() && Full(oldN.Image())
      requires Apart(oldN)
      modifies this, keys, rids, pids, oldN`n, oldN`nextPage
      ensures Valid() && pid == newPid
      ensures Image() == SplitRight(old(oldN.Image()))
      ensures oldN.Image() == SplitLeft(old(oldN.Image()), newPid)
      ensures sep == Separator(old(oldN.Image()))
    {
      isLeaf := oldN.isLeaf;
      pid := newPid;
      if isLeaf {
        sep := SplitLeafFrom(oldN);
      } else {
        sep := SplitNonLeafFrom(oldN);
      }
    }

    /** A leaf split: t entries move to this node, which takes over the old next link. */
    method SplitLeafFrom(oldN: BTNode) returns (sep: Int32)
      requires Valid() && oldN.Valid() && oldN.isLeaf && Full(oldN.Image()) && isLeaf
      requires n == 0 && nextPage == -1
      requires forall j :: 0 <= j < keys.Length ==> keys[j] == 0
      requires forall j :: 0 <= j < rids.Length ==> rids[j] == RecordId(0, 0)
      requires oldN != this && oldN.keys != keys && oldN.rids != rids
      modifies this`n, this`nextPage, keys, rids, oldN`n, oldN`nextPage
      ensures Valid()
      ensures Image() == SplitRight(old(oldN.Image()))
      ensures oldN.Image() == SplitLeft(old(oldN.Image()), pid)
      ensures sep == Separator(old(oldN.Image()))
    {
      Capacities();
      ghost var c := oldN.Image();
      var t := GetT();
      n := t;
      TakeUpperLeaf(oldN, t, c);
      assert oldN.Image() == c;
      LeafRightImage(c, keys[..KEYS_PER_LEAF_PAGE], rids[..]);
      oldN.n := oldN.n - t;
      sep := keys[0];
      var tmp := oldN.GetNextNodePtr();
      var _ := oldN.SetNextNodePtr(pid);
      var _ := SetNextNodePtr(tmp);
      assert oldN.Image() == c.(n := c.n - t, nextPage := pid);
    }

    /** A non-leaf split: t-1 keys and t children move to this node; the middle key moves up. */
    method SplitNonLeafFrom(oldN: BTNode) returns (sep: Int32)
      requires Valid() && oldN.Valid() && !oldN.isLeaf && Full(oldN.Image()) && !isLeaf
      requires n == 0 && nextPage == -1
      requires forall j :: 0 <= j < keys.Length ==> keys[j] == 0
      requires forall j :: 0 <= j < pids.Length ==> pids[j] == 0
      requires oldN != this && oldN.keys != keys && oldN.pids != pids
      modifies this`n, keys, pids, oldN`n
      ensures Valid()
      ensures Image() == SplitRight(old(oldN.Image()))
      ensures oldN.Image() == SplitLeft(old(oldN.Image()), pid)
      ensures sep == Separator(old(oldN.Image()))
    {
      Capacities();
      ghost var c := oldN.Image();
      var t := GetT();
      n := t - 1;
      TakeUpperNonLeaf(oldN, t, c);
      assert oldN.Image() == c;
      NonLeafRightImage(c, keys[..KEYS_PER_NONLEAF_PAGE], pids[..]);
      oldN.n := oldN.n - n - 1;
      sep := oldN.keys[oldN.n];
      assert oldN.Image() == c.(n := c.n - t);
    }

    /** The three writes that end `splitChild`: the old child, this node, the new sibling. */
    method StoreSplit(oldN: BTNode, newN: BTNode, pf: PageFile)
      requires Valid() && oldN.Valid() && newN.Valid() && pf.Valid() && pf.IsOpen() && pf.writable
      modifies pf, pf.cache.slots
      ensures pf.Valid() && pf.fd == old(pf.fd) && pf.writable
      ensures pf.pages == Put(Put(Put(old(pf.pages), oldN.pid, old(oldN.Image())), pid, old(Image())),
                              newN.pid, old(newN.Image()))
    {
      ghost var a, b := Image(), newN.Image();
      var _ := oldN.Write(pf);
      assert Image() == a && newN.Image() == b;
      var _ := Write(pf);
      assert newN.Image() == b;
      var _ := newN.Write(pf);
    }

    /** `splitChild` once the full child is in `oldN` and `newN` is blank. */
    method SplitLoaded(i: int, oldN: BTNode, newN: BTNode, newPid: Int32, pf: PageFile)
      requires Valid() && !isLeaf && 0 <= i <= n < KEYS_PER_NONLEAF_PAGE
      requires oldN.Valid() && newN.Valid() && newN.Blank() && Full(oldN.Image())
      requires pf.Valid() && pf.IsOpen() && pf.writable
      requires Apart(oldN) && Apart(newN) && newN.Apart(oldN)
      modifies this`n, keys, pids, newN, newN.keys, newN.rids, newN.pids, oldN`n, oldN`nextPage, pf, pf.cache.slots
      ensures Valid() && pf.Valid() && pf.fd == old(pf.fd) && pf.writable
      ensures Image() == AfterSplit(old(Image()), i, Separator(old(oldN.Image())), newPid)
      ensures SplitStored(old(pf.pages), pf.pages, oldN.pid, old(oldN.Image()), pid, Image(), newPid)
    {
      ghost var before := Image();
      ghost var c := oldN.Image();
      var sep := newN.SplitFrom(oldN, newPid);
      assert sep == Separator(c) && newN.pid == newPid;
      ghost var left, right := oldN.Image(), newN.Image();
      InsertSeparator(i, sep, newN.pid);
      ghost var after := Image();
      assert after == AfterSplit(before, i, Separator(c), newPid);
      StoreSplit(oldN, newN, pf);
      assert Image() == after;
    }

    /**
     * The first steps of `splitChild`: the two scratch nodes, and child i
     * read into the first of them.
     */
    method ReadChild(i: int, pf: PageFile) returns (r: int, oldN: BTNode, newN: BTNode)
      requires Valid() && !isLeaf && 0 <= i <= n < KEYS_PER_NONLEAF_PAGE && pf.Valid()
      modifies pf.cache, pf.cache.slots
      ensures fresh(oldN) && fresh(newN) && fresh(newN.keys) && fresh(newN.rids) && fresh(newN.pids)
      ensures Apart(oldN) && Apart(newN) && newN.Apart(oldN)
      ensures oldN.Valid() && newN.Valid() && newN.Blank() && pf.Valid() && Image() == old(Image())
      ensures r == 0 <==> 0 <= pids[i] < pf.epid
      ensures r == 0 ==> oldN.pid == pids[i] && oldN.Image() == Decode(pf.pages[pids[i]])
    {
      newN := new BTNode();
      oldN := new BTNode();
      r := oldN.Read(pids[i], pf);
    }

    /**
     * `splitChild(i, newPid)`: splits the full child i into itself and a new
     * node on page newPid, puts the separator into this node at key i and
     * the new node at child i+1, and writes the child, this node and the new
     * node, in that order, ignoring what the writes report. A leaf refuses
     * with -1; a child page that cannot be read gives -2.
     */
    method SplitChild(i: int, newPid: Int32, pf: PageFile) returns (rc: int)
      requires Valid() && pf.Valid() && pf.writable
      requires !isLeaf ==> 0 <= i <= n < KEYS_PER_NONLEAF_PAGE
      requires !isLeaf && 0 <= pids[i] < pf.epid ==> Full(Decode(pf.pages[pids[i]]))
      modifies this, keys, pids, pf, pf.cache, pf.cache.slots
      ensures Valid() && pf.Valid() && pf.fd == old(pf.fd) && pf.writable
      ensures pid == old(pid) && isLeaf == old(isLeaf)
      ensures old(isLeaf) ==> rc == -1 && unchanged(this, keys, pids, pf)
      ensures !old(isLeaf) && !(0 <= old(pids[i]) < old(pf.epid)) ==>
        rc == -2 && unchanged(this, keys, pids, pf)
      ensures !old(isLeaf) && 0 <= old(pids[i]) < old(pf.epid) ==>
        var c := Decode(old(pf.pages)[old(pids[i])]);
        rc == 0 && Image() == AfterSplit(old(Image()), i, Separator(c), newPid) &&
        SplitStored(old(pf.pages), pf.pages, old(pids[i]), c, pid, Image(), newPid)
    {
      if isLeaf {
        return -1;
      }
      var r, oldN, newN := ReadChild(i, pf);
      if r != 0 {
        return -2;
      }
      SplitLoaded(i, oldN, newN, newPid, pf);
      rc := 0;
    }

    /**
     * The walk of the leaf branch of `insertNonFull`: from the right, every
     * entry with a key greater than key moves one slot right. The walk stops
     * at the insert slot p, after the entries with an equal key.
     */
    method ShiftRight(key: Int32, ghost ks: seq<Int32>, ghost rs: seq<RecordId>) returns (p: int)
      requires Valid() && isLeaf && 0 <= n < KEYS_PER_LEAF_PAGE
      requires ks == keys[..KEYS_PER_LEAF_PAGE] && rs == rids[..]
      modifies keys, rids
      ensures p == InsertPos(ks, n, key)
      ensures Shifted(keys[..KEYS_PER_LEAF_PAGE], ks, p, n) && Shifted(rids[..], rs, p, n)
    {
      Capacities();
      var i := n - 1;
      while i >= 0 && key < keys[i]
        invariant -1 <= i < n
        invariant Shifted(keys[..KEYS_PER_LEAF_PAGE], ks, i + 1, n) && Shifted(rids[..], rs, i + 1, n)
        invariant forall j :: i + 1 <= j < n ==> key < ks[j]
        decreases i
      {
        ghost var ka, ra := keys[..KEYS_PER_LEAF_PAGE], rids[..];
        ShiftStep(ka, ks, i, n);
        ShiftStep(ra, rs, i, n);
        keys[i + 1] := keys[i];
        rids[i + 1] := rids[i];
        assert keys[..KEYS_PER_LEAF_PAGE] == ka[i + 1 := ka[i]];
        assert rids[..] == ra[i + 1 := ra[i]];
        i := i - 1;
      }
      p := i + 1;
      InsertPosUnique(ks, n, key, p);
    }

    /** The leaf branch of `insertNonFull` in memory: the pair goes into the slot the walk opened. */
    method ShiftInsert(key: Int32, rid: RecordId)
      requires Valid() && isLeaf && 0 <= n < KEYS_PER_LEAF_PAGE
      modifies this`n, keys, rids
      ensures Valid() && Image() == LeafInsert(old(Image()), key, rid)
    {
      Capacities();
      ghost var before := Image();
      var p := ShiftRight(key, before.keys, before.rids);
      ghost var ka, ra := keys[..KEYS_PER_LEAF_PAGE], rids[..];
      ShiftedInserted(ka, before.keys, p, before.n, key);
      ShiftedInserted(ra, before.rids, p, before.n, rid);
      keys[p] := key;
      rids[p] := rid;
      n := n + 1;
      assert keys[..KEYS_PER_LEAF_PAGE] == ka[p := key];
      assert rids[..] == ra[p := rid];
    }

    /** The non-leaf walk of `insertNonFull`: the child for key is the one after every key at most key. */
    method ChildSlot(key: Int32) returns (i: int)
      requires Valid() && !isLeaf && 0 <= n <= KEYS_PER_NONLEAF_PAGE
      ensures i == InsertPos(Image().keys, n, key)
    {
      Capacities();
      i := n - 1;
      while i >= 0 && key < keys[i]
        invariant -1 <= i < n
        invariant forall j :: i < j < n ==> key < keys[j]
        decreases i
      {
        i := i - 1;
      }
      i := i + 1;
      InsertPosUnique(Image().keys, n, key, i);
    }

    /**
     * `insertNonFull` on a leaf of the tree that is not full: the pair goes
     * in after its equals and the leaf is written back to its page. The
     * write cannot fail on the open writable store, so the error exit of
     * the source is never taken.
     */
    method InsertIntoLeaf(key: Int32, rid: RecordId, pf: PageFile, ghost lv: map<Int32, nat>) returns (rc: int)
      requires Valid() && isLeaf && pf.Valid() && pf.IsOpen() && pf.writable
      requires Typed(pf.pages, lv) && pid in lv && lv[pid] == 0 && Synced(pf) && n < 2 * LEAF_T - 1
      modifies this`n, keys, rids, pf, pf.cache.slots
      ensures rc == 0 && pf.Valid() && pf.IsOpen() && pf.writable && pf.fd == old(pf.fd)
      ensures pf.epid == old(pf.epid)
      ensures pf.pages == Put(old(pf.pages), pid, LeafInsert(old(Image()), key, rid))
      ensures Typed(pf.pages, lv) && Valid() && Synced(pf)
      ensures Extends(old(pf.pages), pf.pages, lv, lv, 0) && HoldsInsert(pf.pages, lv, pid, old(Image()), key, rid)
      ensures TreeEntries(pf.pages, lv) == TreeEntries(old(pf.pages), lv) + multiset{Entry(key, rid)}
    {
      Capacities();
      ShiftInsert(key, rid);
      rc := Write(pf);
      LeafInsertOutcome(old(pf.pages), lv, pid, key, rid);
    }

    /**
     * The split step of `insertNonFull`: child i of this tree node (at
     * level+1) is full, so it is split with the new sibling on the next
     * page of the file; the insert then goes on in the child after the new
     * separator when key is at least the separator, else in child i.
     */
    method SplitFullChild(i: int, key: Int32, newPid: Int32, pf: PageFile, ghost lv: map<Int32, nat>, ghost level: nat)
        returns (j: int, ghost lv': map<Int32, nat>)
      requires Valid() && !isLeaf && pf.Valid() && pf.IsOpen() && pf.writable
      requires Typed(pf.pages, lv) && pid in lv && lv[pid] == level + 1 && Synced(pf)
      requires n < 2 * NONLEAF_T - 1 && 0 <= i <= n && newPid == pf.epid
      requires 0 <= pids[i] < |pf.pages| && Full(Decode(pf.pages[pids[i]]))
      modifies this, keys, pids, pf, pf.cache, pf.cache.slots
      ensures Valid() && !isLeaf && pid == old(pid) && Synced(pf)
      ensures pf.Valid() && pf.IsOpen() && pf.writable && pf.fd == old(pf.fd) && pf.epid == newPid + 1
      ensures lv' == SplitLevels(lv, pid, newPid, level)
      ensures Extends(old(pf.pages), pf.pages, lv, lv', level + 1)
      ensures Image() == AfterSplit(old(Image()), i, Separator(Decode(old(pf.pages)[old(pids[i])])), newPid)
      ensures j == if key >= Separator(Decode(old(pf.pages)[old(pids[i])])) then i + 1 else i
      ensures Landing(pf.pages, lv', Image(), j, level)
      ensures TreeEntries(pf.pages, lv') == TreeEntries(old(pf.pages), lv)
    {
      ghost var pages, parent, cp := pf.pages, Image(), pids[i];
      ChildInTree(pages, lv, pid, i);
      assert SplitReady(pages, lv, parent, pid, i, newPid, level);
      var _ := SplitChild(i, newPid, pf);
      ghost var c := Decode(pages[cp]);
      lv' := SplitLevels(lv, pid, newPid, level);
      ImageKey(i);
      j := i;
      if key >= keys[i] {
        j := i + 1;
      }
      SplitChildOutcome(pages, pf.pages, lv, parent, pid, i, newPid, level, j);
    }

    /**
     * The split `insert` makes under a new root: this node, an empty
     * non-leaf on the page at the end of the file, has the full tree page
     * child 0, which is split with the new sibling on page newPid. The
     * node then joins the tree one level above the child, holding the
     * separator between the child and the sibling, both of which have room
     * for an insert; the tree holds the same entries as before.
     */
    method SplitOnlyChild(newPid: Int32, pf: PageFile, ghost lv: map<Int32, nat>, ghost level: nat)
        returns (ghost lv': map<Int32, nat>)
      requires Valid() && !isLeaf && n == 0 && pf.Valid() && pf.IsOpen() && pf.writable && Typed(pf.pages, lv)
      requires pid == pf.epid && newPid == pf.epid + 1
      requires pids[0] in lv && lv[pids[0]] == level && Full(Decode(pf.pages[pids[0]]))
      modifies this, keys, pids, pf, pf.cache, pf.cache.slots
      ensures InTree(pf, lv', level + 1) && pid == old(pid) && n < 2 * T(isLeaf) - 1
      ensures pf.fd == old(pf.fd) && pf.epid == newPid + 1
      ensures Extends(old(pf.pages), pf.pages, lv, lv', level + 1)
      ensures Image() == AfterSplit(old(Image()), 0, Separator(Decode(old(pf.pages)[old(pids[0])])), newPid)
      ensures n == 1 && Landing(pf.pages, lv', Image(), 0, level) && Landing(pf.pages, lv', Image(), 1, level)
      ensures TreeEntries(pf.pages, lv') == TreeEntries(old(pf.pages), lv)
    {
      ghost var pages, parent := pf.pages, Image();
      OneChildOk(parent, lv, level);
      SplitFirst(newPid, pf, lv, level);
      RootSplitOutcome(pages, pf.pages, lv, parent, pid, newPid, level);
      lv' := SplitLevels(lv, pid, newPid, level);
    }

    /** The split of child 0 itself, in the situation `SplitChildOutcome` describes. */
    method SplitFirst(newPid: Int32, pf: PageFile, ghost lv: map<Int32, nat>, ghost level: nat)
      requires Valid() && !isLeaf && n == 0 && pf.Valid() && pf.IsOpen() && pf.writable && Typed(pf.pages, lv)
      requires pid == pf.epid && newPid == pf.epid + 1
      requires pids[0] in lv && lv[pids[0]] == level && Full(Decode(pf.pages[pids[0]]))
      modifies this, keys, pids, pf, pf.cache, pf.cache.slots
      ensures Valid() && !isLeaf && pid == old(pid) && n == 1
      ensures pf.Valid() && pf.IsOpen() && pf.writable && pf.fd == old(pf.fd)
      ensures SplitSetting(old(pf.pages), pf.pages, lv, old(Image()), pid, 0, newPid, level)
      ensures Image() == AfterSplit(old(Image()), 0, Separator(Decode(old(pf.pages)[old(pids[0])])), newPid)
    {
      ghost var pages, parent, cp := pf.pages, Image(), pids[0];
      Capacities();
      assert parent.pids[0] == cp;
      assert SplitReady(pages, lv, parent, pid, 0, newPid, level);
      var _ := SplitChild(0, newPid, pf);
    }

    /**
     * The non-leaf branch of `insertNonFull` up to the recursive call: the
     * walk from the right picks child i, which is read; a full child is split with the
     * new sibling on page newPid, newPid moves on, and the child on the
     * key's side of the new separator is read instead. The returned node is
     * a tree page one level down and has room for the insert. The first
     * read cannot fail, as child i is a page of the tree. `Routed` states
     * which child j that is and what this page holds afterwards: unchanged
     * when child i had room, else child i split at slot i.
     */
    method PrepareChild(key: Int32, newPid: Int32, pf: PageFile, ghost lv: map<Int32, nat>, ghost level: nat)
        returns (node: BTNode, newPid': Int32, ghost lv': map<Int32, nat>, ghost j: int)
      requires InTree(pf, lv, level + 1) && !isLeaf && n < 2 * NONLEAF_T - 1
      requires newPid == pf.epid && newPid < INT32_MAX
      modifies this, keys, pids, pf, pf.cache, pf.cache.slots
      ensures fresh(node) && fresh(node.keys) && fresh(node.rids) && fresh(node.pids) && Apart(node)
      ensures node.InTree(pf, lv', level) && node.n < 2 * T(node.isLeaf) - 1
      ensures InTree(pf, lv', level + 1) && pid == old(pid) && pf.fd == old(pf.fd)
      ensures newPid' == pf.epid && newPid' <= newPid + 1
      ensures Extends(old(pf.pages), pf.pages, lv, lv', level + 1)
      ensures TreeEntries(pf.pages, lv') == TreeEntries(old(pf.pages), lv)
      ensures 0 <= j <= n && node.pid == Image().pids[j]
      ensures Routed(old(pf.pages), lv, old(Image()), key, level, newPid, newPid', Image(), j)
      ensures newPid' == newPid ==> pf.pages == old(pf.pages) && lv' == lv
    {
      Capacities();
      ghost var pages0, up0 := pf.pages, Image();
      var i := ChildSlot(key);
      node := ReadTreeChild(i, pf, lv, level);
      newPid', lv', j := newPid, lv, i;
      if node.n == 2 * node.GetT() - 1 {
        lv', j := SplitAndReload(i, key, newPid, pf, lv, level, node);
        newPid' := newPid + 1;
      } else {
        ExtendsRefl(pf.pages, lv, level + 1);
        RoutedKept(pages0, lv, up0, key, level, newPid);
      }
    }

    /** What the descent of `insertNonFull` uses of the above: the child it moves on to, and that one has room. */
    method NextChild(key: Int32, newPid: Int32, pf: PageFile, ghost lv: map<Int32, nat>, ghost level: nat)
        returns (node: BTNode, newPid': Int32, ghost lv': map<Int32, nat>, ghost j: int)
      requires InTree(pf, lv, level + 1) && !isLeaf && n < 2 * NONLEAF_T - 1
      requires newPid == pf.epid && newPid < INT32_MAX
      modifies this, keys, pids, pf, pf.cache, pf.cache.slots
      ensures fresh(node) && fresh(node.keys) && fresh(node.rids) && fresh(node.pids) && Apart(node)
      ensures node.InTree(pf, lv', level) && node.n < 2 * T(node.isLeaf) - 1
      ensures InTree(pf, lv', level + 1) && pid == old(pid) && pf.fd == old(pf.fd)
      ensures newPid' == pf.epid && newPid' <= newPid + 1
      ensures Extends(old(pf.pages), pf.pages, lv, lv', level + 1)
      ensures TreeEntries(pf.pages, lv') == TreeEntries(old(pf.pages), lv)
      ensures 0 <= j <= n && node.pid == Image().pids[j]
      ensures old(Landing(pf.pages, lv, Image(), InsertPos(Image().keys, n, key), level)) ==> Image() == old(Image())
    {
      node, newPid', lv', j := PrepareChild(key, newPid, pf, lv, level);
    }

    /**
     * The split branch of the above: split the full child i, then read child j,
     * the one on the key's side of the new separator.
     */
    method SplitAndReload(i: int, key: Int32, newPid: Int32, pf: PageFile, ghost lv: map<Int32, nat>, ghost level: nat,
                          node: BTNode)
        returns (ghost lv': map<Int32, nat>, j: int)
      requires Valid() && !isLeaf && pf.Valid() && pf.IsOpen() && pf.writable
      requires Typed(pf.pages, lv) && pid in lv && lv[pid] == level + 1 && Synced(pf)
      requires n < 2 * NONLEAF_T - 1 && 0 <= i <= n && newPid == pf.epid
      requires node.Valid() && node.Synced(pf) && node.pid == pids[i] && Full(node.Image())
      requires Apart(node) && node.isLeaf == (level == 0) && i == InsertPos(Image().keys, n, key)
      modifies this, keys, pids, pf, pf.cache, pf.cache.slots, node, node.keys, node.rids, node.pids
      ensures node.Valid() && node.Synced(pf) && node.pid in lv' && lv'[node.pid] == level
      ensures node.n < 2 * T(node.isLeaf) - 1
      ensures pf.Valid() && pf.IsOpen() && pf.writable && pf.fd == old(pf.fd) && pf.epid == newPid + 1
      ensures Extends(old(pf.pages), pf.pages, lv, lv', level + 1)
      ensures Valid() && pid == old(pid) && Synced(pf)
      ensures TreeEntries(pf.pages, lv') == TreeEntries(old(pf.pages), lv)
      ensures Image() == AfterSplit(old(Image()), i, Separator(Decode(old(pf.pages)[old(pids[i])])), newPid)
      ensures j == (if key >= Separator(Decode(old(pf.pages)[old(pids[i])])) then i + 1 else i)
      ensures 0 <= j <= n && node.pid == Image().pids[j]
      ensures Routed(old(pf.pages), lv, old(Image()), key, level, newPid, newPid + 1, Image(), j)
    {
      ghost var pages0, up0 := pf.pages, Image();
      j, lv' := SplitFullChild(i, key, newPid, pf, lv, level);
      ReloadTreeChild(node, j, pf, lv', level);
      RoutedSplit(pages0, lv, up0, key, level, newPid, i, Image(), j);
    }

    /** Child i of this tree page, read into a new node; it is a tree page one level down. */
    method ReadTreeChild(i: int, pf: PageFile, ghost lv: map<Int32, nat>, ghost level: nat) returns (node: BTNode)
      requires Valid() && !isLeaf && pf.Valid() && pf.IsOpen() && Typed(pf.pages, lv) && pid in lv && lv[pid] == level + 1
      requires Synced(pf) && 0 <= i <= n
      modifies pf.cache, pf.cache.slots
      ensures fresh(node) && fresh(node.keys) && fresh(node.rids) && fresh(node.pids)
      ensures node.Valid() && node.Synced(pf) && node.pid == pids[i] && node.pid in lv && lv[node.pid] == level
      ensures node.n <= 2 * T(node.isLeaf) - 1 && Apart(node) && node.isLeaf == (level == 0)
      ensures node.n < 2 * T(node.isLeaf) - 1 <==> Landing(pf.pages, lv, Image(), i, level)
      ensures Decode(pf.pages[pids[i]]) == node.Image()
      ensures pf.Valid() && Image() == old(Image())
      ensures pf.pages == old(pf.pages) && pf.epid == old(pf.epid) && pf.fd == old(pf.fd) && pf.writable == old(pf.writable)
    {
      ChildInTree(pf.pages, lv, pid, i);
      var cp := pids[i];
      assert NodeOk(Decode(pf.pages[cp]), level);
      node := new BTNode();
      var r := node.Read(cp, pf);
    }

    /** The re-read after a split: child j, a tree page one level down with room for the insert. */
    method ReloadTreeChild(node: BTNode, j: int, pf: PageFile, ghost lv: map<Int32, nat>, ghost level: nat)
      requires Valid() && node.Valid() && Apart(node) && pf.Valid() && pf.IsOpen()
      requires Typed(pf.pages, lv) && Landing(pf.pages, lv, Image(), j, level)
      modifies node, node.keys, node.rids, node.pids, pf.cache, pf.cache.slots
      ensures node.Valid() && node.Synced(pf) && node.pid in lv && lv[node.pid] == level
      ensures node.n < 2 * T(node.isLeaf) - 1 && pf.Valid() && pf.IsOpen()
      ensures pf.pages == old(pf.pages) && pf.epid == old(pf.epid) && pf.fd == old(pf.fd) && pf.writable == old(pf.writable)
      ensures pid == old(pid) && (old(Synced(pf)) ==> Synced(pf))
      ensures node.pid == Image().pids[j]
    {
      Capacities();
      var cp := pids[j];
      assert cp == Image().pids[j];
      assert NodeOk(Decode(pf.pages[cp]), level);
      var _ := node.Read(cp, pf);
    }

    /**
     * `insertNonFull(key, rid, newPid)` on a tree page that is not full:
     * a leaf takes the pair and is written back; a non-leaf walks to the
     * child for key, splits it first when full, and recurses into it. Every
     * split takes the next page of the file, so newPid stays the end of the
     * file. The tree keeps its shape (the level map only gains the new
     * pages), pages outside the tree keep their contents, the tree's leaves
     * together hold their former entries and the new pair, and a non-leaf
     * whose child for key has room is left as it was. The returned path leads
     * from this page to the leaf that took the pair. Nothing fails on a
     * well-formed tree in a writable store, so the error exits of the
     * source are never taken.
     */
    method InsertNonFull(key: Int32, rid: RecordId, newPid: Int32, pf: PageFile, ghost lv: map<Int32, nat>, ghost level: nat)
        returns (rc: int, newPid': Int32, ghost lv': map<Int32, nat>, ghost leaf: Int32, ghost before: NodeImage,
                ghost path: seq<int>)
      requires InTree(pf, lv, level) && n < 2 * T(isLeaf) - 1
      requires level > 0 ==> newPid == pf.epid && newPid + level <= INT32_MAX
      modifies this, keys, rids, pids, pf, pf.cache, pf.cache.slots
      decreases level, 2
      ensures rc == 0 && InTree(pf, lv', level) && pid == old(pid) && pf.fd == old(pf.fd)
      ensures level == 0 ==> newPid' == newPid && pf.epid == old(pf.epid)
      ensures level == 0 ==> lv' == lv && leaf == pid && before == old(Image())
      ensures level == 0 ==> pf.pages == Put(old(pf.pages), pid, LeafInsert(old(Image()), key, rid))
      ensures level > 0 ==> newPid' == pf.epid && newPid' <= newPid + level
      ensures Extends(old(pf.pages), pf.pages, lv, lv', level)
      ensures HoldsInsert(pf.pages, lv', leaf, before, key, rid) && Reaches(pf.pages, lv', pid, path, leaf)
      ensures TreeEntries(pf.pages, lv') == TreeEntries(old(pf.pages), lv) + multiset{Entry(key, rid)}
      ensures level > 0 && old(Landing(pf.pages, lv, Image(), InsertPos(Image().keys, n, key), level - 1)) ==>
        Image() == old(Image())
    {
      Capacities();
      assert NodeOk(Image(), level);
      if isLeaf {
        before, leaf, lv', newPid', path := Image(), pid, lv, newPid, [];
        rc := InsertIntoLeaf(key, rid, pf, lv);
        return;
      }
      rc, newPid', lv', leaf, before, path := InsertBelow(key, rid, newPid, pf, lv, level - 1);
    }

    /** The non-leaf branch of the above: prepare the child on the key's side and insert into it. */
    method InsertBelow(key: Int32, rid: RecordId, newPid: Int32, pf: PageFile, ghost lv: map<Int32, nat>, ghost level: nat)
        returns (rc: int, newPid': Int32, ghost lv': map<Int32, nat>, ghost leaf: Int32, ghost before: NodeImage,
                ghost path: seq<int>)
      requires InTree(pf, lv, level + 1) && !isLeaf && n < 2 * NONLEAF_T - 1
      requires newPid == pf.epid && newPid + level + 1 <= INT32_MAX
      modifies this, keys, rids, pids, pf, pf.cache, pf.cache.slots
      decreases level + 1, 1
      ensures rc == 0 && InTree(pf, lv', level + 1) && pid == old(pid) && pf.fd == old(pf.fd)
      ensures newPid' == pf.epid && newPid' <= newPid + level + 1
      ensures Extends(old(pf.pages), pf.pages, lv, lv', level + 1)
      ensures HoldsInsert(pf.pages, lv', leaf, before, key, rid) && Reaches(pf.pages, lv', pid, path, leaf)
      ensures TreeEntries(pf.pages, lv') == TreeEntries(old(pf.pages), lv) + multiset{Entry(key, rid)}
      ensures old(Landing(pf.pages, lv, Image(), InsertPos(Image().keys, n, key), level)) ==> Image() == old(Image())
    {
      var node, np, lv1, j := NextChild(key, newPid, pf, lv, level);
      ghost var pages1 := pf.pages;
      rc, newPid', lv', leaf, before, path := Descend(node, j, key, rid, np, pf, lv1, level);
      ExtendsChain(old(pf.pages), pages1, pf.pages, lv, lv1, lv', level + 1, pid);
    }

    /**
     * The recursive call of the above into the prepared child `node`, child j
     * of this page. It writes nothing above the child's level, so this page
     * stays as it is, and the path it returns runs from this page through
     * child j down to the leaf that took the pair.
     */
    method Descend(node: BTNode, ghost j: int, key: Int32, rid: RecordId, newPid: Int32, pf: PageFile,
                   ghost lv: map<Int32, nat>, ghost level: nat)
        returns (rc: int, newPid': Int32, ghost lv': map<Int32, nat>, ghost leaf: Int32, ghost before: NodeImage,
                ghost path: seq<int>)
      requires InTree(pf, lv, level + 1) && Apart(node)
      requires node.InTree(pf, lv, level) && node.n < 2 * T(node.isLeaf) - 1
      requires 0 <= j <= n && node.pid == Image().pids[j]
      requires newPid == pf.epid && newPid + level <= INT32_MAX
      modifies node, node.keys, node.rids, node.pids, pf, pf.cache, pf.cache.slots
      decreases level + 1, 0
      ensures rc == 0 && InTree(pf, lv', level + 1) && pf.fd == old(pf.fd)
      ensures newPid' == pf.epid && newPid' <= newPid + level
      ensures Extends(old(pf.pages), pf.pages, lv, lv', level) && pf.pages[pid] == old(pf.pages)[pid]
      ensures HoldsInsert(pf.pages, lv', leaf, before, key, rid) && Reaches(pf.pages, lv', pid, path, leaf)
      ensures TreeEntries(pf.pages, lv') == TreeEntries(old(pf.pages), lv) + multiset{Entry(key, rid)}
    {
      ghost var below;
      rc, newPid', lv', leaf, before, below := node.InsertNonFull(key, rid, newPid, pf, lv, level);
      path := [j] + below;
      ReachesStep(pf.pages, lv', pid, j, below, leaf);
    }

    /** The slot `locate` picks: the first key that is at least searchKey. */
    method KeyScan(searchKey: Int32) returns (i: int)
      requires Valid() && 0 <= n <= KeyCap(isLeaf)
      ensures i == FirstGeq(Image().keys, n, searchKey, 0)
    {
      Capacities();
      i := 0;
      while i < n && searchKey > keys[i]
        invariant 0 <= i <= n
        invariant forall j :: 0 <= j < i ==> keys[j] < searchKey
      {
        i := i + 1;
      }
      FirstGeqUnique(Image().keys, n, searchKey, i);
    }

    /**
     * `locate(searchKey, pf, cursor)` from this tree page: a leaf sets the
     * cursor to the first entry whose key is at least searchKey, or to
     * (-1, -1) when there is none; a non-leaf reads the child at that slot
     * and locates from there. The result is the one `LocateSpec` describes,
     * so `LocateLands` says what it points at. On a well-formed tree no
     * read fails, so the error exits of the source are never taken.
     */
    method Locate(searchKey: Int32, pf: PageFile, ghost lv: map<Int32, nat>, ghost level: nat)
        returns (rc: int, cursor: IndexCursor)
      requires Valid() && pf.Valid() && pf.IsOpen() && Typed(pf.pages, lv) && pid in lv && lv[pid] == level
      requires Synced(pf)
      modifies pf.cache, pf.cache.slots
      decreases level, 1
      ensures pf.Valid() && pf.pages == old(pf.pages) && pf.epid == old(pf.epid) && pf.fd == old(pf.fd)
      ensures pf.writable == old(pf.writable)
      ensures rc == 0 && cursor == LocateSpec(pf.pages, lv, pid, searchKey)
    {
      Capacities();
      assert NodeOk(Image(), level);
      var i := KeyScan(searchKey);
      LocateStep(pf.pages, lv, pid, searchKey, i);
      if isLeaf {
        if i < n {
          cursor := IndexCursor(pid, i);
        } else {
          cursor := IndexCursor(-1, -1);
        }
        return 0, cursor;
      }
      rc, cursor := LocateBelow(i, searchKey, pf, lv, level - 1);
    }

    /** The non-leaf branch of the above: read child i and locate from it. */
    method LocateBelow(i: int, searchKey: Int32, pf: PageFile, ghost lv: map<Int32, nat>, ghost level: nat)
        returns (rc: int, cursor: IndexCursor)
      requires Valid() && !isLeaf && pf.Valid() && pf.IsOpen() && Typed(pf.pages, lv) && pid in lv && lv[pid] == level + 1
      requires Synced(pf) && 0 <= i <= n
      modifies pf.cache, pf.cache.slots
      decreases level + 1, 0
      ensures pf.Valid() && pf.pages == old(pf.pages) && pf.epid == old(pf.epid) && pf.fd == old(pf.fd)
      ensures pf.writable == old(pf.writable)
      ensures rc == 0 && cursor == LocateSpec(pf.pages, lv, pids[i], searchKey)
    {
      var node := ReadTreeChild(i, pf, lv, level);
      rc, cursor := node.Locate(searchKey, pf, lv, level);
    }
  }
}
