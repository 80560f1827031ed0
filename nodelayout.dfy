/**
 * The on-page format of one B+tree node (BTreeNode.h): a 9-byte header
 * (node type, key count, next-leaf page id), the key array at offset 9,
 * then the record-id array of a leaf or the child-id array of a non-leaf,
 * with capacities derived from the page size. Also the index cursor.
 */
module NodeLayout {
  import opened BPBase
  import opened PageFile

  /** sizeof(RecordId): two 4-byte ints. */
  const RID_SIZE: nat := 8
  const KEY_SIZE: nat := 4
  const PID_SIZE: nat := 4
  /** sizeof(bool) + sizeof(int) + sizeof(PageId). */
  const HEADER_SIZE: nat := 9

  /**
   * The capacities of BTreeNode.h are quotients of the page size. They are
   * declared without a value and pinned down by GeometryOk through the two
   * bounds that characterise a floor quotient, which keeps division out of
   * the proofs; CapacitiesAreQuotients recovers the quotients themselves.
   */
  const KEYS_PER_LEAF_PAGE: nat
  const KEYS_PER_NONLEAF_PAGE: nat
  const RECORDIDS_PER_LEAF_PAGE: int := KEYS_PER_LEAF_PAGE
  const PIDS_PER_PAGE: int := KEYS_PER_NONLEAF_PAGE + 1

  /** `getT` of a leaf and of a non-leaf: a node is full at 2t-1 keys. */
  const LEAF_T: int := (KEYS_PER_LEAF_PAGE + 1) / 2
  const NONLEAF_T: int := (KEYS_PER_NONLEAF_PAGE + 1) / 2

  /** The key array of an in-memory node is long enough for either kind. */
  const KEY_SLOTS: int := if KEYS_PER_LEAF_PAGE < KEYS_PER_NONLEAF_PAGE then KEYS_PER_NONLEAF_PAGE else KEYS_PER_LEAF_PAGE

  const RIDS_OFFSET: int := HEADER_SIZE + KEY_SIZE * KEYS_PER_LEAF_PAGE
  const PIDS_OFFSET: int := HEADER_SIZE + KEY_SIZE * KEYS_PER_NONLEAF_PAGE

  /**
   * The page geometry: a leaf holds the largest number of 12-byte key and
   * record-id pairs that fit after the header, a non-leaf one key fewer than
   * the 8-byte key and child-id pairs that fit; t >= 2 for both kinds, and
   * counts and offsets fit in an `int`.
   */
  predicate GeometryOk()
  {
    12 * KEYS_PER_LEAF_PAGE <= PAGE_SIZE - 9 < 12 * KEYS_PER_LEAF_PAGE + 12 &&
    8 * KEYS_PER_NONLEAF_PAGE + 8 <= PAGE_SIZE - 9 < 8 * KEYS_PER_NONLEAF_PAGE + 16 &&
    LEAF_T >= 2 && NONLEAF_T >= 2 && PAGE_SIZE <= INT32_MAX
  }

  /** The capacities are the quotients BTreeNode.h computes. */
  lemma CapacitiesAreQuotients()
    requires GeometryOk()
    ensures KEYS_PER_LEAF_PAGE == (PAGE_SIZE - HEADER_SIZE) / (KEY_SIZE + RID_SIZE)
    ensures KEYS_PER_NONLEAF_PAGE == (PAGE_SIZE - HEADER_SIZE) / (KEY_SIZE + PID_SIZE) - 1
  {
    assert KEY_SIZE + RID_SIZE == 12 && KEY_SIZE + PID_SIZE == 8;
    var a := PAGE_SIZE - HEADER_SIZE;
    assert a == 12 * KEYS_PER_LEAF_PAGE + (a - 12 * KEYS_PER_LEAF_PAGE);
    assert a == 8 * (KEYS_PER_NONLEAF_PAGE + 1) + (a - 8 * (KEYS_PER_NONLEAF_PAGE + 1));
  }

  function T(isLeaf: bool): int
  {
    if isLeaf then LEAF_T else NONLEAF_T
  }

  /** Capacity of the key array of either node kind. */
  function KeyCap(isLeaf: bool): int
  {
    if isLeaf then KEYS_PER_LEAF_PAGE else KEYS_PER_NONLEAF_PAGE
  }

  lemma MulMono(a: nat, b: nat, c: nat)
    requires b <= c
    ensures a * b <= a * c
  {
  }

  /** A full node (2t-1 keys) fits in its arrays, and t >= 2 leaves room on both sides of a split. */
  lemma Capacities()
    requires GeometryOk()
    ensures 3 <= 2 * LEAF_T - 1 <= KEYS_PER_LEAF_PAGE
    ensures 3 <= 2 * NONLEAF_T - 1 <= KEYS_PER_NONLEAF_PAGE
    ensures KEYS_PER_LEAF_PAGE <= KEY_SLOTS && KEYS_PER_NONLEAF_PAGE <= KEY_SLOTS
    ensures PIDS_PER_PAGE == KEYS_PER_NONLEAF_PAGE + 1
    ensures KEYS_PER_LEAF_PAGE < PAGE_SIZE && KEYS_PER_NONLEAF_PAGE < PAGE_SIZE
  {
  }

  /** With these capacities the header and a leaf's keys and record ids fit in a page. */
  lemma LeafFits()
    requires GeometryOk()
    ensures RIDS_OFFSET + RID_SIZE * KEYS_PER_LEAF_PAGE <= PAGE_SIZE
  {
  }

  /** ... and so do a non-leaf's keys and child ids. */
  lemma NonLeafFits()
    requires GeometryOk()
    ensures PIDS_OFFSET + PID_SIZE * PIDS_PER_PAGE <= PAGE_SIZE
  {
  }

  /** A position in the index: entry `eid` of the leaf on page `pid`; pid -1 means exhausted. */
  datatype IndexCursor = IndexCursor(pid: Int32, eid: Int32)

  /**
   * The content of a node page as the node sees it: header fields, the key
   * array (all slots, also those past `n`), and the record-id array of a
   * leaf or the child-id array of a non-leaf.
   */
  datatype NodeImage = NodeImage(isLeaf: bool, n: Int32, nextPage: Int32,
                                 keys: seq<Int32>, rids: seq<RecordId>, pids: seq<Int32>)

  ghost predicate WellSized(img: NodeImage)
  {
    if img.isLeaf then
      |img.keys| == KEYS_PER_LEAF_PAGE && |img.rids| == KEYS_PER_LEAF_PAGE && img.pids == []
    else
      |img.keys| == KEYS_PER_NONLEAF_PAGE && img.rids == [] && |img.pids| == PIDS_PER_PAGE
  }

  /** k copies of x: the zero fill `memset` leaves in a fresh buffer and in the page tail. */
  function Repeat<T>(x: T, k: nat): (z: seq<T>)
    ensures |z| == k && forall i :: 0 <= i < k ==> z[i] == x
  {
    if k == 0 then [] else [x] + Repeat(x, k - 1)
  }

  function EncodeInts(s: seq<Int32>): (b: seq<Byte>)
    ensures |b| == 4 * |s|
  {
    if s == [] then [] else EncodeInt32(s[0]) + EncodeInts(s[1..])
  }

  /** `count` ints read from consecutive 4-byte groups. */
  function DecodeInts(b: seq<Byte>, count: nat): (s: seq<Int32>)
    requires |b| >= 4 * count
    ensures |s| == count
  {
    if count == 0 then [] else [DecodeInt32(b[..4])] + DecodeInts(b[4..], count - 1)
  }

  function EncodeRid(r: RecordId): (b: seq<Byte>)
    ensures |b| == RID_SIZE
  {
    EncodeInt32(r.pid) + EncodeInt32(r.sid)
  }

  function DecodeRid(b: seq<Byte>): RecordId
    requires |b| == RID_SIZE
  {
    RecordId(DecodeInt32(b[0..4]), DecodeInt32(b[4..8]))
  }

  function EncodeRids(s: seq<RecordId>): (b: seq<Byte>)
    ensures |b| == RID_SIZE * |s|
  {
    if s == [] then [] else EncodeRid(s[0]) + EncodeRids(s[1..])
  }

  function DecodeRids(b: seq<Byte>, count: nat): (s: seq<RecordId>)
    requires |b| >= RID_SIZE * count
    ensures |s| == count
  {
    if count == 0 then [] else [DecodeRid(b[..RID_SIZE])] + DecodeRids(b[RID_SIZE..], count - 1)
  }

  /** Ints written in a row and read back in a row, whatever follows them. */
  lemma {:induction false} DecodeEncodeInts(s: seq<Int32>, rest: seq<Byte>)
    ensures DecodeInts(EncodeInts(s) + rest, |s|) == s
  {
    if s != [] {
      var b := EncodeInts(s) + rest;
      assert b[..4] == EncodeInt32(s[0]);
      assert b[4..] == EncodeInts(s[1..]) + rest;
      Int32RoundTrip(s[0]);
      DecodeEncodeInts(s[1..], rest);
    }
  }

  lemma DecodeEncodeRid(r: RecordId)
    ensures DecodeRid(EncodeRid(r)) == r
  {
    var e := EncodeRid(r);
    assert e[0..4] == EncodeInt32(r.pid);
    assert e[4..8] == EncodeInt32(r.sid);
    Int32RoundTrip(r.pid);
    Int32RoundTrip(r.sid);
  }

  /** Record ids written in a row and read back in a row, whatever follows them. */
  lemma {:induction false} DecodeEncodeRids(s: seq<RecordId>, rest: seq<Byte>)
    ensures DecodeRids(EncodeRids(s) + rest, |s|) == s
  {
    if s != [] {
      var b := EncodeRids(s) + rest;
      assert b[..RID_SIZE] == EncodeRid(s[0]);
      assert b[RID_SIZE..] == EncodeRids(s[1..]) + rest;
      DecodeEncodeRid(s[0]);
      DecodeEncodeRids(s[1..], rest);
    }
  }

  function Header(img: NodeImage): (h: seq<Byte>)
    ensures |h| == HEADER_SIZE
  {
    [if img.isLeaf then 1 else 0] + EncodeInt32(img.n) + EncodeInt32(img.nextPage)
  }

  function Body(img: NodeImage): (b: seq<Byte>)
    requires GeometryOk() && WellSized(img)
    ensures HEADER_SIZE + |b| <= PAGE_SIZE
  {
    LeafFits();
    NonLeafFits();
    if img.isLeaf then EncodeInts(img.keys) + EncodeRids(img.rids)
    else EncodeInts(img.keys) + EncodeInts(img.pids)
  }

  /** `write`: the header, then the arrays at their fixed offsets; the rest of the page is zero. */
  function Encode(img: NodeImage): (page: Page)
    requires GeometryOk() && WellSized(img)
  {
    var h, b := Header(img), Body(img);
    h + b + Repeat<Byte>(0, PAGE_SIZE - HEADER_SIZE - |b|)
  }

  /** `read`: byte 0 is the node type, bytes 1-4 the key count, bytes 5-8 the next-leaf id. */
  function Decode(page: Page): (img: NodeImage)
    requires GeometryOk()
    ensures WellSized(img)
  {
    LeafFits();
    NonLeafFits();
    var leaf := page[0] != 0;
    var body := page[HEADER_SIZE..];
    NodeImage(leaf, DecodeInt32(page[1..5]), DecodeInt32(page[5..9]),
              DecodeInts(body, KeyCap(leaf)),
              if leaf then DecodeRids(page[RIDS_OFFSET..], KEYS_PER_LEAF_PAGE) else [],
              if leaf then [] else DecodeInts(page[PIDS_OFFSET..], PIDS_PER_PAGE))
  }

  /** The three parts of an encoded page. */
  lemma EncodeParts(img: NodeImage)
    requires GeometryOk() && WellSized(img)
    ensures Encode(img)[..HEADER_SIZE] == Header(img)
    ensures Encode(img)[HEADER_SIZE..] == Body(img) + Repeat<Byte>(0, PAGE_SIZE - HEADER_SIZE - |Body(img)|)
  {
    var h, b := Header(img), Body(img);
    var z := Repeat<Byte>(0, PAGE_SIZE - HEADER_SIZE - |b|);
    assert Encode(img) == h + (b + z);
  }

  lemma DecodeEncodeHeader(img: NodeImage)
    requires GeometryOk() && WellSized(img)
    ensures var d := Decode(Encode(img)); d.isLeaf == img.isLeaf && d.n == img.n && d.nextPage == img.nextPage
  {
    var page := Encode(img);
    EncodeParts(img);
    var h := Header(img);
    assert page[0] == h[0];
    assert page[1..5] == h[1..5] == EncodeInt32(img.n);
    assert page[5..9] == h[5..9] == EncodeInt32(img.nextPage);
    Int32RoundTrip(img.n);
    Int32RoundTrip(img.nextPage);
  }

  /** Past the header, an encoded page is the key bytes, then the other array's bytes, then zeros. */
  lemma BodyParts(img: NodeImage)
    requires GeometryOk() && WellSized(img)
    ensures var b := Body(img); var z := Repeat<Byte>(0, PAGE_SIZE - HEADER_SIZE - |b|);
      Encode(img)[HEADER_SIZE..] == EncodeInts(img.keys) + (b[4 * |img.keys|..] + z)
  {
    EncodeParts(img);
    var b := Body(img);
    var z := Repeat<Byte>(0, PAGE_SIZE - HEADER_SIZE - |b|);
    assert b == EncodeInts(img.keys) + b[4 * |img.keys|..];
  }

  lemma DecodeEncodeKeys(img: NodeImage)
    requires GeometryOk() && WellSized(img)
    ensures Decode(Encode(img)).keys == img.keys
  {
    var page := Encode(img);
    var b := Body(img);
    var rest := b[4 * |img.keys|..] + Repeat<Byte>(0, PAGE_SIZE - HEADER_SIZE - |b|);
    BodyParts(img);
    DecodeEncodeHeader(img);
    DecodedKeys(page);
    assert page[HEADER_SIZE..] == EncodeInts(img.keys) + rest;
    assert (page[0] != 0) == img.isLeaf;
    DecodeEncodeInts(img.keys, rest);
  }

  /** The keys of a decoded page are read from the bytes after the header. */
  lemma DecodedKeys(page: Page)
    requires GeometryOk()
    ensures HEADER_SIZE + 4 * KeyCap(page[0] != 0) <= |page|
    ensures Decode(page).keys == DecodeInts(page[HEADER_SIZE..], KeyCap(page[0] != 0))
  {
    LeafFits();
    NonLeafFits();
  }

  lemma DecodeEncodeLeafRids(img: NodeImage)
    requires GeometryOk() && WellSized(img) && img.isLeaf
    ensures Decode(Encode(img)).rids == img.rids
  {
    LeafFits();
    var page := Encode(img);
    var b := Body(img);
    var z := Repeat<Byte>(0, PAGE_SIZE - HEADER_SIZE - |b|);
    BodyParts(img);
    DecodeEncodeHeader(img);
    var tail := page[HEADER_SIZE..];
    assert b[4 * |img.keys|..] == EncodeRids(img.rids);
    assert tail == EncodeInts(img.keys) + (EncodeRids(img.rids) + z);
    assert page[RIDS_OFFSET..] == tail[4 * |img.keys|..] == EncodeRids(img.rids) + z;
    DecodeEncodeRids(img.rids, z);
  }

  lemma DecodeEncodeNonLeafPids(img: NodeImage)
    requires GeometryOk() && WellSized(img) && !img.isLeaf
    ensures Decode(Encode(img)).pids == img.pids
  {
    NonLeafFits();
    var page := Encode(img);
    var b := Body(img);
    var z := Repeat<Byte>(0, PAGE_SIZE - HEADER_SIZE - |b|);
    BodyParts(img);
    DecodeEncodeHeader(img);
    var tail := page[HEADER_SIZE..];
    assert b[4 * |img.keys|..] == EncodeInts(img.pids);
    assert tail == EncodeInts(img.keys) + (EncodeInts(img.pids) + z);
    assert page[PIDS_OFFSET..] == tail[4 * |img.keys|..] == EncodeInts(img.pids) + z;
    DecodeEncodeInts(img.pids, z);
  }

  lemma DecodeEncodeArrays(img: NodeImage)
    requires GeometryOk() && WellSized(img)
    ensures var d := Decode(Encode(img)); d.keys == img.keys && d.rids == img.rids && d.pids == img.pids
  {
    DecodeEncodeHeader(img);
    DecodeEncodeKeys(img);
    if img.isLeaf {
      DecodeEncodeLeafRids(img);
    } else {
      DecodeEncodeNonLeafPids(img);
    }
  }

  /** What `write` stores, `read` gives back: header fields and every array slot. */
  lemma DecodeEncode(img: NodeImage)
    requires GeometryOk() && WellSized(img)
    ensures Decode(Encode(img)) == img
  {
    DecodeEncodeHeader(img);
    DecodeEncodeArrays(img);
  }

  /** The header layout: type byte, then count, then next-leaf id, each little-endian. */
  lemma HeaderLayout(img: NodeImage)
    requires GeometryOk() && WellSized(img)
    ensures Encode(img)[0] == (if img.isLeaf then 1 else 0)
    ensures Encode(img)[1..5] == EncodeInt32(img.n)
    ensures Encode(img)[5..9] == EncodeInt32(img.nextPage)
    ensures Encode(img)[HEADER_SIZE .. HEADER_SIZE + 4 * |img.keys|] == EncodeInts(img.keys)
  {
    var page := Encode(img);
    var h := Header(img);
    EncodeParts(img);
    assert page[0] == h[0] && page[1..5] == h[1..5] && page[5..9] == h[5..9];
    BodyParts(img);
    assert page[HEADER_SIZE .. HEADER_SIZE + 4 * |img.keys|] == page[HEADER_SIZE..][..4 * |img.keys|];
  }
}
