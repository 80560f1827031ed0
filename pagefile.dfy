/**
 * The page store (PageFile.cc): fixed-size pages of one file addressed by
 * page id, the end-of-file mark `epid`, and the process-wide read cache
 * that the `NOCACHE` build switch turns off.
 *
 * The operating system's file calls are not modelled as such: the file is
 * the sequence `pages` of whole pages, and what `_open`/`_fstat32` report
 * (the descriptor, the file size and the pages on disk) are parameters of
 * `Open`. A seek can fail only on a closed store (descriptor -1); a write
 * through a descriptor opened read-only fails; every other call succeeds.
 */
module PageFile {
  import opened BPBase

  type Positive = n: nat | n > 0 witness 1

  /** Bytes per page. PageFile.h (where it is set) is not part of this model: any positive size. */
  const PAGE_SIZE: Positive

  /** Slots of the read cache; also set in PageFile.h, so any positive number. */
  const CACHE_COUNT: Positive

  type Page = p: seq<Byte> | |p| == PAGE_SIZE witness seq(PAGE_SIZE, _ => 0)

  function ZeroPage(): (p: Page)
    ensures forall k :: 0 <= k < PAGE_SIZE ==> p[k] == 0
  {
    seq(PAGE_SIZE, _ => 0)
  }

  /**
   * The file after one page is written at offset pid * PAGE_SIZE: a page
   * inside the file is replaced; a page past the end extends the file, and
   * the gap in between reads back as zeros.
   */
  function WritePage(pages: seq<Page>, pid: nat, page: Page): (r: seq<Page>)
    ensures |r| == if pid < |pages| then |pages| else pid + 1
    ensures r[pid] == page
    ensures forall q :: 0 <= q < |pages| && q != pid ==> r[q] == pages[q]
    ensures forall q :: |pages| <= q < pid ==> r[q] == ZeroPage()
  {
    if pid < |pages| then pages[pid := page]
    else pages + seq(pid - |pages|, _ => ZeroPage()) + [page]
  }

  /** One cache slot: owning descriptor, page id, logical access time (0 = empty) and a copy of the page. */
  datatype Slot = Slot(fd: int, pid: int, lastAccessed: int, buffer: Page)
  {
    predicate Live() { lastAccessed != 0 }
    predicate Holds(f: int, p: int) { fd == f && pid == p && lastAccessed != 0 }
    /** What `write` and `close` do to a slot they evict; the buffer is left as it was. */
    function Cleared(): Slot { this.(fd := 0, pid := 0, lastAccessed := 0) }
  }

  /** Every live slot tagged `fd` holds the current content of the page it names. */
  ghost predicate CoherentSlots(s: seq<Slot>, fd: int, pages: seq<Page>)
  {
    forall i {:trigger s[i].buffer} :: 0 <= i < |s| && s[i].Live() && s[i].fd == fd ==>
      0 <= s[i].pid < |pages| && s[i].buffer == pages[s[i].pid]
  }

  /** No two live slots carry the same (descriptor, page id) tag. */
  ghost predicate UniqueTags(s: seq<Slot>)
  {
    forall i, j ::
      (0 <= i < |s| && 0 <= j < |s| && s[i].Live() && s[j].Live() &&
       s[i].fd == s[j].fd && s[i].pid == s[j].pid) ==> i == j
  }

  /**
   * The eviction rule of `read`: the first empty slot if there is one,
   * otherwise the lowest-numbered slot among those accessed least recently.
   */
  ghost predicate IsVictim(s: seq<Slot>, v: int)
  {
    0 <= v < |s| &&
    if exists j :: 0 <= j < |s| && s[j].lastAccessed == 0 then
      s[v].lastAccessed == 0 && forall j :: 0 <= j < v ==> s[j].lastAccessed != 0
    else
      (forall j :: 0 <= j < |s| ==> s[v].lastAccessed <= s[j].lastAccessed) &&
      (forall j :: 0 <= j < v ==> s[v].lastAccessed < s[j].lastAccessed)
  }

  /** The eviction rule picks exactly one slot. */
  lemma VictimUnique(s: seq<Slot>, v: int, w: int)
    requires IsVictim(s, v) && IsVictim(s, w)
    ensures v == w
  {
  }

  /**
   * A step on the cache by the store with descriptor `fd` leaves the slots
   * of every other descriptor alone, apart from emptying them.
   */
  ghost predicate KeepsOthers(before: seq<Slot>, after: seq<Slot>, fd: int)
  {
    |before| == |after| &&
    forall i :: 0 <= i < |after| ==>
      after[i] == before[i] || after[i].fd == fd || !after[i].Live()
  }

  /** So one store's traffic cannot make the cache incoherent for another store. */
  lemma OtherStoresStayCoherent(before: seq<Slot>, after: seq<Slot>, fd: int, other: int, pages: seq<Page>)
    requires KeepsOthers(before, after, fd) && other != fd
    requires CoherentSlots(before, other, pages)
    ensures CoherentSlots(after, other, pages)
  {
    forall i | 0 <= i < |after| && after[i].Live() && after[i].fd == other
      ensures 0 <= after[i].pid < |pages| && after[i].buffer == pages[after[i].pid]
    {
      assert after[i] == before[i];
    }
  }

  /**
   * The read cache: `CACHE_COUNT` slots and the logical clock `cacheClock`,
   * static members shared by every page store of the process.
   */
  class ReadCache {
    const slots: array<Slot>
    var clock: int

    ghost predicate Valid()
      reads this, slots
    {
      slots.Length == CACHE_COUNT && clock >= 1 &&
      (forall i :: 0 <= i < slots.Length ==> 0 <= slots[i].lastAccessed <= clock) &&
      UniqueTags(slots[..])
    }

    /** Static storage is zero-filled and the clock starts at 1. */
    constructor ()
      ensures Valid() && fresh(slots) && clock == 1
      ensures forall i :: 0 <= i < CACHE_COUNT ==> slots[i] == Slot(0, 0, 0, ZeroPage())
    {
      slots := new Slot[CACHE_COUNT](_ => Slot(0, 0, 0, ZeroPage()));
      clock := 1;
    }

    /** The lookup loop of `read`: the slot that holds (fd, pid), or -1. */
    method Find(fd: int, pid: int) returns (i: int)
      requires Valid()
      ensures -1 <= i < CACHE_COUNT
      ensures i == -1 <==> forall j :: 0 <= j < CACHE_COUNT ==> !slots[j].Holds(fd, pid)
      ensures i >= 0 ==> slots[i].Holds(fd, pid)
    {
      var k := 0;
      while k < CACHE_COUNT
        invariant 0 <= k <= CACHE_COUNT
        invariant forall j :: 0 <= j < k ==> !slots[j].Holds(fd, pid)
      {
        if slots[k].Holds(fd, pid) {
          return k;
        }
        k := k + 1;
      }
      return -1;
    }

    /** The eviction loop of `read`. */
    method Victim() returns (v: int)
      requires Valid()
      ensures IsVictim(slots[..], v)
    {
      v := 0;
      var k := 0;
      while k < CACHE_COUNT
        invariant 0 <= k <= CACHE_COUNT && 0 <= v < CACHE_COUNT
        invariant k == 0 ==> v == 0
        invariant k > 0 ==> v < k
        invariant forall j :: 0 <= j < k ==> slots[j].lastAccessed != 0
        invariant forall j :: 0 <= j < k ==> slots[v].lastAccessed <= slots[j].lastAccessed
        invariant forall j :: 0 <= j < v ==> slots[v].lastAccessed < slots[j].lastAccessed
      {
        if slots[k].lastAccessed == 0 {
          v := k;
          break;
        }
        if slots[k].lastAccessed < slots[v].lastAccessed {
          v := k;
        }
        k := k + 1;
      }
      assert slots[..][v] == slots[v];
    }

    /** A hit: the slot's access time becomes `++cacheClock`. */
    method Touch(i: int)
      requires Valid() && 0 <= i < CACHE_COUNT && slots[i].Live()
      modifies this, slots
      ensures Valid()
      ensures clock == old(clock) + 1
      ensures slots[..] == old(slots[..])[i := old(slots[i]).(lastAccessed := clock)]
    {
      clock := clock + 1;
      slots[i] := slots[i].(lastAccessed := clock);
      assert slots[..] == old(slots[..])[i := old(slots[i]).(lastAccessed := clock)];
    }

    /** A miss: the victim slot is retagged, stamped `++cacheClock` and filled with the page. */
    method Fill(i: int, fd: int, pid: int, page: Page)
      requires Valid() && 0 <= i < CACHE_COUNT
      requires forall j :: 0 <= j < CACHE_COUNT ==> !slots[j].Holds(fd, pid)
      modifies this, slots
      ensures Valid()
      ensures clock == old(clock) + 1
      ensures slots[..] == old(slots[..])[i := Slot(fd, pid, clock, page)]
    {
      clock := clock + 1;
      slots[i] := Slot(fd, pid, clock, page);
      assert slots[..] == old(slots[..])[i := Slot(fd, pid, clock, page)];
    }

    /** The invalidation loop of `write`: empties the slot holding (fd, pid), if any. */
    method InvalidatePage(fd: int, pid: int)
      requires Valid()
      modifies slots
      ensures Valid()
      ensures forall j :: 0 <= j < CACHE_COUNT ==>
        slots[j] == if old(slots[j]).Holds(fd, pid) then old(slots[j]).Cleared() else old(slots[j])
    {
      var k := 0;
      while k < CACHE_COUNT
        invariant 0 <= k <= CACHE_COUNT
        invariant forall j :: 0 <= j < k ==> !slots[j].Holds(fd, pid)
        invariant slots[..] == old(slots[..])
      {
        if slots[k].Holds(fd, pid) {
          slots[k] := slots[k].Cleared();
          assert forall j :: 0 <= j < CACHE_COUNT && j != k ==> !old(slots[j]).Holds(fd, pid);
          break;
        }
        k := k + 1;
      }
    }

    /** The invalidation loop of `close`: empties every slot of descriptor fd. */
    method InvalidateFile(fd: int)
      requires Valid()
      modifies slots
      ensures Valid()
      ensures forall j :: 0 <= j < CACHE_COUNT ==>
        slots[j] == if old(slots[j]).Live() && old(slots[j]).fd == fd then old(slots[j]).Cleared() else old(slots[j])
    {
      var k := 0;
      while k < CACHE_COUNT
        invariant 0 <= k <= CACHE_COUNT
        invariant forall j :: 0 <= j < k ==>
          slots[j] == if old(slots[j]).Live() && old(slots[j]).fd == fd then old(slots[j]).Cleared() else old(slots[j])
        invariant forall j :: k <= j < CACHE_COUNT ==> slots[j] == old(slots[j])
      {
        if slots[k].fd == fd && slots[k].lastAccessed != 0 {
          slots[k] := slots[k].Cleared();
        }
        k := k + 1;
      }
    }
  }

  /** One page store. `cached` is the build choice between the `NOCACHE` path and the cache path. */
  class PageFile {
    var fd: int
    var epid: int
    /** Whether the descriptor was opened for writing ('w' or 'W'). */
    var writable: bool
    /** The file as it is on disk. */
    var pages: seq<Page>
    const cache: ReadCache
    const cached: bool

    ghost predicate Valid()
      reads this, cache, cache.slots
    {
      cache.Valid() &&
      (fd == -1 || fd > 0) &&
      (fd == -1 ==> epid == 0) &&
      (fd > 0 ==> epid == |pages|) &&
      (cached && fd > 0 ==> CoherentSlots(cache.slots[..], fd, pages))
    }

    predicate IsOpen()
      reads this
    {
      fd > 0
    }

    constructor (c: ReadCache, useCache: bool)
      requires c.Valid()
      ensures Valid() && fd == -1 && epid == 0 && pages == []
      ensures cache == c && cached == useCache
    {
      fd := -1;
      epid := 0;
      pages := [];
      cache := c;
      cached := useCache;
    }

    /** The end pid: one more than the last page id of the open file. */
    function EndPid(): (e: int)
      reads this, cache, cache.slots
      requires Valid()
      ensures e >= 0
      ensures IsOpen() ==> e == |pages|
      ensures !IsOpen() ==> e == 0
    {
      epid
    }

    /**
     * `open`: the arguments after `mode` stand for what the OS reports: the
     * descriptor `_open` returns (negative on failure; never 0, which the
     * process's standard input keeps), the file size and the whole pages on
     * disk. The descriptor names no live cache slot, because every store
     * empties its slots when it closes its descriptor.
     */
    method Open(mode: char, osFd: int, fileSize: nat, onDisk: seq<Page>) returns (rc: int)
      requires Valid()
      requires osFd != 0 && |onDisk| == fileSize / PAGE_SIZE
      requires cached && osFd > 0 ==> forall j :: 0 <= j < CACHE_COUNT ==> !(cache.slots[j].Live() && cache.slots[j].fd == osFd)
      modifies this
      ensures Valid()
      ensures old(IsOpen()) ==> rc == RC_FILE_OPEN_FAILED && unchanged(this)
      ensures !old(IsOpen()) && mode !in "rRwW" ==> rc == RC_INVALID_FILE_MODE && unchanged(this)
      ensures !old(IsOpen()) && mode in "rRwW" && osFd < 0 ==> rc == RC_FILE_OPEN_FAILED && unchanged(this)
      ensures !old(IsOpen()) && mode in "rRwW" && osFd > 0 ==>
        rc == 0 && fd == osFd && epid == fileSize / PAGE_SIZE && pages == onDisk && writable == (mode in "wW")
    {
      if fd > 0 {
        return RC_FILE_OPEN_FAILED;
      }
      if mode !in "rRwW" {
        return RC_INVALID_FILE_MODE;
      }
      if osFd < 0 {
        fd := -1;
        return RC_FILE_OPEN_FAILED;
      }
      fd := osFd;
      writable := mode in "wW";
      pages := onDisk;
      epid := fileSize / PAGE_SIZE;
      rc := 0;
    }

    /** `close`: empties the cache slots of the descriptor, then forgets descriptor and end pid. */
    method Close() returns (rc: int)
      requires Valid()
      modifies this, cache.slots
      ensures Valid()
      ensures !old(IsOpen()) ==> rc == RC_FILE_CLOSE_FAILED && unchanged(this) && unchanged(cache.slots)
      ensures old(IsOpen()) ==> rc == 0 && fd == -1 && epid == 0
      ensures pages == old(pages) && writable == old(writable)
      ensures cached && old(IsOpen()) ==> forall j :: 0 <= j < CACHE_COUNT ==>
        cache.slots[j] == if old(cache.slots[j]).Live() && old(cache.slots[j]).fd == old(fd)
                          then old(cache.slots[j]).Cleared() else old(cache.slots[j])
      ensures !cached ==> unchanged(cache.slots)
      ensures KeepsOthers(old(cache.slots[..]), cache.slots[..], old(fd))
    {
      if fd <= 0 {
        return RC_FILE_CLOSE_FAILED;
      }
      if cached {
        cache.InvalidateFile(fd);
      }
      fd := -1;
      epid := 0;
      rc := 0;
    }

    /** `seek`: fails only when there is no descriptor. */
    function Seek(pid: int): (rc: int)
      reads this
      ensures rc == 0 || rc == RC_FILE_SEEK_FAILED
    {
      if fd == -1 then RC_FILE_SEEK_FAILED else 0
    }

    /**
     * `write`. The seek check assigns the comparison `seek(pid) < 0`, not
     * the seek's code, so on a closed store the call returns 1.
     */
    method Write(pid: int, page: Page) returns (rc: int)
      requires Valid()
      modifies this, cache.slots
      ensures Valid()
      ensures fd == old(fd) && writable == old(writable)
      ensures pid < 0 ==> rc == RC_INVALID_PID
      ensures pid >= 0 && !old(IsOpen()) ==> rc == 1
      ensures pid >= 0 && old(IsOpen()) && !writable ==> rc == RC_FILE_WRITE_FAILED
      ensures rc != 0 ==> unchanged(this) && unchanged(cache.slots)
      ensures rc == 0 <==> pid >= 0 && old(IsOpen()) && writable
      ensures rc == 0 ==> pages == WritePage(old(pages), pid, page)
      ensures rc == 0 ==> epid == if pid >= old(epid) then pid + 1 else old(epid)
      ensures rc == 0 && cached ==> forall j :: 0 <= j < CACHE_COUNT ==>
        cache.slots[j] == if old(cache.slots[j]).Holds(fd, pid) then old(cache.slots[j]).Cleared() else old(cache.slots[j])
      ensures !cached ==> unchanged(cache.slots)
      ensures KeepsOthers(old(cache.slots[..]), cache.slots[..], fd)
    {
      if pid < 0 {
        return RC_INVALID_PID;
      }
      rc := if Seek(pid) < 0 then 1 else 0;
      if rc != 0 {
        return;
      }
      if !writable {
        return RC_FILE_WRITE_FAILED;
      }
      pages := WritePage(pages, pid, page);
      if cached {
        cache.InvalidatePage(fd, pid);
      }
      if pid >= epid {
        epid := pid + 1;
      }
      rc := 0;
    }

    /**
     * `read`, both builds. The seek of the source cannot fail here: a valid
     * page id implies an open store.
     */
    method Read(pid: int) returns (rc: int, page: Page)
      requires Valid()
      modifies cache, cache.slots
      ensures Valid()
      ensures rc == 0 <==> 0 <= pid < epid
      ensures rc != 0 ==> rc == RC_INVALID_PID && unchanged(cache) && unchanged(cache.slots)
      ensures rc == 0 ==> page == pages[pid]
      ensures !cached ==> unchanged(cache) && unchanged(cache.slots)
      ensures cached && rc == 0 ==> cache.clock == old(cache.clock) + 1
      ensures cached && rc == 0 ==>
        exists i :: 0 <= i < CACHE_COUNT && cache.slots[i] == Slot(fd, pid, cache.clock, pages[pid]) &&
          (forall j :: 0 <= j < CACHE_COUNT && j != i ==> cache.slots[j] == old(cache.slots[j])) &&
          (if exists j :: 0 <= j < CACHE_COUNT && old(cache.slots[j]).Holds(fd, pid)
           then old(cache.slots[i]).Holds(fd, pid)
           else IsVictim(old(cache.slots[..]), i))
      ensures KeepsOthers(old(cache.slots[..]), cache.slots[..], fd)
    {
      if pid < 0 || pid >= epid {
        return RC_INVALID_PID, ZeroPage();
      }
      if !cached {
        return 0, pages[pid];
      }
      var i := cache.Find(fd, pid);
      if i >= 0 {
        page := cache.slots[i].buffer;
        cache.Touch(i);
        assert cache.slots[i] == Slot(fd, pid, cache.clock, pages[pid]);
        return 0, page;
      }
      var v := cache.Victim();
      cache.Fill(v, fd, pid, pages[pid]);
      page := cache.slots[v].buffer;
      assert cache.slots[v] == Slot(fd, pid, cache.clock, pages[pid]);
      rc := 0;
    }
  }
}
