/** The buffer pool (`buffer_pool.rs`): a write-back LRU cache over the pager.

    `view` is the uncached page map the pool stands for: the last bytes put for
    every page. Caching, eviction and flushing never change it, except for the
    eight checksum bytes of each page, which write-back fills in. */
module Pool {
  import opened Errors
  import opened Codec
  import opened Page
  import opened Disk
  import opened PagerModel

  ghost predicate Extends<V>(p: map<nat, V>, q: map<nat, V>) {
    forall id | id in p :: id in q && q[id] == p[id]
  }

  // ------------------------------------------------------------------
  // Recency.
  // ------------------------------------------------------------------

  /** `retain(|e| e != x)`. */
  function Without(s: seq<nat>, x: nat): (r: seq<nat>)
    ensures forall y :: y in r <==> y in s && y != x
  {
    if |s| == 0 then []
    else if s[|s| - 1] == x then Without(s[..|s| - 1], x)
    else Without(s[..|s| - 1], x) + [s[|s| - 1]]
  }

  /** Ordered by last use, oldest first; in particular without duplicates. */
  predicate Ordered(s: seq<nat>, use: map<nat, nat>, clock: nat) {
    && (forall x | x in s :: x in use && use[x] < clock)
    && (forall i, j | 0 <= i < j < |s| :: use[s[i]] < use[s[j]])
  }

  lemma {:induction false} WithoutOrdered(s: seq<nat>, x: nat, use: map<nat, nat>, clock: nat)
    requires Ordered(s, use, clock)
    ensures Ordered(Without(s, x), use, clock)
  {
    if |s| > 0 {
      var n := |s| - 1;
      WithoutOrdered(s[..n], x, use, clock);
      forall y | y in Without(s[..n], x)
        ensures use[y] < use[s[n]]
      {
        var i :| 0 <= i < n && s[..n][i] == y;
        assert s[i] == y;
      }
    }
  }

  /** Using `x` now puts it last and leaves the others in order. */
  lemma UseNow(s: seq<nat>, x: nat, use: map<nat, nat>, clock: nat)
    requires Ordered(s, use, clock)
    ensures Ordered(Without(s, x) + [x], Used(use, x, clock), clock + 1)
  {
    WithoutOrdered(s, x, use, clock);
    var r := Without(s, x);
    assert forall y | y in r :: use[x := clock][y] == use[y];
    forall i, j | 0 <= i < j < |r + [x]|
      ensures use[x := clock][(r + [x])[i]] < use[x := clock][(r + [x])[j]]
    {
      assert r[i] in r;
      if j < |r| {
        assert r[j] in r;
      }
    }
  }

  /** `id` used at time `at`. */
  function Used(use: map<nat, nat>, id: nat, at: nat): map<nat, nat> {
    use[id := at]
  }

  /** `entries.remove(&id)`. */
  function Uncached(entries: map<nat, Bytes>, id: nat): map<nat, Bytes> {
    entries - {id}
  }

  lemma {:induction false} WithoutNothing(s: seq<nat>, x: nat)
    requires x !in s
    ensures Without(s, x) == s
  {
    if |s| > 0 {
      WithoutNothing(s[..|s| - 1], x);
    }
  }

  // ------------------------------------------------------------------
  // What the pool's fields mean.
  // ------------------------------------------------------------------

  ghost predicate CacheOk(capacity: nat, entries: map<nat, Bytes>, recency: seq<nat>) {
    && |entries| <= capacity
    && forall id :: id in recency <==> id in entries
  }

  /** Cached pages are current; pages that are not dirty are current on disk.
      The cache may also hold a page nobody put, read from an id out of use. */
  predicate ViewOk(h: Hash, ps: PageSize, data: Bytes, entries: map<nat, Bytes>, dirty: set<nat>, view: Pages) {
    && (forall id | id in entries :: |entries[id]| == ps)
    && (forall id | id in entries && id in view :: SameBody(entries[id], view[id]))
    && (forall id | id in view :: |view[id]| == ps)
    && (forall id | id in view && id !in dirty :: Stored(h, ps, data, id, view[id]))
  }

  lemma SameBodyChains(a: Bytes, b: Bytes, c: Bytes)
    requires SameBody(a, b) && SameBody(b, c)
    ensures SameBody(a, c) && SameBody(b, a)
  {
  }

  lemma StoredChains(h: Hash, ps: PageSize, data: Bytes, id: nat, a: Bytes, b: Bytes)
    requires Stored(h, ps, data, id, a) && SameBody(a, b)
    ensures Stored(h, ps, data, id, b)
  {
  }

  /** Writing a cached page back makes it clean and changes no other page. */
  lemma WriteBackKeepsView(h: Hash, ps: PageSize, data: Bytes, entries: map<nat, Bytes>, dirty: set<nat>,
                           view: Pages, bound: nat, id: nat, data': Bytes)
    requires ViewOk(h, ps, data, entries, dirty, view)
    requires id in entries && id in view && IdsIn(view, bound)
    requires data' == WriteAt(data, FileOffset(ps, id), Stamped(h, entries[id]))
    ensures ViewOk(h, ps, data', entries, dirty - {id}, view)
  {
    hide WriteAt, Stamped, FileOffset, SameBody, PageRead;
    forall other | other in view && other !in dirty - {id}
      ensures Stored(h, ps, data', other, view[other])
    {
      if other == id {
        PageWriteReadsBack(h, ps, data, id, entries[id]);
        StoredChains(h, ps, data', id, entries[id], view[id]);
      } else {
        PageWriteElsewhere(h, ps, data, id, Stamped(h, entries[id]), other);
      }
    }
  }

  /** Writing a page no committed root can reach leaves the state quiet. */
  lemma WriteStaysQuiet(h: Hash, s: DiskState, slot: nat, m: MetaContent, pages: Pages, id: nat, page: Bytes)
    requires Quiet(h, s, slot, m, pages) && m.pageCount <= id && FIRST_DATA_PAGE_ID <= m.pageCount
    requires |page| == m.pageSize
    ensures var at := FileOffset(m.pageSize, id);
      Quiet(h, DiskState(WriteAt(s.data, at, page), s.durable, s.unsynced + Span(at, m.pageSize)), slot, m, pages)
  {
    hide Stores, IdsIn, WriteAt, Anchored, Span, FileOffset;
    AnchoredLength(h, s.durable, slot, m);
    var at := FileOffset(m.pageSize, id);
    PastCommitted(m.pageSize, m.pageCount, id);
    SlotsKept(s.data, at, page, WriteAt(s.data, at, page));
    forall p | p in s.unsynced + Span(at, m.pageSize)
      ensures p >= FileOffset(m.pageSize, m.pageCount)
    {
    }
  }

  lemma PastCommitted(ps: PageSize, count: nat, id: nat)
    requires FIRST_DATA_PAGE_ID <= count <= id
    ensures META_REGION_LEN <= FileOffset(ps, count) <= FileOffset(ps, id)
  {
    if count < id {
      PagesApart(ps, count, id);
    }
  }

  lemma SlotsKept(data: Bytes, at: nat, page: Bytes, after: Bytes)
    requires |data| >= META_REGION_LEN && at >= META_REGION_LEN && after == WriteAt(data, at, page)
    ensures |after| >= |data| && Slot(after, 0) == Slot(data, 0) && Slot(after, 1) == Slot(data, 1)
  {
    hide WriteAt;
    WriteAtElsewhere(data, at, page, SlotAt(0), SlotAt(0) + META_SLOT_LEN);
    WriteAtElsewhere(data, at, page, SlotAt(1), SlotAt(1) + META_SLOT_LEN);
  }

  lemma AnchoredLength(h: Hash, img: Bytes, slot: nat, m: MetaContent)
    requires Anchored(h, img, slot, m)
    ensures |img| >= META_REGION_LEN && slot < 2
  {
  }

  predicate AllQuiet(h: Hash, states: seq<DiskState>, slot: nat, m: MetaContent, pages: Pages) {
    forall i | 0 <= i < |states| :: Quiet(h, states[i], slot, m, pages)
  }

  /** No cached page was used before `victim`. */
  ghost predicate LeastRecent(victim: nat, entries: map<nat, Bytes>, use: map<nat, nat>) {
    forall id | id in entries :: victim in use && id in use && use[victim] <= use[id]
  }

  predicate DirtyCached(dirty: set<nat>, entries: map<nat, Bytes>, loose: set<nat>) {
    forall id | id in dirty :: id in entries || id in loose
  }

  /** No page a committed root can reach is dirty. */
  predicate DirtyFresh(dirty: set<nat>, view: Pages, pageCount: nat) {
    forall id | id in dirty :: id in view && pageCount <= id
  }

  /** The file has grown no further than the last page in use needs. */
  predicate FileFits(data: Bytes, initialLen: nat, ps: PageSize, next: nat) {
    |data| <= initialLen || (next >= 2 && |data| <= 8192 + (next - 2) * ps)
  }

  lemma WriteFits(data: Bytes, initialLen: nat, ps: PageSize, next: nat, id: nat, page: Bytes)
    requires FileFits(data, initialLen, ps, next) && FIRST_DATA_PAGE_ID <= id < next && |page| == ps
    ensures FileFits(WriteAt(data, FileOffset(ps, id), page), initialLen, ps, next)
  {
    hide WriteAt;
    FileOffsets(ps, id);
    assert (id + 1 - 2) * ps <= (next - 2) * ps;
    assert (id + 1 - 2) * ps == (id - 2) * ps + ps;
  }

  lemma NextFits(data: Bytes, initialLen: nat, ps: PageSize, next: nat)
    requires FileFits(data, initialLen, ps, next)
    ensures FileFits(data, initialLen, ps, next + 1)
  {
    assert next >= 2 ==> (next + 1 - 2) * ps == (next - 2) * ps + ps;
  }

  lemma LengthBound(data: Bytes, initialLen: nat, ps: PageSize, next: nat)
    requires next >= 2
    ensures FileFits(data, initialLen, ps, next) <==> |data| <= Larger(initialLen, 8192 + (next - 2) * ps)
  {
  }

  lemma BelowBound(view: Pages, bound: nat, id: nat)
    requires IdsIn(view, bound) && id in view
    ensures id < bound
  {
  }

  class BufferPool {
    const pager: Pager
    const capacity: nat
    var entries: map<nat, Bytes>
    var dirty: set<nat>
    var recency: seq<nat>
    var nextPageId: u32
    ghost var view: Pages
    ghost var committed: Pages
    ghost var since: nat
    ghost var lastUse: map<nat, nat>
    ghost var clock: nat
    ghost const initialLen: nat

    /** Dirty pages are cached, except that `loose` may be on its way in. */
    ghost predicate CacheInv(loose: set<nat>)
      reads this`entries, this`dirty, this`recency, this`lastUse, this`clock
    {
      && capacity >= 1
      && CacheOk(capacity, entries, recency)
      && Ordered(recency, lastUse, clock)
      && DirtyCached(dirty, entries, loose)
    }

    ghost predicate PageInv()
      reads this`entries, this`dirty, this`view, this`committed, this`nextPageId, pager, pager.file
    {
      && ViewOk(pager.hash, pager.pageSize, pager.file.data, entries, dirty, view)
      && FIRST_DATA_PAGE_ID <= pager.pageCount <= nextPageId
      && IdsIn(view, nextPageId)
      && Extends(committed, view) && IdsIn(committed, pager.pageCount)
      && DirtyFresh(dirty, view, pager.pageCount)
    }

    /** Since the last commit, every disk state recovers to the committed one. The
        file is no longer than it was when opened, or than its pages need. */
    ghost predicate DiskInv()
      reads this`since, this`committed, this`nextPageId, pager, pager.file
    {
      && FileFits(pager.file.data, initialLen, pager.pageSize, nextPageId)
      && pager.file.Valid() && pager.activeSlot < 2
      && since < |pager.file.trace|
      && AllQuiet(pager.hash, pager.file.trace[since..], pager.activeSlot, pager.Meta(), committed)
    }

    ghost predicate Inv(loose: set<nat>)
      reads this, pager, pager.file
    {
      CacheInv(loose) && PageInv() && DiskInv()
    }

    ghost predicate Valid()
      reads this, pager, pager.file
    {
      Inv({})
    }

    lemma ValidIds()
      requires Valid()
      ensures IdsIn(view, nextPageId) && IdsIn(committed, pager.pageCount) && Extends(committed, view)
      ensures FIRST_DATA_PAGE_ID <= pager.pageCount <= nextPageId
      ensures forall id | id in view :: |view[id]| == pager.pageSize
    {
    }

    /** New pages may have been put, nothing was committed. */
    twostate predicate Grown()
      reads this, pager, pager.file
    {
      && unchanged(pager) && committed == old(committed) && since == old(since)
      && Extends(old(view), view) && old(nextPageId) <= nextPageId
      && old(pager.file.trace) <= pager.file.trace
    }

    /** Nothing committed, allocated or logical changed. */
    twostate predicate Steady()
      reads this, pager, pager.file
    {
      && unchanged(pager) && view == old(view) && committed == old(committed)
      && since == old(since) && nextPageId == old(nextPageId)
      && old(pager.file.trace) <= pager.file.trace
    }

    constructor Over(p: Pager, cap: nat, ghost pages: Pages)
      requires cap >= 1
      ensures pager == p && capacity == cap
      ensures view == pages && committed == pages && nextPageId == p.pageCount
      ensures since == if |p.file.trace| > 0 then |p.file.trace| - 1 else 0
      ensures initialLen == |p.file.data|
      ensures Anew(p, pages) ==> Valid()
    {
      hide ViewOk, CacheOk, Ordered, Quiet, Stores, IdsIn, AllCoherent;
      pager, capacity := p, cap;
      entries, dirty, recency := map[], {}, [];
      nextPageId := p.pageCount;
      view, committed, since := pages, pages, if |p.file.trace| > 0 then |p.file.trace| - 1 else 0;
      lastUse, clock := map[], 0;
      initialLen := |p.file.data|;
      new;
      if Anew(p, pages) {
        EmptyCache(p.hash, p.pageSize, p.file.data, pages, capacity);
        QuietIds(p.hash, p.file.State(), p.activeSlot, p.Meta(), pages);
        assert p.file.trace[since..] == [p.file.State()];
      }
    }

    /** The pager's file is at a committed transaction with these pages. */
    static ghost predicate Anew(p: Pager, pages: Pages)
      reads p, p.file
    {
      && p.file.Valid() && p.activeSlot < 2 && FIRST_DATA_PAGE_ID <= p.pageCount
      && Quiet(p.hash, p.file.State(), p.activeSlot, p.Meta(), pages)
      && Stores(p.hash, p.pageSize, p.file.data, pages)
    }

    /** `BufferPool::new`. `pages` are the committed pages found on disk. */
    static method New(p: Pager, cap: nat, ghost pages: Pages) returns (r: Result<BufferPool>)
      ensures cap == 0 ==> r == Err(InvalidBufferPoolCapacity)
      ensures cap > 0 ==>
        && r.Ok? && fresh(r.value) && r.value.pager == p && r.value.capacity == cap && r.value.initialLen == |p.file.data|
        && r.value.view == pages && r.value.committed == pages && r.value.nextPageId == p.pageCount
        && (Anew(p, pages) ==> r.value.Valid() && r.value.since == |p.file.trace| - 1)
    {
      hide Quiet, Stores;
      if cap < 1 {
        return Err(InvalidBufferPoolCapacity);
      }
      var pool := new BufferPool.Over(p, cap, pages);
      return Ok(pool);
    }

    /** A fresh id; the increment aborts when the id space is used up. */
    method AllocatePageId() returns (r: Result<u32>)
      requires Valid()
      modifies this`nextPageId
      ensures Valid()
      ensures old(nextPageId) == U32_MAX ==> r == Err(ArithmeticOverflow) && nextPageId == old(nextPageId)
      ensures old(nextPageId) < U32_MAX ==>
        && r == Ok(old(nextPageId)) && nextPageId == old(nextPageId) + 1
        && r.value !in view && r.value >= pager.pageCount
    {
      hide FileFits, AllQuiet, Ordered, CacheOk, ViewOk, Extends, DirtyFresh, CacheInv;
      if nextPageId == U32_MAX {
        return Err(ArithmeticOverflow);
      }
      NextFits(pager.file.data, initialLen, pager.pageSize, nextPageId);
      var id := nextPageId;
      nextPageId := nextPageId + 1;
      return Ok(id);
    }

    method Touch(id: nat)
      requires CacheInv({}) && id in entries
      modifies this`recency, this`lastUse, this`clock
      ensures CacheInv({})
      ensures recency == Without(old(recency), id) + [id]
      ensures lastUse == Used(old(lastUse), id, old(clock)) && clock == old(clock) + 1
    {
      UseNow(recency, id, lastUse, clock);
      recency := Without(recency, id) + [id];
      lastUse := Used(lastUse, id, clock);
      clock := clock + 1;
    }

    /** `Pager::write_data_page` for a page no committed root reaches. */
    method WriteBack(id: nat, page: Bytes) returns (stamped: Bytes)
      requires DiskInv() && FIRST_DATA_PAGE_ID <= pager.pageCount <= id < nextPageId && |page| == pager.pageSize
      modifies pager.file
      ensures DiskInv() && old(pager.file.trace) <= pager.file.trace
      ensures stamped == Stamped(pager.hash, page)
      ensures pager.file.data == WriteAt(old(pager.file.data), FileOffset(pager.pageSize, id), stamped)
    {
      hide WriteAt, Stamped, FileOffset, Quiet, AllQuiet, FileFits;
      ghost var before := pager.file.trace;
      AllQuietLast(pager.hash, before[since..], pager.activeSlot, pager.Meta(), committed);
      assert pager.file.State() == before[since..][|before[since..]| - 1];
      WriteStaysQuiet(pager.hash, pager.file.State(), pager.activeSlot, pager.Meta(), committed, id, Stamped(pager.hash, page));
      WriteFits(pager.file.data, initialLen, pager.pageSize, nextPageId, id, Stamped(pager.hash, page));
      stamped := pager.WriteDataPage(id, page);
      assert pager.file.trace[since..] == before[since..] + [pager.file.State()];
      AllQuietAppend(pager.hash, before[since..], pager.file.State(), pager.activeSlot, pager.Meta(), committed);
    }

    /** The page on its way out reaches the disk first, if it is dirty. */
    method CleanVictim(id: nat, page: Bytes)
      requires PageInv() && DiskInv() && id in entries && page == entries[id]
      modifies this`dirty, pager.file
      ensures PageInv() && DiskInv() && dirty == old(dirty) - {id}
      ensures old(pager.file.trace) <= pager.file.trace
    {
      hide Stored, SameBody, DiskInv, FileOffset, WriteAt, Stamped, ViewOk, IdsIn, Extends;
      CachedIsCurrent(pager.hash, pager.pageSize, pager.file.data, entries, dirty, view, id);
      if id in dirty {
        WriteBackKeepsView(pager.hash, pager.pageSize, pager.file.data, entries, dirty, view, nextPageId, id,
                           WriteAt(pager.file.data, FileOffset(pager.pageSize, id), Stamped(pager.hash, page)));
        BelowBound(view, nextPageId, id);
        dirty := dirty - {id};
        var _ := WriteBack(id, page);
      }
    }

    /** Evict the least recently used page, writing it back if it is dirty. */
    method EvictOne(ghost loose: set<nat>) returns (r: Result<Unit>)
      requires Inv(loose)
      modifies this`entries, this`dirty, this`recency, pager.file
      ensures Inv(loose) && Steady()
      ensures old(recency) == [] ==> r == Err(PoolInvariantViolated) && unchanged(this) && unchanged(pager.file)
      ensures old(recency) != [] ==>
        var victim := old(recency)[0];
        && r.Ok? && recency == old(recency)[1..] && victim in old(entries)
        && entries == Uncached(old(entries), victim) && dirty == old(dirty) - {victim}
        && LeastRecent(victim, old(entries), lastUse)
    {
      hide DiskInv, ViewOk, Ordered, CacheOk, IdsIn, Extends, Uncached, DirtyCached, DirtyFresh, LeastRecent;
      if |recency| == 0 {
        return Err(PoolInvariantViolated);
      }
      var id := recency[0];
      EvictKeepsCache(capacity, entries, recency, lastUse, clock);
      DirtyStays(dirty, entries, id, loose);
      recency := recency[1..];
      CleanVictim(id, entries[id]);
      UncachedKeepsView(pager.hash, pager.pageSize, pager.file.data, entries, dirty, view, id);
      entries := Uncached(entries, id);
      return Ok(Done);
    }

    /** `insert_cached` first takes `id` out of the cache, ... */
    method Forget(id: nat)
      requires Valid()
      modifies this`entries, this`recency
      ensures Inv({id}) && entries == Uncached(old(entries), id) && id !in entries && recency == Without(old(recency), id)
    {
      hide ViewOk, Ordered, CacheOk, IdsIn, Extends, DiskInv, Without, DirtyCached, DirtyFresh;
      DirtyForgotten(dirty, entries, id);
      if id in entries {
        RemoveKeepsCache(capacity, entries, recency, lastUse, clock, id);
        UncachedKeepsView(pager.hash, pager.pageSize, pager.file.data, entries, dirty, view, id);
        entries := Uncached(entries, id);
        recency := Without(recency, id);
      } else {
        NotCached(capacity, entries, recency, id);
      }
    }

    /** ... then evicts until there is room. */
    method MakeRoom(id: nat)
      requires Valid()
      modifies this`entries, this`dirty, this`recency, pager.file
      ensures Inv({id}) && Steady()
      ensures id !in entries && |entries| < capacity && dirty <= old(dirty)
      ensures entries == Uncached(old(entries), id) || |entries| == capacity - 1
    {
      hide ViewOk, Ordered, CacheOk, IdsIn, Extends, DiskInv, PageInv, Uncached;
      Forget(id);
      while |entries| >= capacity
        invariant Inv({id}) && Steady() && id !in entries
        invariant entries == Uncached(old(entries), id) || |entries| >= capacity - 1
        invariant dirty <= old(dirty)
        decreases |entries|
      {
        CacheNotEmpty(capacity, entries, recency);
        EvictKeepsCache(capacity, entries, recency, lastUse, clock);
        var evicted := EvictOne({id});
        assert evicted.Ok?;
      }
    }

    /** Then the page goes in, last in the order of use. */
    method PushBack(id: nat, buf: Bytes, makeDirty: bool)
      requires Inv({id}) && id !in entries && |entries| < capacity && |buf| == pager.pageSize
      requires makeDirty ==> pager.pageCount <= id < nextPageId
      requires !makeDirty ==> id !in dirty && (id in view ==> SameBody(buf, view[id]))
      modifies this`entries, this`dirty, this`recency, this`view, this`lastUse, this`clock
      ensures Valid()
      ensures view == if makeDirty then old(view)[id := buf] else old(view)
      ensures entries == old(entries)[id := buf] && recency == old(recency) + [id]
      ensures lastUse == Used(old(lastUse), id, old(clock)) && clock == old(clock) + 1
    {
      hide ViewOk, Ordered, CacheOk, IdsIn, Extends, DiskInv, SameBody, Used, DirtyCached, DirtyFresh;
      InsertKeepsCache(capacity, entries, recency, lastUse, clock, id, buf);
      DirtyPushed(dirty, entries, id, buf);
      if makeDirty {
        PutKeepsView(pager.hash, pager.pageSize, pager.file.data, entries, dirty, view, id, buf);
        PutKeepsIds(view, committed, pager.pageCount, nextPageId, id, buf);
        FreshPushed(dirty, view, pager.pageCount, id, buf);
        dirty := dirty + {id};
        view := view[id := buf];
      } else {
        LoadKeepsView(pager.hash, pager.pageSize, pager.file.data, entries, dirty, view, id, buf);
      }
      entries := entries[id := buf];
      recency := recency + [id];
      lastUse := Used(lastUse, id, clock);
      clock := clock + 1;
    }

    /** `insert_cached`: `buf` becomes the most recently used page. */
    method InsertCached(id: nat, buf: Bytes, makeDirty: bool)
      requires Valid() && |buf| == pager.pageSize
      requires makeDirty ==> pager.pageCount <= id < nextPageId
      requires !makeDirty ==> id !in entries && (id in view ==> SameBody(buf, view[id]))
      modifies this`entries, this`dirty, this`recency, this`view, this`lastUse, this`clock, pager.file
      ensures Valid()
      ensures view == if makeDirty then old(view)[id := buf] else old(view)
      ensures old(pager.file.trace) <= pager.file.trace
      ensures id in entries && entries[id] == buf && |recency| > 0 && recency[|recency| - 1] == id
      ensures lastUse == Used(old(lastUse), id, old(clock)) && clock == old(clock) + 1
    {
      hide ViewOk, Ordered, CacheOk, IdsIn, Extends, DiskInv, SameBody, Used, Uncached, PageInv;
      MakeRoom(id);
      PushBack(id, buf, makeDirty);
    }

    /** An owned copy of page `id`, cached or read through. */
    method Get(id: nat) returns (r: Result<Bytes>)
      requires Valid()
      modifies this`entries, this`dirty, this`recency, this`view, this`lastUse, this`clock, pager.file
      ensures Valid() && Steady()
      ensures id in view ==> r.Ok? && SameBody(r.value, view[id])
      ensures r.Ok? ==> |r.value| == pager.pageSize && id in entries && |recency| > 0 && recency[|recency| - 1] == id
      ensures r.Ok? ==> lastUse == Used(old(lastUse), id, old(clock)) && clock == old(clock) + 1
      ensures id in old(entries) ==> r == Ok(old(entries)[id])
      ensures id !in old(entries) ==> ReadAnswers(pager.hash, pager.pageSize, old(pager.file.data), id, r)
      ensures r.Err? ==> unchanged(this) && unchanged(pager.file)
    {
      hide ReadAnswers, ViewOk, Ordered, CacheOk, IdsIn, Extends, AllQuiet, SameBody, PageRead, Used;
      if id in entries {
        var buf := entries[id];
        CachedIsCurrent(pager.hash, pager.pageSize, pager.file.data, entries, dirty, view, id);
        Touch(id);
        return Ok(buf);
      }
      CleanIsOnDisk(pager.hash, pager.pageSize, pager.file.data, entries, dirty, view, id);
      var buf :- pager.ReadDataPage(id);
      InsertCached(id, buf, false);
      return Ok(buf);
    }

    /** Put a new page; it reaches the disk on eviction or on commit. */
    method PutNew(id: nat, buf: Bytes)
      requires Valid() && |buf| == pager.pageSize
      requires pager.pageCount <= id < nextPageId
      modifies this`entries, this`dirty, this`recency, this`view, this`lastUse, this`clock, pager.file
      ensures Valid()
      ensures view == old(view)[id := buf]
      ensures lastUse == Used(old(lastUse), id, old(clock)) && clock == old(clock) + 1
      ensures old(pager.file.trace) <= pager.file.trace
    {
      InsertCached(id, buf, true);
    }

    /** Allocate an id and put `buf` under it. */
    method PutFresh(buf: Bytes) returns (r: Result<u32>)
      requires Valid() && |buf| == pager.pageSize
      modifies this`entries, this`dirty, this`recency, this`view, this`lastUse, this`clock, this`nextPageId, pager.file
      ensures Valid() && Grown()
      ensures r.Ok? ==>
        && r.value == old(nextPageId) && nextPageId == old(nextPageId) + 1
        && r.value !in old(view) && view == old(view)[r.value := buf]
      ensures r.Err? ==>
        r.error == ArithmeticOverflow && view == old(view) && nextPageId == old(nextPageId) == U32_MAX
    {
      hide ViewOk, Ordered, CacheOk, IdsIn, AllQuiet;
      var id :- AllocatePageId();
      PutNew(id, buf);
      return Ok(id);
    }

    /** Write every dirty page back, keep it cached, and sync. */
    method FlushAllDirty()
      requires Valid()
      modifies this`entries, this`dirty, pager.file
      ensures Valid() && Steady()
      ensures dirty == {} && entries.Keys == old(entries).Keys
      ensures pager.file.unsynced == {} && pager.file.durable == pager.file.data
      ensures Stores(pager.hash, pager.pageSize, pager.file.data, view)
    {
      hide ViewOk, Ordered, CacheOk, IdsIn, Extends, AllQuiet, WriteAt, Stamped, FileOffset;
      var ids := dirty;
      while ids != {}
        invariant Valid() && Steady()
        invariant ids == dirty && entries.Keys == old(entries).Keys
        decreases ids
      {
        var id :| id in ids;
        ids := ids - {id};
        FlushOne(id);
      }
      SyncAll();
    }

    /** One round of the flush loop: the cached buffer takes the stamp too. */
    method FlushOne(id: nat)
      requires Valid() && id in dirty
      modifies this`entries, this`dirty, pager.file
      ensures Valid() && Steady()
      ensures dirty == old(dirty) - {id} && entries.Keys == old(entries).Keys
      ensures id in entries && entries[id] == Stamped(pager.hash, old(entries)[id])
    {
      hide ViewOk, Ordered, CacheOk, IdsIn, Extends, AllQuiet, WriteAt, Stamped, FileOffset;
      var page := entries[id];
      CachedIsCurrent(pager.hash, pager.pageSize, pager.file.data, entries, dirty, view, id);
      WriteBackKeepsView(pager.hash, pager.pageSize, pager.file.data, entries, dirty, view, nextPageId, id,
                         WriteAt(pager.file.data, FileOffset(pager.pageSize, id), Stamped(pager.hash, page)));
      BelowBound(view, nextPageId, id);
      var stamped := WriteBack(id, page);
      dirty := dirty - {id};
      StampedIsCurrent(pager.hash, pager.pageSize, pager.file.data, entries, dirty, view, id);
      RefreshKeepsCache(capacity, entries, recency, id, stamped);
      entries := entries[id := stamped];
    }

    method SyncAll()
      requires Valid() && dirty == {}
      modifies pager.file
      ensures Valid() && Steady()
      ensures pager.file.unsynced == {} && pager.file.durable == pager.file.data
      ensures Stores(pager.hash, pager.pageSize, pager.file.data, view)
    {
      hide Ordered, CacheOk, IdsIn, AllQuiet, Stored, Quiet;
      ghost var before := pager.file.trace;
      AllQuietLast(pager.hash, before[since..], pager.activeSlot, pager.Meta(), committed);
      assert pager.file.State() == before[since..][|before[since..]| - 1];
      SyncStaysQuiet(pager.hash, pager.file.State(), pager.activeSlot, pager.Meta(), committed);
      pager.file.Sync();
      assert pager.file.trace[since..] == before[since..] + [pager.file.State()];
      AllQuietAppend(pager.hash, before[since..], pager.file.State(), pager.activeSlot, pager.Meta(), committed);
    }

    /** Flush, then let the pager commit `newRoot` at the allocation frontier.
        Every state passed since the last commit recovers to it or to this one. */
    method Commit(newRoot: u32) returns (r: Result<Unit>)
      requires Valid()
      modifies this`entries, this`dirty, this`committed, this`since, pager, pager.file
      ensures Valid() && view == old(view) && nextPageId == old(nextPageId)
      ensures old(pager.file.trace) <= pager.file.trace
      ensures r.Ok? ==>
        && old(pager.txnId) < U64_MAX
        && pager.Meta() == MetaContent(pager.pageSize, old(pager.txnId) + 1, newRoot, nextPageId)
        && pager.activeSlot == 1 - old(pager.activeSlot)
        && committed == view && since == |pager.file.trace| - 1
        && old(since) < |pager.file.trace|
        && AllSafe(pager.hash, pager.file.trace[old(since)..], old(pager.activeSlot), old(pager.Meta()), old(committed),
                   pager.Meta(), committed)
        && |pager.file.data| <= Larger(initialLen, 8192 + (pager.pageCount - 2) * pager.pageSize)
        && forall id | id in committed :: PlacedAt(pager.hash, pager.pageSize, pager.file.data, id, committed[id])
      ensures r.Err? ==>
        && r.error == ArithmeticOverflow && old(pager.txnId) == U64_MAX
        && Steady()
    {
      hide PlacedAt, WriteAt, EncodeMeta, Ordered, CacheOk, IdsIn, AllQuiet, AllSafe, Quiet, Stores, ViewOk, Extends, FileFits;
      FlushAllDirty();
      ghost var before, was, meta, slot := pager.file.trace, committed, pager.Meta(), pager.activeSlot;
      AllQuietLast(pager.hash, before[since..], slot, meta, was);
      assert pager.file.State() == before[since..][|before[since..]| - 1];
      ghost var flushed := pager.file.data;
      LengthBound(flushed, initialLen, pager.pageSize, nextPageId);
      StoresSome(pager.hash, pager.pageSize, flushed, was, view);
      DataLength(pager.file.State(), pager.hash, slot, meta, was);
      r := pager.Commit(newRoot, nextPageId, committed, view);
      CleanView(pager.hash, pager.pageSize, flushed, pager.file.data, entries, view);
      ghost var trace := pager.file.trace;
      assert trace[since..] == before[since..] + trace[|before|..];
      if r.Ok? {
        AllSafeJoin(pager.hash, before[since..], trace[|before|..], slot, meta, was, pager.Meta(), view);
        committed, since := view, |trace| - 1;
        AllPlaced(pager.hash, pager.pageSize, pager.file.data, committed, nextPageId);
        assert trace[since..] == [pager.file.State()];
        CommittedIds(view, nextPageId);
      }
      LengthBound(pager.file.data, initialLen, pager.pageSize, nextPageId);
      AllQuietOne(pager.hash, pager.file.State(), pager.activeSlot, pager.Meta(), committed);
      if r.Err? {
        AllQuietAppend(pager.hash, before[since..], pager.file.State(), slot, meta, was);
      }
    }
  }

  lemma QuietIds(h: Hash, s: DiskState, slot: nat, m: MetaContent, pages: Pages)
    requires Quiet(h, s, slot, m, pages)
    ensures IdsIn(pages, m.pageCount)
  {
    hide IdsIn;
  }

  lemma DataLength(s: DiskState, h: Hash, slot: nat, m: MetaContent, pages: Pages)
    requires Quiet(h, s, slot, m, pages)
    ensures |s.data| >= META_REGION_LEN
    ensures forall k: nat, bytes: Bytes | k < 2 && |bytes| == META_SLOT_LEN :: |WriteAt(s.data, SlotAt(k), bytes)| == |s.data|
  {
    hide Anchored, Stores, IdsIn;
  }

  lemma AllPlaced(h: Hash, ps: PageSize, data: Bytes, pages: Pages, bound: nat)
    requires Stores(h, ps, data, pages) && IdsIn(pages, bound)
    ensures forall id | id in pages :: PlacedAt(h, ps, data, id, pages[id])
  {
    hide Stored, PlacedAt;
    forall id | id in pages
      ensures PlacedAt(h, ps, data, id, pages[id])
    {
      StoredPlaced(h, ps, data, id, pages[id]);
    }
  }

  function Larger(a: int, b: int): int { if a >= b then a else b }

  /** An empty cache over a disk that holds every page. */
  lemma EmptyCache(h: Hash, ps: PageSize, data: Bytes, pages: Pages, capacity: nat)
    requires Stores(h, ps, data, pages)
    ensures ViewOk(h, ps, data, map[], {}, pages)
    ensures CacheOk(capacity, map[], []) && Ordered([], map[], 0)
  {
    hide VerifyChecksum, FileOffset;
    forall id | id in pages
      ensures |pages[id]| == ps
    {
      assert Stored(h, ps, data, id, pages[id]);
    }
  }

  lemma StoresSome(h: Hash, ps: PageSize, data: Bytes, some: Pages, all: Pages)
    requires Stores(h, ps, data, all) && Extends(some, all)
    ensures Stores(h, ps, data, some)
  {
    hide Stored;
  }

  /** With nothing dirty, the disk holds the whole view. */
  lemma CleanView(h: Hash, ps: PageSize, before: Bytes, data: Bytes, entries: map<nat, Bytes>, view: Pages)
    requires ViewOk(h, ps, before, entries, {}, view) && Stores(h, ps, data, view)
    ensures ViewOk(h, ps, data, entries, {}, view)
  {
    hide Stored, SameBody;
  }

  lemma CommittedIds(view: Pages, bound: nat)
    requires IdsIn(view, bound)
    ensures Extends(view, view)
  {
  }

  lemma AllQuietOne(h: Hash, s: DiskState, slot: nat, m: MetaContent, pages: Pages)
    requires Quiet(h, s, slot, m, pages)
    ensures AllQuiet(h, [s], slot, m, pages)
  {
    hide Quiet;
  }

  lemma AllSafeJoin(h: Hash, quiet: seq<DiskState>, states: seq<DiskState>, slot: nat, m: MetaContent, pages: Pages,
                    m': MetaContent, pages': Pages)
    requires AllQuiet(h, quiet, slot, m, pages) && AllSafe(h, states, slot, m, pages, m', pages')
    ensures AllSafe(h, quiet + states, slot, m, pages, m', pages')
  {
    hide Quiet, Switching;
  }

  lemma StampedIsCurrent(h: Hash, ps: PageSize, data: Bytes, entries: map<nat, Bytes>, dirty: set<nat>, view: Pages,
                         id: nat)
    requires ViewOk(h, ps, data, entries, dirty, view) && id in entries
    ensures |entries[id]| >= CHECKSUM_LEN
    ensures ViewOk(h, ps, data, entries[id := Stamped(h, entries[id])], dirty, view)
  {
    hide Stored;
    StampVerifies(h, entries[id]);
    if id in view {
      SameBodyChains(Stamped(h, entries[id]), entries[id], view[id]);
    }
    hide Stamped, SameBody;
  }

  lemma RefreshKeepsCache(capacity: nat, entries: map<nat, Bytes>, recency: seq<nat>, id: nat, buf: Bytes)
    requires CacheOk(capacity, entries, recency) && id in entries
    ensures CacheOk(capacity, entries[id := buf], recency)
    ensures entries[id := buf].Keys == entries.Keys
  {
    assert entries[id := buf].Keys == entries.Keys;
  }

  lemma CachedIsCurrent(h: Hash, ps: PageSize, data: Bytes, entries: map<nat, Bytes>, dirty: set<nat>, view: Pages,
                        id: nat)
    requires ViewOk(h, ps, data, entries, dirty, view) && id in entries
    ensures |entries[id]| == ps && (id in view ==> SameBody(entries[id], view[id]))
  {
  }

  lemma CleanIsOnDisk(h: Hash, ps: PageSize, data: Bytes, entries: map<nat, Bytes>, dirty: set<nat>, view: Pages,
                      id: nat)
    requires ViewOk(h, ps, data, entries, dirty, view)
    ensures id in view && id !in dirty ==>
      PageRead(h, ps, data, id).Ok? && SameBody(PageRead(h, ps, data, id).value, view[id])
  {
    assert id in view && id !in dirty ==> Stored(h, ps, data, id, view[id]);
  }

  lemma NotCached(capacity: nat, entries: map<nat, Bytes>, recency: seq<nat>, id: nat)
    requires CacheOk(capacity, entries, recency) && id !in entries
    ensures Uncached(entries, id) == entries && Without(recency, id) == recency
  {
    WithoutNothing(recency, id);
  }

  lemma DirtyStays(dirty: set<nat>, entries: map<nat, Bytes>, id: nat, loose: set<nat>)
    requires DirtyCached(dirty, entries, loose)
    ensures DirtyCached(dirty - {id}, Uncached(entries, id), loose)
  {
  }

  lemma DirtyForgotten(dirty: set<nat>, entries: map<nat, Bytes>, id: nat)
    requires DirtyCached(dirty, entries, {})
    ensures DirtyCached(dirty, Uncached(entries, id), {id}) && DirtyCached(dirty, entries, {id})
  {
  }

  lemma DirtyPushed(dirty: set<nat>, entries: map<nat, Bytes>, id: nat, buf: Bytes)
    requires DirtyCached(dirty, entries, {id})
    ensures DirtyCached(dirty + {id}, entries[id := buf], {}) && DirtyCached(dirty, entries[id := buf], {})
  {
  }

  lemma FreshPushed(dirty: set<nat>, view: Pages, pageCount: nat, id: nat, buf: Bytes)
    requires DirtyFresh(dirty, view, pageCount) && pageCount <= id
    ensures DirtyFresh(dirty + {id}, view[id := buf], pageCount)
  {
  }

  lemma CacheNotEmpty(capacity: nat, entries: map<nat, Bytes>, recency: seq<nat>)
    requires CacheOk(capacity, entries, recency) && |entries| > 0
    ensures |recency| > 0
  {
    assert |entries.Keys| > 0;
    var id :| id in entries.Keys;
    assert id in recency;
  }

  lemma RemoveKeepsCache(capacity: nat, entries: map<nat, Bytes>, recency: seq<nat>, use: map<nat, nat>, clock: nat,
                         id: nat)
    requires CacheOk(capacity, entries, recency) && Ordered(recency, use, clock) && id in entries
    ensures CacheOk(capacity, Uncached(entries, id), Without(recency, id))
    ensures Ordered(Without(recency, id), use, clock)
  {
    WithoutOrdered(recency, id, use, clock);
    assert (entries - {id}).Keys == entries.Keys - {id};
    assert |(entries - {id}).Keys| == |entries| - 1;
  }

  lemma InsertKeepsCache(capacity: nat, entries: map<nat, Bytes>, recency: seq<nat>, use: map<nat, nat>, clock: nat,
                         id: nat, buf: Bytes)
    requires CacheOk(capacity, entries, recency) && Ordered(recency, use, clock)
    requires id !in entries && |entries| < capacity
    ensures CacheOk(capacity, entries[id := buf], recency + [id])
    ensures Ordered(recency + [id], Used(use, id, clock), clock + 1)
  {
    WithoutNothing(recency, id);
    UseNow(recency, id, use, clock);
  }

  lemma PutKeepsView(h: Hash, ps: PageSize, data: Bytes, entries: map<nat, Bytes>, dirty: set<nat>, view: Pages,
                     id: nat, buf: Bytes)
    requires ViewOk(h, ps, data, entries, dirty, view) && |buf| == ps
    ensures ViewOk(h, ps, data, entries[id := buf], dirty + {id}, view[id := buf])
  {
    hide Stored;
  }

  lemma PutKeepsIds(view: Pages, committed: Pages, pageCount: nat, bound: nat, id: nat, buf: Bytes)
    requires IdsIn(view, bound) && Extends(committed, view) && FIRST_DATA_PAGE_ID <= pageCount <= id < bound
    requires IdsIn(committed, pageCount)
    ensures IdsIn(view[id := buf], bound) && Extends(committed, view[id := buf])
  {
  }

  lemma LoadKeepsView(h: Hash, ps: PageSize, data: Bytes, entries: map<nat, Bytes>, dirty: set<nat>, view: Pages,
                      id: nat, buf: Bytes)
    requires ViewOk(h, ps, data, entries, dirty, view) && |buf| == ps
    requires id in view ==> SameBody(buf, view[id])
    ensures ViewOk(h, ps, data, entries[id := buf], dirty, view)
  {
    hide Stored, SameBody;
  }

  lemma UncachedKeepsView(h: Hash, ps: PageSize, data: Bytes, entries: map<nat, Bytes>, dirty: set<nat>,
                          view: Pages, id: nat)
    requires ViewOk(h, ps, data, entries, dirty, view)
    ensures ViewOk(h, ps, data, Uncached(entries, id), dirty, view) && id !in Uncached(entries, id)
  {
    hide Stored, SameBody;
  }

  lemma AllQuietLast(h: Hash, states: seq<DiskState>, slot: nat, m: MetaContent, pages: Pages)
    requires |states| > 0 && AllQuiet(h, states, slot, m, pages)
    ensures Quiet(h, states[|states| - 1], slot, m, pages)
  {
  }

  lemma AllQuietAppend(h: Hash, states: seq<DiskState>, s: DiskState, slot: nat, m: MetaContent, pages: Pages)
    requires AllQuiet(h, states, slot, m, pages) && Quiet(h, s, slot, m, pages)
    ensures AllQuiet(h, states + [s], slot, m, pages)
  {
    hide Quiet;
  }

  lemma EvictKeepsCache(capacity: nat, entries: map<nat, Bytes>, recency: seq<nat>, use: map<nat, nat>, clock: nat)
    requires CacheOk(capacity, entries, recency) && Ordered(recency, use, clock) && |recency| > 0
    ensures recency[0] in entries
    ensures CacheOk(capacity, Uncached(entries, recency[0]), recency[1..])
    ensures Ordered(recency[1..], use, clock)
    ensures |Uncached(entries, recency[0])| == |entries| - 1
    ensures forall id | id in Uncached(entries, recency[0]) :: id in entries
    ensures LeastRecent(recency[0], entries, use)
  {
    var id := recency[0];
    assert id in recency;
    assert (entries - {id}).Keys == entries.Keys - {id};
    assert |(entries - {id}).Keys| == |entries| - 1;
    forall x | x in entries
      ensures x in use && use[id] <= use[x]
    {
      var i :| 0 <= i < |recency| && recency[i] == x;
    }
    forall x
      ensures x in recency[1..] <==> x in entries - {id}
    {
      if x in entries && x != id {
        var i :| 0 <= i < |recency| && recency[i] == x;
        assert recency[1..][i - 1] == x;
      }
      if x in recency[1..] {
        var i :| 0 <= i < |recency| - 1 && recency[1..][i] == x;
        assert recency[i + 1] == x && use[recency[0]] < use[recency[i + 1]];
      }
    }
  }
}
