/** Crash and reopen (`pager.rs`, `database.rs`): what each operation promises
    of every disk state it passes through, and what opening a file finds. */
module Recovery {
  import opened Errors
  import opened Codec
  import opened Page
  import opened PageModel
  import opened Disk
  import opened PagerModel
  import opened Pool
  import opened Tree

  // ------------------------------------------------------------------
  // The engine between two operations.
  // ------------------------------------------------------------------

  /** What the engine has committed, and the disk states it went through. */
  datatype Engine = Engine(hash: Hash, slot: nat, meta: MetaContent, committed: Pages, nextPageId: u32,
                           trace: seq<DiskState>, since: nat)

  ghost function Snap(pool: BufferPool): Engine
    reads pool, pool.pager, pool.pager.file
  {
    Engine(pool.pager.hash, pool.pager.activeSlot, pool.pager.Meta(), pool.committed, pool.nextPageId,
           pool.pager.file.trace, pool.since)
  }

  function Committed(e: Engine): PageMap {
    Decoded(e.meta.pageSize, e.committed)
  }

  /** The committed root is a tree. */
  ghost predicate Sane(e: Engine) {
    Sound(e.meta.pageSize, Committed(e), e.meta.root)
  }

  /** The committed rows, in key order. */
  ghost function StoredRows(e: Engine): seq<Entry>
    requires Sane(e)
  {
    Rows(e.meta.pageSize, Committed(e), e.meta.root)
  }

  predicate Settled(e: Engine) {
    && e.since < |e.trace| && e.slot < 2 && FIRST_DATA_PAGE_ID <= e.meta.pageCount
    && AllQuiet(e.hash, e.trace[e.since..], e.slot, e.meta, e.committed) && AllCoherent(e.trace)
  }

  lemma ValidSettles(pool: BufferPool)
    requires pool.Valid()
    ensures Settled(Snap(pool))
  {
    hide AllQuiet, ViewOk, CacheOk, Ordered, IdsIn, Extends, AllCoherent;
  }

  /** Nothing of `e`'s transaction was touched since the last sync. */
  ghost predicate QuietFor(e: Engine, s: DiskState) {
    Quiet(e.hash, s, e.slot, e.meta, e.committed)
  }

  lemma SettledNow(e: Engine, i: nat)
    requires Settled(e) && e.since <= i < |e.trace|
    ensures QuietFor(e, e.trace[i]) && Coherent(e.trace[i])
  {
    hide Quiet, Coherent;
    assert e.trace[i] == e.trace[e.since..][i - e.since];
  }

  // ------------------------------------------------------------------
  // What an image shows.
  // ------------------------------------------------------------------

  /** `open` takes the meta slot of `e`'s transaction in `img`, and every page of
      it is there. */
  ghost predicate Shows(e: Engine, img: Bytes) {
    OpenMeta(e.hash, img) == Ok((e.slot, e.meta)) && Finds(e.hash, img, e.slot, e.meta, e.committed)
  }

  /** A crash in `s` leaves `e`'s transaction or that of `e'`, intact. */
  ghost predicate CrashShows(s: DiskState, e: Engine, e': Engine) {
    forall img | CrashImage(e.hash, s, img) :: Shows(e, img) || Shows(e', img)
  }

  /** Quiet for one of the two, or the meta slot being written. */
  ghost predicate Passes(s: DiskState, e: Engine, e': Engine) {
    || QuietFor(e, s) || QuietFor(e', s)
    || (e.slot < 2 && e'.slot == 1 - e.slot
        && Switching(e.hash, s, e.slot, e.meta, e.committed, e'.meta, e'.committed))
  }

  lemma FindsShows(e: Engine, img: Bytes)
    requires Finds(e.hash, img, e.slot, e.meta, e.committed)
    ensures Shows(e, img)
  {
    hide Anchored, OpenMeta, Stores;
    AnchoredOpens(e.hash, img, e.slot, e.meta);
  }

  lemma QuietShows(e: Engine, s: DiskState)
    requires QuietFor(e, s)
    ensures CrashShows(s, e, e)
  {
    hide Quiet, CrashImage, Finds, Shows;
    forall img | CrashImage(e.hash, s, img)
      ensures Shows(e, img)
    {
      QuietRecovers(e.hash, s, e.slot, e.meta, e.committed, img);
      FindsShows(e, img);
    }
  }

  /** A state on the way from one commit to the next shows one or the other. */
  lemma StepShows(e: Engine, e': Engine, s: DiskState)
    requires e'.hash == e.hash && Passes(s, e, e')
    ensures CrashShows(s, e, e')
  {
    hide Quiet, Switching, CrashImage, Finds, Shows;
    forall img | CrashImage(e.hash, s, img)
      ensures Shows(e, img) || Shows(e', img)
    {
      if QuietFor(e, s) {
        QuietShows(e, s);
      } else if QuietFor(e', s) {
        QuietShows(e', s);
      } else {
        SwitchingRecovers(e.hash, s, e.slot, e.meta, e.committed, e'.meta, e'.committed, img);
        if Finds(e.hash, img, e.slot, e.meta, e.committed) {
          FindsShows(e, img);
        } else {
          FindsShows(e', img);
        }
      }
    }
  }

  // ------------------------------------------------------------------
  // Operations as steps of the engine.
  // ------------------------------------------------------------------

  /** States from `since` on lead from `before` to `after`, and a crash in them
      shows one or the other. */
  ghost predicate SafeFrom(trace: seq<DiskState>, since: nat, before: Engine, after: Engine) {
    forall i | since <= i < |trace| :: Passes(trace[i], before, after) && CrashShows(trace[i], before, after)
  }

  /** One operation took `e` to `e'`: a crash at any point of it shows the one
      transaction or the other, and once it has returned only the latter. */
  ghost predicate Moves(e: Engine, e': Engine) {
    && e'.hash == e.hash && e'.meta.pageSize == e.meta.pageSize
    && e.trace <= e'.trace && e.since <= e'.since && Settled(e')
    && SafeFrom(e'.trace, e.since, e, e')
    && SafeFrom(e'.trace, e'.since, e', e')
  }

  /** The operation took the committed rows to `after`. */
  ghost predicate Changes(e: Engine, e': Engine, after: seq<Entry>) {
    Moves(e, e') && Sane(e') && StoredRows(e') == after
  }

  /** No commit between the two. */
  ghost predicate SameCommit(e: Engine, e': Engine) {
    && e'.hash == e.hash && e'.slot == e.slot && e'.meta == e.meta && e'.committed == e.committed
    && e'.since == e.since && e.trace <= e'.trace
  }

  lemma SettledIsSafe(e: Engine)
    requires Settled(e)
    ensures SafeFrom(e.trace, e.since, e, e)
  {
    hide CrashShows, Quiet, Settled;
    forall i | e.since <= i < |e.trace|
      ensures Passes(e.trace[i], e, e) && CrashShows(e.trace[i], e, e)
    {
      SettledNow(e, i);
      QuietShows(e, e.trace[i]);
    }
  }

  lemma SameShows(e: Engine, e': Engine, s: DiskState)
    requires SameCommit(e, e') && Passes(s, e', e') && CrashShows(s, e', e')
    ensures Passes(s, e, e') && CrashShows(s, e, e')
  {
    hide CrashImage, OpenMeta, Finds, Quiet, Switching;
  }

  /** Nothing was committed: the transaction is what it was. */
  lemma NothingCommitted(e: Engine, e': Engine)
    requires Settled(e') && SameCommit(e, e')
    ensures Moves(e, e')
    ensures Sane(e) ==> Changes(e, e', StoredRows(e))
  {
    hide CrashShows, Passes, Settled, Sound, Rows, Decoded;
    SettledIsSafe(e');
    forall i | e.since <= i < |e'.trace|
      ensures Passes(e'.trace[i], e, e') && CrashShows(e'.trace[i], e, e')
    {
      SameShows(e, e', e'.trace[i]);
    }
  }

  lemma CommitMoves(e: Engine, e': Engine)
    requires Settled(e) && Settled(e') && e'.slot == 1 - e.slot
    requires e'.hash == e.hash && e'.meta.pageSize == e.meta.pageSize
    requires e.trace <= e'.trace && e.since <= e'.since
    requires AllSafe(e.hash, e'.trace[e.since..], e.slot, e.meta, e.committed, e'.meta, e'.committed)
    ensures Moves(e, e')
  {
    hide CrashShows, Quiet, Switching, AllQuiet, AllCoherent;
    SettledIsSafe(e');
    forall i | e.since <= i < |e'.trace|
      ensures Passes(e'.trace[i], e, e') && CrashShows(e'.trace[i], e, e')
    {
      assert e'.trace[i] == e'.trace[e.since..][i - e.since];
      StepShows(e, e', e'.trace[i]);
    }
  }

  // ------------------------------------------------------------------
  // Creating and opening.
  // ------------------------------------------------------------------

  /** `e'` starts where transaction `e` ended: same slot, content and pages, at
      the committed allocation frontier. */
  ghost predicate Resumes(e: Engine, e': Engine) {
    && e'.hash == e.hash && e'.slot == e.slot && e'.meta == e.meta && e'.committed == e.committed
    && e'.nextPageId == e.meta.pageCount && Settled(e')
  }

  /** `Database::create_with_capacity`: a tree without rows, already durable. */
  method CreateEngine(h: Hash, ps: PageSize, capacity: nat) returns (r: Result<BufferPool>)
    ensures capacity == 0 ==> r == Err(InvalidBufferPoolCapacity)
    ensures capacity > 0 ==>
      && r.Ok? && fresh(r.value) && fresh(r.value.pager) && fresh(r.value.pager.file) && r.value.Valid()
      && r.value.pager.hash == h && r.value.pager.pageSize == ps
      && Sane(Snap(r.value)) && StoredRows(Snap(r.value)) == [] && Settled(Snap(r.value))
      && r.value.pager.Meta() == MetaContent(ps, 0, EMPTY_TREE_ROOT, 2) && r.value.nextPageId == 2
      && |r.value.pager.file.data| == r.value.initialLen == 8192
  {
    hide Quiet, Decoded, BufferPool.Inv, Settled;
    var pager := new Pager.Create(h, ps);
    StoresNothing(h, ps, pager.file.data);
    r := BufferPool.New(pager, capacity, map[]);
    if r.Ok? {
      ValidSettles(r.value);
    }
  }

  lemma StoresNothing(h: Hash, ps: PageSize, data: Bytes)
    ensures Stores(h, ps, data, map[])
  {
  }

  /** The committed pages read from the file as they are stored. */
  lemma QuietStores(h: Hash, s: DiskState, slot: nat, m: MetaContent, pages: Pages)
    requires Quiet(h, s, slot, m, pages) && Coherent(s)
    ensures Stores(h, m.pageSize, s.data, pages)
    ensures OpenMeta(h, s.data) == Ok((slot, m)) && OpenMeta(h, s.durable) == Ok((slot, m))
  {
    hide Anchored, Stores, Slot, Coherent, OpenMeta, IdsIn;
    AnchoredLength(h, s.durable, slot, m);
    DataIsImage(h, s);
    QuietRecovers(h, s, slot, m, pages, s.data);
    AnchoredOpens(h, s.data, slot, m);
    AnchoredOpens(h, s.durable, slot, m);
  }

  /** What readers see is one of the images a crash may leave. */
  lemma DataIsImage(h: Hash, s: DiskState)
    requires Coherent(s) && |s.data| >= META_REGION_LEN && |s.durable| >= META_REGION_LEN
    ensures CrashImage(h, s, s.data)
  {
    hide SlotMeta;
  }

  /** `Database::open_with_capacity`. Whatever the file is, the slot choice or the
      reason there is none; and where the file is quiet for a transaction, synced
      or not, an engine that resumes exactly that transaction. */
  method OpenEngine(h: Hash, file: File, capacity: nat, ghost e: Engine) returns (r: Result<BufferPool>)
    requires file.Valid() && e.hash == h && e.slot < 2 && FIRST_DATA_PAGE_ID <= e.meta.pageCount
    ensures OpenAnswers(h, file.data, OpenMeta(h, file.data))
    ensures match OpenMeta(h, file.data)
            case Err(error) => r == Err(error)
            case Ok((slot, m)) =>
              if capacity == 0 then r == Err(InvalidBufferPoolCapacity)
              else
                && r.Ok? && fresh(r.value) && fresh(r.value.pager) && r.value.pager.file == file
                && r.value.pager.hash == h && r.value.pager.activeSlot == slot && r.value.pager.Meta() == m
                && r.value.nextPageId == m.pageCount && r.value.initialLen == |file.data|
                && (QuietFor(e, file.State()) ==> r.value.Valid() && Resumes(e, Snap(r.value)))
  {
    hide Quiet, BufferPool.Inv, Settled, Stores, OpenMeta, OpenAnswers, Coherent;
    OpenMetaAnswers(h, file.data);
    ghost var quiet := QuietFor(e, file.State());
    assert Coherent(file.trace[|file.trace| - 1]);
    if quiet {
      QuietStores(h, file.State(), e.slot, e.meta, e.committed);
    }
    var pager :- Pager.Open(h, file);
    r := BufferPool.New(pager, capacity, e.committed);
    if quiet && r.Ok? {
      ValidSettles(r.value);
    }
  }

  lemma ShownIsQuiet(e: Engine, img: Bytes)
    requires Shows(e, img) && Settled(e)
    ensures QuietFor(e, DiskState(img, img, {}))
  {
    SettledNow(e, e.since);
    QuietIds(e.hash, e.trace[e.since], e.slot, e.meta, e.committed);
    hide SlotMeta, Stores, IdsIn, AllQuiet, AllCoherent;
  }

  /** A power cut, then reopening: whichever of the two transactions the image
      shows, the engine resumes it. */
  method ReopenImage(img: Bytes, capacity: nat, ghost e: Engine, ghost e': Engine, h: Hash)
    returns (r: Result<BufferPool>)
    requires h == e.hash == e'.hash && Settled(e) && Settled(e') && (Shows(e, img) || Shows(e', img))
    ensures capacity == 0 ==> r == Err(InvalidBufferPoolCapacity)
    ensures capacity > 0 ==>
      && r.Ok? && fresh(r.value) && fresh(r.value.pager) && fresh(r.value.pager.file) && r.value.Valid()
      && (Resumes(e, Snap(r.value)) || Resumes(e', Snap(r.value)))
      && (!Shows(e, img) ==> Resumes(e', Snap(r.value)))
  {
    hide Quiet, BufferPool.Inv, OpenMeta, Finds, AllQuiet, AllCoherent;
    ghost var shown := if Shows(e, img) then e else e';
    ShownIsQuiet(shown, img);
    var file := new File.Found(img);
    r := OpenEngine(h, file, capacity, shown);
  }

  /** A process that died leaves the file as it was, unsynced writes and all. In
      every state an operation passes through, `open` then reads a transaction
      with all its pages, and `OpenEngine` resumes it if and only if what the
      meta slots say is durable: between the meta write and its sync the new
      transaction is read, and a power cut may still take it back. */
  lemma DeadProcess(e: Engine, e': Engine, s: DiskState)
    requires e'.hash == e.hash && Passes(s, e, e') && Coherent(s)
    ensures Shows(e, s.data) || Shows(e', s.data)
    ensures (QuietFor(e, s) && Shows(e, s.data)) || (QuietFor(e', s) && Shows(e', s.data))
       <==> OpenMeta(e.hash, s.durable) == OpenMeta(e.hash, s.data)
  {
    hide Quiet, Switching, CrashImage, Finds, OpenMeta, Coherent;
    if QuietFor(e, s) {
      QuietHere(e, s);
    } else if QuietFor(e', s) {
      QuietHere(e', s);
    } else {
      SwitchingOpens(e, e', s);
      DataIsImage(e.hash, s);
      StepShows(e, e', s);
      if QuietFor(e', s) {
        QuietHere(e', s);
      }
    }
  }

  lemma QuietHere(e: Engine, s: DiskState)
    requires QuietFor(e, s) && Coherent(s)
    ensures Shows(e, s.data) && OpenMeta(e.hash, s.durable) == OpenMeta(e.hash, s.data)
  {
    hide Quiet, CrashImage, Finds, OpenMeta, Coherent;
    QuietStores(e.hash, s, e.slot, e.meta, e.committed);
    QuietLength(e, s);
    DataIsImage(e.hash, s);
    QuietShows(e, s);
  }

  lemma QuietLength(e: Engine, s: DiskState)
    requires QuietFor(e, s)
    ensures |s.data| >= META_REGION_LEN && |s.durable| >= META_REGION_LEN
  {
    hide Stores, IdsIn, SlotMeta, Slot;
  }

  /** Between the meta write and its sync. */
  lemma SwitchingOpens(e: Engine, e': Engine, s: DiskState)
    requires e.slot < 2 && e'.slot == 1 - e.slot && e'.hash == e.hash
    requires Switching(e.hash, s, e.slot, e.meta, e.committed, e'.meta, e'.committed)
    ensures |s.data| >= META_REGION_LEN && |s.durable| >= META_REGION_LEN
    ensures OpenMeta(e.hash, s.data) == Ok((e'.slot, e'.meta))
    ensures OpenMeta(e.hash, s.durable) == Ok((e.slot, e.meta)) && e.meta != e'.meta
  {
    hide Stores, IdsIn, VerifyChecksum, DecodeMeta;
    SlotMetaFollows(e.hash, s.data, s.durable, e.slot);
    AnchoredOpens(e.hash, s.durable, e.slot, e.meta);
    hide Slot;
  }

  // ------------------------------------------------------------------
  // Rows of an image.
  // ------------------------------------------------------------------

  /** The data pages below `bound` that read back from `img`. */
  function ImagePages(h: Hash, ps: PageSize, bound: nat, img: Bytes): Pages {
    map id: nat | FIRST_DATA_PAGE_ID <= id < bound && PageRead(h, ps, img, id).Ok? :: PageRead(h, ps, img, id).value
  }

  /** The rows a reader of `img` alone would find. */
  ghost predicate HoldsRows(h: Hash, img: Bytes, rows: seq<Entry>) {
    OpenMeta(h, img).Ok? &&
    var m := OpenMeta(h, img).value.1;
    var p := Decoded(m.pageSize, ImagePages(h, m.pageSize, m.pageCount, img));
    Sound(m.pageSize, p, m.root) && Rows(m.pageSize, p, m.root) == rows
  }

  lemma StoredDecodes(h: Hash, ps: PageSize, img: Bytes, id: nat, buf: Bytes)
    requires Stored(h, ps, img, id, buf)
    ensures DecodePage(ps, PageRead(h, ps, img, id).value) == DecodePage(ps, buf)
  {
    hide DecodePage, PageRead;
    SameBodySamePage(ps, PageRead(h, ps, img, id).value, buf);
  }

  /** Pages found in an image are the pages of the tree, checksums aside. */
  lemma FoundPages(h: Hash, ps: PageSize, bound: nat, img: Bytes, pages: Pages)
    requires Stores(h, ps, img, pages) && IdsIn(pages, bound)
    ensures Extends(Decoded(ps, pages), Decoded(ps, ImagePages(h, ps, bound, img)))
  {
    hide DecodePage, PageRead;
    forall id | id in pages
      ensures id in ImagePages(h, ps, bound, img)
      ensures DecodePage(ps, ImagePages(h, ps, bound, img)[id]) == DecodePage(ps, pages[id])
    {
      assert Stored(h, ps, img, id, pages[id]);
      StoredDecodes(h, ps, img, id, pages[id]);
    }
  }

  /** An image that shows a transaction holds exactly its rows. */
  lemma ShownRows(e: Engine, img: Bytes)
    requires Shows(e, img) && Settled(e) && Sane(e)
    ensures HoldsRows(e.hash, img, StoredRows(e))
  {
    hide Sound, Rows, Decoded, IdsIn, ImagePages, OpenMeta, Quiet;
    SettledNow(e, e.since);
    QuietIds(e.hash, e.trace[e.since], e.slot, e.meta, e.committed);
    var ps := e.meta.pageSize;
    FoundPages(e.hash, ps, e.meta.pageCount, img, e.committed);
    RowsExtend(ps, Committed(e), Decoded(ps, ImagePages(e.hash, ps, e.meta.pageCount, img)), e.meta.root);
  }
}
