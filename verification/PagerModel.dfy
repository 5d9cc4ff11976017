/** The file and the pager (`pager.rs`). Every write and sync records the disk
    state it leads to, so that contracts can speak of a crash at any point. */
module PagerModel {
  import opened Errors
  import opened Codec
  import opened Page
  import opened Disk

  class File {
    var data: Bytes
    ghost var durable: Bytes
    ghost var unsynced: set<nat>
    ghost var trace: seq<DiskState>

    ghost function State(): DiskState
      reads this
    {
      DiskState(data, durable, unsynced)
    }

    ghost predicate Valid()
      reads this
    {
      |trace| > 0 && trace[|trace| - 1] == State() && AllCoherent(trace)
    }

    /** A new, empty file. */
    constructor Empty()
      ensures Valid() && State() == DiskState([], [], {})
    {
      data, durable, unsynced := [], [], {};
      trace := [DiskState([], [], {})];
      new;
      assert AllCoherent(trace);
    }

    /** The file a process finds after a crash left `img` behind. */
    constructor Found(img: Bytes)
      ensures Valid() && State() == DiskState(img, img, {})
    {
      data, durable, unsynced := img, img, {};
      trace := [DiskState(img, img, {})];
      new;
      assert AllCoherent(trace);
    }

    method WriteAllAt(bytes: Bytes, at: nat)
      modifies this
      ensures State() == DiskState(WriteAt(old(data), at, bytes), old(durable), old(unsynced) + Span(at, |bytes|))
      ensures trace == old(trace) + [State()]
      ensures old(Valid()) ==> Valid()
    {
      hide WriteAt;
      if Valid() {
        assert Coherent(trace[|trace| - 1]);
        WriteStaysCoherent(State(), at, bytes);
      }
      data := WriteAt(data, at, bytes);
      unsynced := unsynced + Span(at, |bytes|);
      trace := trace + [State()];
    }

    /** `set_len`, used to grow the file only. */
    method SetLen(len: nat)
      requires len >= |data|
      modifies this
      ensures State() == DiskState(old(data) + Zeros(len - |old(data)|), old(durable), old(unsynced))
      ensures trace == old(trace) + [State()]
      ensures old(Valid()) ==> Valid()
    {
      assert Valid() ==> Coherent(trace[|trace| - 1]);
      data := data + Zeros(len - |data|);
      trace := trace + [State()];
    }

    /** `sync_data` and `sync_all`. */
    method Sync()
      modifies this
      ensures State() == DiskState(old(data), old(data), {})
      ensures trace == old(trace) + [State()]
      ensures old(Valid()) ==> Valid()
    {
      durable, unsynced := data, {};
      trace := trace + [State()];
    }
  }

  /** One state passed through on the way from transaction `m` to `m'`. */
  predicate StepSafe(h: Hash, s: DiskState, slot: nat, m: MetaContent, pages: Pages, m': MetaContent, pages': Pages)
    requires slot < 2
  {
    || Quiet(h, s, slot, m, pages)
    || Switching(h, s, slot, m, pages, m', pages')
    || Quiet(h, s, 1 - slot, m', pages')
  }

  predicate AllSafe(h: Hash, states: seq<DiskState>, slot: nat, m: MetaContent, pages: Pages,
                    m': MetaContent, pages': Pages)
  {
    slot < 2 && forall i | 0 <= i < |states| :: StepSafe(h, states[i], slot, m, pages, m', pages')
  }

  lemma ThreeSteps(h: Hash, s1: DiskState, s2: DiskState, s3: DiskState, slot: nat, m: MetaContent, pages: Pages,
                   m': MetaContent, pages': Pages)
    requires slot < 2 && Quiet(h, s1, slot, m, pages)
    requires Switching(h, s2, slot, m, pages, m', pages') && Quiet(h, s3, 1 - slot, m', pages')
    ensures AllSafe(h, [s1, s2, s3], slot, m, pages, m', pages')
  {
    hide Quiet, Switching;
  }

  /** A new file: one slot written, the other a hole, all of it synced. */
  method CreateFile(h: Hash, content: MetaContent) returns (f: File)
    ensures fresh(f) && f.Valid()
    ensures var img := EncodeMeta(h, content) + Zeros(META_REGION_LEN - META_SLOT_LEN);
      f.State() == DiskState(img, img, {})
  {
    hide AllCoherent, EncodeMeta, WriteAt, Zeros;
    var slot := EncodeMetaSlot(h, content);
    f := new File.Empty();
    f.WriteAllAt(slot, 0);
    FirstWrite(slot);
    f.SetLen(META_REGION_LEN);
    f.Sync();
  }

  class Pager {
    const hash: Hash
    const file: File
    const pageSize: PageSize
    var activeSlot: nat
    var txnId: u64
    var rootPageId: u32
    var pageCount: u32

    ghost function Meta(): MetaContent
      reads this
    {
      MetaContent(pageSize, txnId, rootPageId, pageCount)
    }

    constructor Create(h: Hash, ps: PageSize)
      ensures fresh(file) && file.Valid()
      ensures hash == h && activeSlot == 0 && Meta() == MetaContent(ps, 0, EMPTY_TREE_ROOT, FIRST_DATA_PAGE_ID)
      ensures file.unsynced == {} && file.durable == file.data == EncodeMeta(h, Meta()) + Zeros(4096)
      ensures |file.data| == 8192
      ensures Quiet(hash, file.State(), activeSlot, Meta(), map[])
    {
      hide AllCoherent, EncodeMeta, Quiet, Zeros;
      var content := MetaContent(ps, 0, EMPTY_TREE_ROOT, FIRST_DATA_PAGE_ID);
      var f := CreateFile(h, content);
      hash, file, pageSize := h, f, ps;
      activeSlot, txnId, rootPageId, pageCount := 0, 0, EMPTY_TREE_ROOT, FIRST_DATA_PAGE_ID;
      new;
      FreshImageQuiet(h, content);
    }

    constructor Opened(h: Hash, f: File, slot: nat, m: MetaContent)
      ensures hash == h && file == f && activeSlot == slot && Meta() == m
    {
      hash, file, pageSize := h, f, m.pageSize;
      activeSlot, txnId, rootPageId, pageCount := slot, m.txnId, m.root, m.pageCount;
    }

    static method Open(h: Hash, file: File) returns (r: Result<Pager>)
      ensures OpenAnswers(h, file.data,
                          if r.Ok? then Ok((r.value.activeSlot, r.value.Meta())) else Err(r.error))
      ensures match OpenMeta(h, file.data)
              case Err(e) => r == Err(e)
              case Ok((slot, m)) =>
                && r.Ok? && fresh(r.value)
                && r.value.hash == h && r.value.file == file
                && r.value.activeSlot == slot && r.value.Meta() == m
    {
      OpenMetaAnswers(h, file.data);
      hide OpenAnswers;
      if |file.data| < META_REGION_LEN {
        return Err(FileTooSmall);
      }
      var slotA := file.data[0..META_SLOT_LEN];
      var slotB := file.data[META_SLOT_LEN..2 * META_SLOT_LEN];
      var validA := if VerifyChecksum(h, slotA) then DecodeMeta(slotA) else None;
      var validB := if VerifyChecksum(h, slotB) then DecodeMeta(slotB) else None;
      assert slotA == Slot(file.data, 0) && slotB == Slot(file.data, 1);
      hide VerifyChecksum, DecodeMeta;
      if validA.None? && validB.None? {
        return Err(NoValidMetaPage);
      }
      var slot, m :=
        (if validA.None? || (validB.Some? && validB.value.txnId > validA.value.txnId) then 1 else 0),
        (if validA.None? || (validB.Some? && validB.value.txnId > validA.value.txnId) then validB.value else validA.value);
      var p := new Pager.Opened(h, file, slot, m);
      return Ok(p);
    }

    method ReadDataPage(id: nat) returns (r: Result<Bytes>)
      ensures ReadAnswers(hash, pageSize, file.data, id, r) && r == PageRead(hash, pageSize, file.data, id)
    {
      PageReadAnswers(hash, pageSize, file.data, id);
      hide ReadAnswers, VerifyChecksum;
      var at := FileOffset(pageSize, id);
      if at + pageSize > |file.data| {
        return Err(Io);
      }
      var buf := file.data[at..at + pageSize];
      if !VerifyChecksum(hash, buf) {
        return Err(Corruption);
      }
      return Ok(buf);
    }

    /** Stamp and write one page; the stamped buffer is what the caller keeps. */
    method WriteDataPage(id: nat, page: Bytes) returns (stamped: Bytes)
      requires |page| == pageSize
      modifies file
      ensures stamped == Stamped(hash, page)
      ensures file.State() == DiskState(WriteAt(old(file.data), FileOffset(pageSize, id), stamped), old(file.durable),
                                        old(file.unsynced) + Span(FileOffset(pageSize, id), pageSize))
      ensures file.trace == old(file.trace) + [file.State()]
      ensures old(file.Valid()) ==> file.Valid()
    {
      var buf := NewCopy(page);
      var _ := StampChecksum(hash, buf);
      stamped := buf[..];
      file.WriteAllAt(stamped, FileOffset(pageSize, id));
    }

    /** Write `content` to the inactive slot and sync: the disk switches from
        the committed transaction to the new one. */
    method SwitchSlot(content: MetaContent, ghost pages: Pages, ghost pages': Pages) returns (ghost written: DiskState)
      requires activeSlot < 2 && Quiet(hash, file.State(), activeSlot, Meta(), pages)
      requires file.data == file.durable && file.unsynced == {}
      requires content.txnId == txnId + 1 && content.pageSize == pageSize && IdsIn(pages', content.pageCount)
      requires Stores(hash, pageSize, file.data, pages')
      modifies file
      ensures old(file.Valid()) ==> file.Valid()
      ensures file.trace == old(file.trace) + [written] + [file.State()]
      ensures file.data == WriteAt(old(file.data), SlotAt(1 - activeSlot), EncodeMeta(hash, content))
      ensures Switching(hash, written, activeSlot, Meta(), pages, content, pages')
      ensures Quiet(hash, file.State(), 1 - activeSlot, content, pages') && Stores(hash, pageSize, file.data, pages')
    {
      hide Quiet, Switching, Stores, EncodeMeta, WriteAt, IdsIn, AllCoherent, Span;
      ghost var m, s1 := Meta(), file.State();
      var targetSlot := 1 - activeSlot;
      var slotBuf := EncodeMetaSlot(hash, content);
      file.WriteAllAt(slotBuf, SlotAt(targetSlot));
      written := file.State();
      MetaWriteSwitches(hash, s1, activeSlot, m, pages, content, pages', written.data);
      assert {} + Span(SlotAt(targetSlot), META_SLOT_LEN) == Span(SlotAt(targetSlot), META_SLOT_LEN);
      SwitchCompletes(hash, written, activeSlot, m, pages, content, pages');
      file.Sync();
    }

    /** Commit: sync, write the inactive slot, sync, flip. `pages` are the
        committed pages, `pages'` those of the new transaction. */
    method Commit(newRoot: u32, newPageCount: u32, ghost pages: Pages, ghost pages': Pages) returns (r: Result<Unit>)
      requires file.Valid() && activeSlot < 2
      requires Quiet(hash, file.State(), activeSlot, Meta(), pages)
      requires Stores(hash, pageSize, file.data, pages) && Stores(hash, pageSize, file.data, pages')
      requires IdsIn(pages', newPageCount)
      modifies this, file
      ensures file.Valid() && activeSlot < 2
      ensures |old(file.trace)| < |file.trace| && file.trace[..|old(file.trace)|] == old(file.trace)
      ensures r.Ok? ==>
        && old(txnId) < U64_MAX
        && activeSlot == 1 - old(activeSlot)
        && file.data == WriteAt(old(file.data), SlotAt(activeSlot), EncodeMeta(hash, Meta()))
        && Meta() == MetaContent(pageSize, old(txnId) + 1, newRoot, newPageCount)
        && Quiet(hash, file.State(), activeSlot, Meta(), pages')
        && Stores(hash, pageSize, file.data, pages')
        && AllSafe(hash, file.trace[|old(file.trace)|..], old(activeSlot), old(Meta()), pages, Meta(), pages')
      ensures r.Err? ==>
        && r.error == ArithmeticOverflow && old(txnId) == U64_MAX
        && unchanged(this) && file.data == old(file.data)
        && Quiet(hash, file.State(), activeSlot, Meta(), pages)
        && file.trace == old(file.trace) + [file.State()]
    {
      hide Quiet, Switching, Stores, IdsIn, AllSafe, AllCoherent, WriteAt, EncodeMeta;
      ghost var m, slot, before := Meta(), activeSlot, file.trace;
      assert before == old(file.trace);
      SyncStaysQuiet(hash, file.State(), slot, m, pages);
      file.Sync();
      if txnId == U64_MAX {
        return Err(ArithmeticOverflow);
      }
      ghost var s1 := file.State();
      var content := MetaContent(pageSize, txnId + 1, newRoot, newPageCount);
      ghost var written := SwitchSlot(content, pages, pages');
      ThreeSteps(hash, s1, written, file.State(), slot, m, pages, content, pages');
      LastThree(before, s1, written, file.State());
      activeSlot := 1 - activeSlot;
      txnId := txnId + 1;
      rootPageId := newRoot;
      pageCount := newPageCount;
      return Ok(Done);
    }
  }

  lemma LastThree(before: seq<DiskState>, s1: DiskState, s2: DiskState, s3: DiskState)
    ensures var trace := before + [s1] + [s2] + [s3];
      |before| < |trace| && trace[|before|..] == [s1, s2, s3] && trace[..|before|] == before
  {
  }

  lemma FirstWrite(bytes: Bytes)
    ensures WriteAt([], 0, bytes) == bytes
  {
  }

  /** Zeros are no meta slot, whatever the hash says of them. */
  lemma ZeroSlot(buf: Bytes)
    requires |buf| == META_SLOT_LEN && buf[0] == 0
    ensures DecodeMeta(buf) == None
  {
    hide U32, U64;
    assert buf[0..4][0] == 0;
  }

  lemma FreshSlots(h: Hash, first: Bytes, img: Bytes)
    requires |first| == META_SLOT_LEN && img == first + Zeros(META_REGION_LEN - META_SLOT_LEN)
    ensures |img| == META_REGION_LEN && Slot(img, 0) == first
    ensures |Slot(img, 1)| == META_SLOT_LEN && Slot(img, 1)[0] == 0
  {
  }

  lemma FreshImageQuiet(h: Hash, c: MetaContent)
    requires c.txnId == 0 && c.pageCount == FIRST_DATA_PAGE_ID
    ensures var img := EncodeMeta(h, c) + Zeros(META_REGION_LEN - META_SLOT_LEN);
      Quiet(h, DiskState(img, img, {}), 0, c, map[])
  {
    hide EncodeMeta, VerifyChecksum, DecodeMeta, Zeros, Slot, Stored;
    var img := EncodeMeta(h, c) + Zeros(META_REGION_LEN - META_SLOT_LEN);
    FreshSlots(h, EncodeMeta(h, c), img);
    MetaRoundTrip(h, c);
    ZeroSlot(Slot(img, 1));
  }

  lemma SyncStaysQuiet(h: Hash, s: DiskState, slot: nat, m: MetaContent, pages: Pages)
    requires Quiet(h, s, slot, m, pages) && Stores(h, m.pageSize, s.data, pages)
    ensures Quiet(h, DiskState(s.data, s.data, {}), slot, m, pages)
  {
    SlotMetaFollows(h, s.data, s.durable, 0);
    SlotMetaFollows(h, s.data, s.durable, 1);
    hide Slot, SlotMeta, Stores, IdsIn;
  }

  lemma SlotMetaFollows(h: Hash, a: Bytes, b: Bytes, k: nat)
    requires |a| >= META_REGION_LEN && |b| >= META_REGION_LEN && k < 2 && Slot(a, k) == Slot(b, k)
    ensures SlotMeta(h, a, k) == SlotMeta(h, b, k)
  {
  }

  /** Writing one slot: it says `m'`, the other says what it said. */
  lemma MetaWriteSlots(h: Hash, base: Bytes, slot: nat, m': MetaContent, data: Bytes)
    requires |base| >= META_REGION_LEN && slot < 2
    requires data == WriteAt(base, SlotAt(1 - slot), EncodeMeta(h, m'))
    ensures |data| == |base|
    ensures SlotMeta(h, data, 1 - slot) == Some(m')
    ensures Slot(data, slot) == Slot(base, slot) && SlotMeta(h, data, slot) == SlotMeta(h, base, slot)
  {
    hide WriteAt, EncodeMeta, VerifyChecksum, DecodeMeta;
    MetaRoundTrip(h, m');
    WriteAtReadsBack(base, SlotAt(1 - slot), EncodeMeta(h, m'));
    WriteAtElsewhere(base, SlotAt(1 - slot), EncodeMeta(h, m'), SlotAt(slot), SlotAt(slot) + META_SLOT_LEN);
    assert Slot(data, 1 - slot) == EncodeMeta(h, m');
  }

  lemma MetaWriteSwitches(h: Hash, s: DiskState, slot: nat, m: MetaContent, pages: Pages,
                          m': MetaContent, pages': Pages, data: Bytes)
    requires Quiet(h, s, slot, m, pages) && s.data == s.durable && s.unsynced == {}
    requires m'.txnId == m.txnId + 1 && m'.pageSize == m.pageSize
    requires IdsIn(pages', m'.pageCount) && Stores(h, m.pageSize, s.data, pages')
    requires data == WriteAt(s.data, SlotAt(1 - slot), EncodeMeta(h, m'))
    ensures Switching(h, DiskState(data, s.durable, Span(SlotAt(1 - slot), META_SLOT_LEN)), slot, m, pages, m', pages')
  {
    hide WriteAt, EncodeMeta, Slot, SlotMeta, Stores, IdsIn, FileOffset;
    MetaWriteSlots(h, s.data, slot, m', data);
  }

  lemma SwitchCompletes(h: Hash, s: DiskState, slot: nat, m: MetaContent, pages: Pages,
                        m': MetaContent, pages': Pages)
    requires Switching(h, s, slot, m, pages, m', pages')
    requires s.data == WriteAt(s.durable, SlotAt(1 - slot), EncodeMeta(h, m'))
    ensures Quiet(h, DiskState(s.data, s.data, {}), 1 - slot, m', pages')
    ensures Stores(h, m.pageSize, s.data, pages')
  {
    hide WriteAt, EncodeMeta, Slot, SlotMeta, Stores, IdsIn, FileOffset;
    MetaWriteSlots(h, s.durable, slot, m', s.data);
    MetaWriteKeepsPages(h, m.pageSize, s.durable, SlotAt(1 - slot), EncodeMeta(h, m'), pages');
  }

  /** Writing inside the meta region leaves every data page as it was. */
  lemma MetaWriteKeepsPages(h: Hash, ps: PageSize, data: Bytes, at: nat, bytes: Bytes, pages: Pages)
    requires at + |bytes| <= META_REGION_LEN && Stores(h, ps, data, pages)
    ensures Stores(h, ps, WriteAt(data, at, bytes), pages)
  {
    hide VerifyChecksum, SameBody;
    forall id | id in pages
      ensures Stored(h, ps, WriteAt(data, at, bytes), id, pages[id])
    {
      assert Stored(h, ps, data, id, pages[id]);
      var from := FileOffset(ps, id);
      WriteAtElsewhere(data, at, bytes, from, from + ps);
      hide WriteAt;
    }
  }
}
