/** The database file as a volatile and a durable byte image, the two meta
    slots, and what a crash may leave behind (`pager.rs`). */
module Disk {
  import opened Errors
  import opened Codec
  import opened Page

  // ------------------------------------------------------------------
  // File images.
  // ------------------------------------------------------------------

  /** A positioned write: past the end of the file the gap reads as zeros. */
  function WriteAt(data: Bytes, at: nat, bytes: Bytes): (r: Bytes)
    ensures |r| == if at + |bytes| > |data| then at + |bytes| else |data|
  {
    var base := if at > |data| then data + Zeros(at - |data|) else data;
    base[..at] + bytes + (if at + |bytes| < |base| then base[at + |bytes|..] else [])
  }

  lemma WriteAtReadsBack(data: Bytes, at: nat, bytes: Bytes)
    ensures WriteAt(data, at, bytes)[at..at + |bytes|] == bytes
  {
  }

  lemma WriteAtByte(data: Bytes, at: nat, bytes: Bytes, p: nat)
    requires p < |data| && (p < at || at + |bytes| <= p)
    ensures WriteAt(data, at, bytes)[p] == data[p]
  {
  }

  lemma WriteAtElsewhere(data: Bytes, at: nat, bytes: Bytes, from: nat, to: nat)
    requires from <= to <= |data| && (to <= at || at + |bytes| <= from)
    ensures WriteAt(data, at, bytes)[from..to] == data[from..to]
  {
    hide WriteAt;
    var r := WriteAt(data, at, bytes);
    forall p | from <= p < to
      ensures r[p] == data[p]
    {
      WriteAtByte(data, at, bytes, p);
    }
  }

  /** What the file holds for readers, what would survive a power cut, and the
      positions written since the last sync. */
  datatype DiskState = DiskState(data: Bytes, durable: Bytes, unsynced: set<nat>)

  /** Synced bytes read as they are stored. */
  predicate Coherent(s: DiskState) {
    && |s.durable| <= |s.data|
    && forall p | 0 <= p < |s.durable| && p !in s.unsynced :: s.data[p] == s.durable[p]
  }

  predicate AllCoherent(trace: seq<DiskState>) {
    forall i | 0 <= i < |trace| :: Coherent(trace[i])
  }

  lemma WriteStaysCoherent(s: DiskState, at: nat, bytes: Bytes)
    requires Coherent(s)
    ensures Coherent(DiskState(WriteAt(s.data, at, bytes), s.durable, s.unsynced + Span(at, |bytes|)))
  {
  }

  // ------------------------------------------------------------------
  // Data pages.
  // ------------------------------------------------------------------

  /** `Pager::file_offset`. */
  function FileOffset(ps: PageSize, id: nat): nat {
    META_REGION_LEN + (if id >= FIRST_DATA_PAGE_ID then id - FIRST_DATA_PAGE_ID else 0) * ps
  }

  /** Page 2 follows the meta region, and every page the one before it. */
  lemma FileOffsets(ps: PageSize, id: nat)
    requires id >= FIRST_DATA_PAGE_ID
    ensures FileOffset(ps, FIRST_DATA_PAGE_ID) == 8192
    ensures FileOffset(ps, id + 1) == FileOffset(ps, id) + ps
    ensures FileOffset(ps, id) == 8192 + (id - 2) * ps
  {
    assert (id + 1 - 2) * ps == (id - 2) * ps + ps;
  }

  lemma PagesApart(ps: PageSize, id: nat, id': nat)
    requires FIRST_DATA_PAGE_ID <= id < id'
    ensures FileOffset(ps, id) + ps <= FileOffset(ps, id')
  {
    assert (id' - 2) * ps == (id - 2) * ps + (id' - id) * ps;
    assert (id' - id) * ps >= ps;
  }

  /** `read_data_page`: a short read is an I/O error. */
  function PageRead(h: Hash, ps: PageSize, data: Bytes, id: nat): (r: Result<Bytes>)
    ensures r.Ok? ==> |r.value| == ps
  {
    var at := FileOffset(ps, id);
    if at + ps > |data| then Err(Io)
    else if VerifyChecksum(h, data[at..at + ps]) then Ok(data[at..at + ps])
    else Err(Corruption)
  }

  /** What reading data page `id` must answer: the page's bytes if they are there
      and sealed, and why not otherwise. */
  predicate ReadAnswers(h: Hash, ps: PageSize, data: Bytes, id: nat, r: Result<Bytes>) {
    var at := 8192 + (if id <= 2 then 0 else (id - 2) * ps);
    if at + ps > |data| then r == Err(Io)
    else if Sealed(h, data[at..at + ps]) then r == Ok(data[at..at + ps])
    else r == Err(Corruption)
  }

  lemma PageReadAnswers(h: Hash, ps: PageSize, data: Bytes, id: nat)
    ensures ReadAnswers(h, ps, data, id, PageRead(h, ps, data, id))
  {
    hide VerifyChecksum, Sealed;
    if id >= 2 {
      FileOffsets(ps, id);
    }
    var at := FileOffset(ps, id);
    if at + ps <= |data| {
      VerifiesIff(h, data[at..at + ps]);
    }
  }

  /** `page`, checksum aside, is sealed in its own place in the file. */
  predicate PlacedAt(h: Hash, ps: PageSize, data: Bytes, id: nat, page: Bytes) {
    && id >= 2 && 8192 + (id - 2) * ps + ps <= |data|
    && var at := 8192 + (id - 2) * ps;
       Sealed(h, data[at..at + ps]) && SameBody(data[at..at + ps], page)
  }

  lemma StoredPlaced(h: Hash, ps: PageSize, data: Bytes, id: nat, page: Bytes)
    requires Stored(h, ps, data, id, page) && id >= FIRST_DATA_PAGE_ID
    ensures PlacedAt(h, ps, data, id, page)
  {
    hide VerifyChecksum, Sealed, SameBody;
    FileOffsets(ps, id);
    var at := FileOffset(ps, id);
    VerifiesIff(h, data[at..at + ps]);
  }

  /** The page stored for `id` reads back as `buf`, but for the checksum. */
  predicate Stored(h: Hash, ps: PageSize, data: Bytes, id: nat, buf: Bytes) {
    PageRead(h, ps, data, id).Ok? && SameBody(PageRead(h, ps, data, id).value, buf)
  }

  lemma PageWriteReadsBack(h: Hash, ps: PageSize, data: Bytes, id: nat, buf: Bytes)
    requires |buf| == ps
    ensures Stored(h, ps, WriteAt(data, FileOffset(ps, id), Stamped(h, buf)), id, buf)
  {
    WriteAtReadsBack(data, FileOffset(ps, id), Stamped(h, buf));
    StampVerifies(h, buf);
  }

  /** Writing one page leaves every other page as it was. */
  lemma PageWriteElsewhere(h: Hash, ps: PageSize, data: Bytes, id: nat, bytes: Bytes, other: nat)
    requires |bytes| == ps && id >= FIRST_DATA_PAGE_ID && other >= FIRST_DATA_PAGE_ID && other != id
    requires PageRead(h, ps, data, other).Ok?
    ensures PageRead(h, ps, WriteAt(data, FileOffset(ps, id), bytes), other) == PageRead(h, ps, data, other)
  {
    if id < other {
      PagesApart(ps, id, other);
    } else {
      PagesApart(ps, other, id);
    }
    var at := FileOffset(ps, other);
    WriteAtElsewhere(data, FileOffset(ps, id), bytes, at, at + ps);
  }

  // ------------------------------------------------------------------
  // Meta slots.
  // ------------------------------------------------------------------

  datatype MetaContent = MetaContent(pageSize: PageSize, txnId: u64, root: u32, pageCount: u32)

  const META_MAGIC: Bytes := [0x50, 0x4E, 0x58, 0x31]
  const META_FORMAT_VERSION: nat := 1
  const META_USED: nat := 30

  function MetaHead(c: MetaContent): (b: Bytes)
    ensures |b| == META_USED
  {
    META_MAGIC + U16Bytes(META_FORMAT_VERSION) + ToBE(c.pageSize, 4) + ToBE(c.txnId, 8)
      + ToBE(c.root, 4) + ToBE(c.pageCount, 4) + ToBE(0, 4)
  }

  function EncodeMeta(h: Hash, c: MetaContent): (b: Bytes)
    ensures |b| == META_SLOT_LEN
  {
    Stamped(h, MetaHead(c) + Zeros(META_SLOT_LEN - META_USED))
  }

  /** `decode_meta_slot`: the version and the freelist field are not looked at. */
  function DecodeMeta(buf: Bytes): Option<MetaContent> {
    if |buf| < 26 || buf[0..4] != META_MAGIC then None
    else
      var ps := PageSizeTryFrom(U32(buf, 6));
      if ps.Err? then None
      else Some(MetaContent(ps.value, U64(buf, 10), U32(buf, 18), U32(buf, 22)))
  }

  /** A slot decodes to `c` if and only if these are its bytes; the version, the
      freelist field and the rest are not looked at. */
  lemma DecodesMetaIff(buf: Bytes, c: MetaContent)
    requires |buf| >= 26
    ensures DecodeMeta(buf) == Some(c) <==>
      && buf[0..4] == [0x50, 0x4E, 0x58, 0x31]
      && buf[6..10] == ToBE(c.pageSize, 4) && buf[10..18] == ToBE(c.txnId, 8)
      && buf[18..22] == ToBE(c.root, 4) && buf[22..26] == ToBE(c.pageCount, 4)
  {
    hide ToBE, FromBE, U32, U64, IsPowerOfTwo;
    MetaNumbers(buf, c);
    PageSizeAccepts(U32(buf, 6));
  }

  lemma MetaNumbers(buf: Bytes, c: MetaContent)
    requires |buf| >= 26
    ensures U32(buf, 6) == c.pageSize <==> buf[6..10] == ToBE(c.pageSize, 4)
    ensures U64(buf, 10) == c.txnId <==> buf[10..18] == ToBE(c.txnId, 8)
    ensures U32(buf, 18) == c.root <==> buf[18..22] == ToBE(c.root, 4)
    ensures U32(buf, 22) == c.pageCount <==> buf[22..26] == ToBE(c.pageCount, 4)
  {
    hide ToBE, FromBE;
    FourBytes(buf, 6, c.pageSize);
    EightBytes(buf, 10, c.txnId);
    FourBytes(buf, 18, c.root);
    FourBytes(buf, 22, c.pageCount);
  }

  lemma FourBytes(buf: Bytes, at: nat, v: u32)
    requires at + 4 <= |buf|
    ensures U32(buf, at) == v <==> buf[at..at + 4] == ToBE(v, 4)
  {
    hide ToBE, FromBE, U32;
    U32Reads(buf, at);
    if buf[at..at + 4] == ToBE(v, 4) {
      NumberAt(buf, at, ToBE(v, 4));
      U32RoundTrip(v);
    }
  }

  lemma EightBytes(buf: Bytes, at: nat, v: u64)
    requires at + 8 <= |buf|
    ensures U64(buf, at) == v <==> buf[at..at + 8] == ToBE(v, 8)
  {
    hide ToBE, FromBE, U64;
    U64Reads(buf, at);
    if buf[at..at + 8] == ToBE(v, 8) {
      NumberAt(buf, at, ToBE(v, 8));
      U64RoundTrip(v);
    }
  }

  lemma FieldWrite(written: Bytes, field: Bytes, size: nat)
    requires |written| + |field| <= size
    ensures Splice(written + Zeros(size - |written|), |written|, field)
         == written + field + Zeros(size - |written| - |field|)
  {
  }

  /** `s` starts with `written`, the rest is still zero. */
  predicate Filled(s: Bytes, written: Bytes) {
    |written| <= |s| && s == written + Zeros(|s| - |written|)
  }

  /** One header field of the slot, right after the bytes `written` so far. */
  method WriteField(buf: array<byte>, at: nat, field: Bytes, ghost written: Bytes)
    requires at == |written| && at + |field| <= buf.Length && Filled(buf[..], written)
    modifies buf
    ensures Filled(buf[..], written + field)
  {
    FieldWrite(written, field, buf.Length);
    var _ := WriteBytes(buf, at, field);
  }

  /** The fields, one after the other. */
  method WriteHead(buf: array<byte>, c: MetaContent)
    requires buf.Length == META_SLOT_LEN && buf[..] == Zeros(META_SLOT_LEN)
    modifies buf
    ensures Filled(buf[..], MetaHead(c))
  {
    hide ToBE, Splice, Zeros, U16Bytes, Filled;
    var version, size, txn := U16Bytes(META_FORMAT_VERSION), ToBE(c.pageSize, 4), ToBE(c.txnId, 8);
    var root, count, freelist := ToBE(c.root, 4), ToBE(c.pageCount, 4), ToBE(0, 4);
    ZeroFilled(buf[..]);
    WriteField(buf, 0, META_MAGIC, []);
    assert [] + META_MAGIC == META_MAGIC;
    WriteField(buf, 4, version, META_MAGIC);
    WriteField(buf, 6, size, META_MAGIC + version);
    WriteField(buf, 10, txn, META_MAGIC + version + size);
    WriteField(buf, 18, root, META_MAGIC + version + size + txn);
    WriteField(buf, 22, count, META_MAGIC + version + size + txn + root);
    WriteField(buf, 26, freelist, META_MAGIC + version + size + txn + root + count);
  }

  lemma ZeroFilled(s: Bytes)
    requires s == Zeros(|s|)
    ensures Filled(s, [])
  {
  }

  method EncodeMetaSlot(h: Hash, c: MetaContent) returns (r: Bytes)
    ensures r == EncodeMeta(h, c)
  {
    hide Stamped, MetaHead;
    var buf := NewZeros(META_SLOT_LEN);
    WriteHead(buf, c);
    var _ := StampChecksum(h, buf);
    return buf[..];
  }

  /** A slot reads back as the content it was written from. */
  lemma MetaRoundTrip(h: Hash, c: MetaContent)
    ensures VerifyChecksum(h, EncodeMeta(h, c))
    ensures DecodeMeta(EncodeMeta(h, c)) == Some(c)
  {
    hide ToBE, FromBE, Splice, Stamped, Zeros;
    var plain := MetaHead(c) + Zeros(META_SLOT_LEN - META_USED);
    var b := EncodeMeta(h, c);
    StampVerifies(h, plain);
    forall from, to | 0 <= from <= to <= META_USED
      ensures b[from..to] == MetaHead(c)[from..to]
    {
      SliceOfSlice(b, 0, META_SLOT_LEN - CHECKSUM_LEN, from, to);
      SliceOfSlice(plain, 0, META_SLOT_LEN - CHECKSUM_LEN, from, to);
      assert plain[from..to] == MetaHead(c)[from..to];
    }
    MetaFields(c);
    PageSizeAccepts(c.pageSize);
    U32RoundTrip(c.pageSize);
    U64RoundTrip(c.txnId);
    U32RoundTrip(c.root);
    U32RoundTrip(c.pageCount);
    NumberAt(b, 6, ToBE(c.pageSize, 4));
    NumberAt(b, 10, ToBE(c.txnId, 8));
    NumberAt(b, 18, ToBE(c.root, 4));
    NumberAt(b, 22, ToBE(c.pageCount, 4));
  }

  /** Besides what is read back: version 1, and zeros up to the trailer. */
  lemma MetaFormat(h: Hash, c: MetaContent)
    ensures Sealed(h, EncodeMeta(h, c)) && EncodeMeta(h, c)[4..6] == [0, 1]
    ensures forall p | 26 <= p < 4088 :: EncodeMeta(h, c)[p] == 0
  {
    hide ToBE, Sealed, VerifyChecksum, DecodeMeta, Stamped;
    MetaRoundTrip(h, c);
    VerifiesIff(h, EncodeMeta(h, c));
    var plain := MetaHead(c) + Zeros(META_SLOT_LEN - META_USED);
    StampVerifies(h, plain);
    BEZero(4);
    forall p | 0 <= p < 4088
      ensures EncodeMeta(h, c)[p] == plain[p]
    {
      assert EncodeMeta(h, c)[..4088][p] == plain[..4088][p];
    }
  }

  lemma MetaFields(c: MetaContent)
    ensures var b := MetaHead(c);
      && b[0..4] == META_MAGIC && b[6..10] == ToBE(c.pageSize, 4) && b[10..18] == ToBE(c.txnId, 8)
      && b[18..22] == ToBE(c.root, 4) && b[22..26] == ToBE(c.pageCount, 4)
  {
    hide ToBE;
  }

  /** Where slot `k` starts. */
  function SlotAt(k: nat): (at: nat)
    requires k < 2
    ensures at + META_SLOT_LEN <= META_REGION_LEN
  {
    if k == 0 then 0 else META_SLOT_LEN
  }

  /** The bytes of slot `k`. */
  function Slot(img: Bytes, k: nat): Bytes
    requires |img| >= META_REGION_LEN && k < 2
  {
    img[SlotAt(k)..SlotAt(k) + META_SLOT_LEN]
  }

  /** A slot's content, if its checksum verifies and it decodes. */
  function SlotMeta(h: Hash, img: Bytes, k: nat): Option<MetaContent>
    requires |img| >= META_REGION_LEN && k < 2
  {
    if VerifyChecksum(h, Slot(img, k)) then DecodeMeta(Slot(img, k)) else None
  }

  /** Which slot `open` takes, and what it says. */
  function OpenMeta(h: Hash, img: Bytes): Result<(nat, MetaContent)>
  {
    if |img| < META_REGION_LEN then Err(FileTooSmall)
    else
      match (SlotMeta(h, img, 0), SlotMeta(h, img, 1))
      case (Some(a), Some(b)) => if b.txnId > a.txnId then Ok((1, b)) else Ok((0, a))
      case (Some(a), None) => Ok((0, a))
      case (None, Some(b)) => Ok((1, b))
      case (None, None) => Err(NoValidMetaPage)
  }

  /** Slot `k`, the bytes from `4096 * k` on, is sealed and says `m`. */
  predicate Usable(h: Hash, img: Bytes, k: nat, m: MetaContent) {
    && k < 2 && |img| >= 8192
    && Sealed(h, img[4096 * k..4096 * k + 4096]) && DecodeMeta(img[4096 * k..4096 * k + 4096]) == Some(m)
  }

  /** What opening must answer: a usable slot with the highest transaction id, the
      first of two with the same; or why there is none. */
  ghost predicate OpenAnswers(h: Hash, img: Bytes, r: Result<(nat, MetaContent)>) {
    match r
    case Ok((k, m)) =>
      && Usable(h, img, k, m)
      && forall k', m' | Usable(h, img, k', m') :: m'.txnId < m.txnId || (m'.txnId == m.txnId && k <= k')
    case Err(e) =>
      if |img| < 8192 then e == FileTooSmall
      else e == NoValidMetaPage && forall k, m :: !Usable(h, img, k, m)
  }

  lemma SlotUsable(h: Hash, img: Bytes, k: nat, m: MetaContent)
    requires |img| >= META_REGION_LEN && k < 2
    ensures SlotMeta(h, img, k) == Some(m) <==> Usable(h, img, k, m)
  {
    hide VerifyChecksum, DecodeMeta, Sealed;
    VerifiesIff(h, Slot(img, k));
  }

  lemma OpenMetaAnswers(h: Hash, img: Bytes)
    ensures OpenAnswers(h, img, OpenMeta(h, img))
  {
    hide Usable, SlotMeta;
    if |img| >= META_REGION_LEN {
      forall k: nat, m: MetaContent | k < 2
        ensures SlotMeta(h, img, k) == Some(m) <==> Usable(h, img, k, m)
      {
        SlotUsable(h, img, k, m);
      }
    }
    UsableRange(h, img);
  }

  lemma UsableRange(h: Hash, img: Bytes)
    ensures forall k, m | Usable(h, img, k, m) :: k < 2 && |img| >= 8192
  {
    hide Sealed, DecodeMeta;
  }

  /** There is one right answer. */
  lemma OneAnswer(h: Hash, img: Bytes, r: Result<(nat, MetaContent)>, r': Result<(nat, MetaContent)>)
    requires OpenAnswers(h, img, r) && OpenAnswers(h, img, r')
    ensures r == r'
  {
    hide Sealed, DecodeMeta;
  }

  // ------------------------------------------------------------------
  // Crashes.
  // ------------------------------------------------------------------

  /** A torn meta slot is its old self, its new self, or does not verify. */
  predicate SlotSettled(h: Hash, s: DiskState, img: Bytes, k: nat)
    requires |s.data| >= META_REGION_LEN && |s.durable| >= META_REGION_LEN && |img| >= META_REGION_LEN && k < 2
  {
    || Slot(img, k) == Slot(s.durable, k) || Slot(img, k) == Slot(s.data, k)
    || !Sealed(h, Slot(img, k)) || DecodeMeta(Slot(img, k)).None?
  }

  /** An image a crash in state `s` may leave: synced bytes are kept, any other
      byte may be anything, and the file may have grown. */
  predicate CrashImage(h: Hash, s: DiskState, img: Bytes) {
    && |s.data| >= META_REGION_LEN && |s.durable| >= META_REGION_LEN
    && |img| >= |s.durable|
    && (forall p | 0 <= p < |s.durable| && p !in s.unsynced :: img[p] == s.durable[p])
    && SlotSettled(h, s, img, 0) && SlotSettled(h, s, img, 1)
  }

  /** `img` opens on slot `slot` with content `m`, and the slots keep to the
      ping-pong protocol: slot `k` only ever holds transactions of parity `k`. */
  predicate Anchored(h: Hash, img: Bytes, slot: nat, m: MetaContent) {
    && |img| >= META_REGION_LEN && slot < 2
    && SlotMeta(h, img, slot) == Some(m) && m.txnId % 2 == slot
    && (SlotMeta(h, img, 1 - slot).Some? ==>
          var o := SlotMeta(h, img, 1 - slot).value;
          o.txnId < m.txnId && o.txnId % 2 == 1 - slot)
  }

  lemma AnchoredOpens(h: Hash, img: Bytes, slot: nat, m: MetaContent)
    requires Anchored(h, img, slot, m)
    ensures OpenMeta(h, img) == Ok((slot, m))
  {
    hide SlotMeta;
  }

  type Pages = map<nat, Bytes>

  /** Every page of `pages` is stored in `img`. */
  predicate Stores(h: Hash, ps: PageSize, img: Bytes, pages: Pages) {
    forall id | id in pages :: Stored(h, ps, img, id, pages[id])
  }

  predicate IdsIn(pages: Pages, bound: nat) {
    forall id | id in pages :: FIRST_DATA_PAGE_ID <= id < bound
  }

  /** Nothing that `m` and its pages live in has been overwritten since the
      last sync: the inactive slot and fresh pages are all that may be dirty. */
  predicate Quiet(h: Hash, s: DiskState, slot: nat, m: MetaContent, pages: Pages) {
    && Anchored(h, s.durable, slot, m) && |s.data| >= META_REGION_LEN
    && Slot(s.data, 0) == Slot(s.durable, 0) && Slot(s.data, 1) == Slot(s.durable, 1)
    && IdsIn(pages, m.pageCount)
    && Stores(h, m.pageSize, s.durable, pages)
    && (forall p | p in s.unsynced :: p >= FileOffset(m.pageSize, m.pageCount))
  }

  /** Everything is durable but the slot that announces `m'`. */
  predicate Switching(h: Hash, s: DiskState, slot: nat, m: MetaContent, pages: Pages, m': MetaContent, pages': Pages) {
    && Anchored(h, s.durable, slot, m) && |s.data| >= META_REGION_LEN
    && m'.txnId == m.txnId + 1 && m'.pageSize == m.pageSize
    && SlotMeta(h, s.data, 1 - slot) == Some(m') && Slot(s.data, slot) == Slot(s.durable, slot)
    && IdsIn(pages, m.pageCount) && IdsIn(pages', m'.pageCount)
    && Stores(h, m.pageSize, s.durable, pages) && Stores(h, m.pageSize, s.durable, pages')
    && (forall p | p in s.unsynced :: SlotAt(1 - slot) <= p < SlotAt(1 - slot) + META_SLOT_LEN)
  }

  /** What opening `img` finds: content `m` and all of `pages`. */
  predicate Finds(h: Hash, img: Bytes, slot: nat, m: MetaContent, pages: Pages) {
    Anchored(h, img, slot, m) && Stores(h, m.pageSize, img, pages)
  }

  lemma BytesSurvive(h: Hash, s: DiskState, img: Bytes, from: nat, to: nat)
    requires CrashImage(h, s, img) && from <= to <= |s.durable|
    requires forall p | from <= p < to :: p !in s.unsynced
    ensures img[from..to] == s.durable[from..to]
  {
    hide SlotSettled;
  }

  /** Positions of `pages` untouched since the last sync. */
  predicate Untouched(s: DiskState, ps: PageSize, pages: Pages) {
    forall id, p | id in pages && FileOffset(ps, id) <= p < FileOffset(ps, id) + ps :: p !in s.unsynced
  }

  lemma StoredSurvives(h: Hash, s: DiskState, img: Bytes, ps: PageSize, pages: Pages)
    requires CrashImage(h, s, img) && Stores(h, ps, s.durable, pages) && Untouched(s, ps, pages)
    ensures Stores(h, ps, img, pages)
  {
    hide SlotSettled, VerifyChecksum, SameBody;
    forall id | id in pages
      ensures Stored(h, ps, img, id, pages[id])
    {
      var at := FileOffset(ps, id);
      assert Stored(h, ps, s.durable, id, pages[id]);
      BytesSurvive(h, s, img, at, at + ps);
    }
  }

  lemma SlotSurvives(h: Hash, s: DiskState, img: Bytes, k: nat)
    requires CrashImage(h, s, img) && k < 2
    requires forall p | SlotAt(k) <= p < SlotAt(k) + META_SLOT_LEN :: p !in s.unsynced
    ensures Slot(img, k) == Slot(s.durable, k)
  {
    BytesSurvive(h, s, img, SlotAt(k), SlotAt(k) + META_SLOT_LEN);
  }

  /** A crash in a quiet state loses nothing and shows nothing new. */
  lemma QuietRecovers(h: Hash, s: DiskState, slot: nat, m: MetaContent, pages: Pages, img: Bytes)
    requires Quiet(h, s, slot, m, pages) && CrashImage(h, s, img)
    ensures Finds(h, img, slot, m, pages)
  {
    hide VerifyChecksum, DecodeMeta, Stores, CrashImage;
    SlotSurvives(h, s, img, 0);
    SlotSurvives(h, s, img, 1);
    QuietUntouched(h, s, slot, m, pages);
    StoredSurvives(h, s, img, m.pageSize, pages);
    CrashKeepsLength(h, s, img);
  }

  lemma CrashKeepsLength(h: Hash, s: DiskState, img: Bytes)
    requires CrashImage(h, s, img)
    ensures |img| >= |s.durable| >= META_REGION_LEN && |s.data| >= META_REGION_LEN
    ensures SlotSettled(h, s, img, 0) && SlotSettled(h, s, img, 1)
  {
  }

  lemma QuietUntouched(h: Hash, s: DiskState, slot: nat, m: MetaContent, pages: Pages)
    requires Quiet(h, s, slot, m, pages)
    ensures Untouched(s, m.pageSize, pages)
  {
    hide Anchored, Stores, Slot;
    forall id, p | id in pages && FileOffset(m.pageSize, id) <= p < FileOffset(m.pageSize, id) + m.pageSize
      ensures p !in s.unsynced
    {
      PagesApart(m.pageSize, id, m.pageCount);
    }
  }

  lemma UnsettledSlot(h: Hash, img: Bytes, k: nat)
    requires |img| >= META_REGION_LEN && k < 2
    requires !Sealed(h, Slot(img, k)) || DecodeMeta(Slot(img, k)).None?
    ensures SlotMeta(h, img, k).None?
  {
    hide VerifyChecksum, DecodeMeta, Sealed;
    VerifiesIff(h, Slot(img, k));
  }

  /** A crash while the meta slot is being written leaves the old transaction
      or the new one, each with all its pages. */
  lemma SwitchingRecovers(h: Hash, s: DiskState, slot: nat, m: MetaContent, pages: Pages,
                          m': MetaContent, pages': Pages, img: Bytes)
    requires Switching(h, s, slot, m, pages, m', pages') && CrashImage(h, s, img)
    ensures Finds(h, img, slot, m, pages) || Finds(h, img, 1 - slot, m', pages')
  {
    hide VerifyChecksum, DecodeMeta, Sealed, Stores, CrashImage, Stored, FileOffset;
    CrashKeepsLength(h, s, img);
    SlotSurvives(h, s, img, slot);
    SlotPagesApart(s, slot, m.pageSize, pages);
    SlotPagesApart(s, slot, m.pageSize, pages');
    StoredSurvives(h, s, img, m.pageSize, pages);
    StoredSurvives(h, s, img, m.pageSize, pages');
    assert SlotSettled(h, s, img, 1 - slot);
    if !Sealed(h, Slot(img, 1 - slot)) || DecodeMeta(Slot(img, 1 - slot)).None? {
      UnsettledSlot(h, img, 1 - slot);
    }
  }

  lemma SlotPagesApart(s: DiskState, slot: nat, ps: PageSize, pages: Pages)
    requires slot < 2
    requires forall p | p in s.unsynced :: SlotAt(1 - slot) <= p < SlotAt(1 - slot) + META_SLOT_LEN
    ensures Untouched(s, ps, pages)
  {
  }
}
