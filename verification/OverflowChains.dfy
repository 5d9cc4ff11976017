/** Overflow chains and the row spill/reassemble boundary (`btree/overflow.rs`). */
module OverflowChains {
  import opened Errors
  import opened Codec
  import opened Page
  import opened Slotted
  import opened PageModel
  import opened RowCodec
  import opened Pool
  import opened Tree
  import Disk

  // ------------------------------------------------------------------
  // Chunks.
  // ------------------------------------------------------------------

  /** `tail` cut front to back: full chunks, then a non-empty remainder. */
  function Chunks(tail: Bytes, cap: nat): (cs: seq<Bytes>)
    requires cap > 0
    decreases |tail|
  {
    if |tail| == 0 then []
    else [tail[..Min(cap, |tail|)]] + Chunks(tail[Min(cap, |tail|)..], cap)
  }

  function Join(cs: seq<Bytes>): Bytes {
    if |cs| == 0 then [] else cs[0] + Join(cs[1..])
  }

  /** All chunks but the last are full, none is empty. */
  predicate ChunksOk(cs: seq<Bytes>, cap: nat) {
    forall i | 0 <= i < |cs| :: 0 < |cs[i]| <= cap && (i + 1 < |cs| ==> |cs[i]| == cap)
  }

  /** Cutting loses nothing and makes as many chunks as are needed, no more. */
  lemma {:induction false} ChunksJoin(tail: Bytes, cap: nat)
    requires cap > 0
    ensures Join(Chunks(tail, cap)) == tail && ChunksOk(Chunks(tail, cap), cap)
    ensures |Chunks(tail, cap)| * cap < |tail| + cap && |tail| <= |Chunks(tail, cap)| * cap
    decreases |tail|
  {
    if |tail| > 0 {
      var n := Min(cap, |tail|);
      var rest := Chunks(tail[n..], cap);
      ChunksJoin(tail[n..], cap);
      var cs := Chunks(tail, cap);
      assert cs == [tail[..n]] + rest;
      assert cs[1..] == rest;
      assert |cs| * cap == |rest| * cap + cap;
      if |rest| > 0 {
        assert |tail[n..]| > 0;
      }
    }
  }

  lemma NextChunk(tail: Bytes, cap: nat, start: nat, chunk: Bytes, end: nat)
    requires cap > 0 && start < |tail| && end == Min(start + cap, |tail|) && chunk == tail[start..end]
    ensures Chunks(tail[start..], cap) == [chunk] + Chunks(tail[end..], cap)
  {
    var rest, n := tail[start..], Min(cap, |tail| - start);
    assert rest[..n] == chunk && rest[n..] == tail[end..];
  }

  lemma NoChunks(cap: nat)
    requires cap > 0
    ensures Chunks([], cap) == []
  {
  }

  method CutChunks(tail: Bytes, cap: nat) returns (chunks: seq<Bytes>)
    requires cap > 0
    ensures chunks == Chunks(tail, cap)
  {
    hide Chunks;
    chunks := [];
    var start := 0;
    assert tail[0..] == tail && [] + Chunks(tail, cap) == Chunks(tail, cap);
    while start < |tail|
      invariant start <= |tail|
      invariant chunks + Chunks(tail[start..], cap) == Chunks(tail, cap)
    {
      var end := Min(start + cap, |tail|);
      var chunk := tail[start..end];
      NextChunk(tail, cap, start, chunk, end);
      assert chunks + ([chunk] + Chunks(tail[end..], cap)) == chunks + [chunk] + Chunks(tail[end..], cap);
      chunks := chunks + [chunk];
      start := end;
    }
    NoChunks(cap);
    assert tail[start..] == [] && chunks + [] == chunks;
  }

  // ------------------------------------------------------------------
  // Writing a chain.
  // ------------------------------------------------------------------

  function OverflowPage(ps: PageSize, next: u32, chunk: Bytes): (b: Bytes)
    requires |chunk| <= ChunkCap(ps)
    ensures |b| == ps
  {
    Splice(Splice(Splice(Zeros(ps), 0, [TYPE_OVERFLOW]), 1, ToBE(next, 4)), 5, chunk)
  }

  lemma OverflowPageDecodes(ps: PageSize, next: u32, chunk: Bytes)
    requires |chunk| <= ChunkCap(ps)
    ensures var v := DecodePage(ps, OverflowPage(ps, next, chunk));
      v.Overflow? && v.next == next && |v.data| == ChunkCap(ps) && v.data[..|chunk|] == chunk
  {
    hide ToBE, FromBE, Wf, LeafValue, InteriorValue;
    var b := OverflowPage(ps, next, chunk);
    assert b[0] == TYPE_OVERFLOW;
    assert b[1..5] == ToBE(next, 4);
    NumberAt(b, 1, ToBE(next, 4));
    U32RoundTrip(next);
    SliceOfSlice(b, 5, ps - CHECKSUM_LEN, 0, |chunk|);
    assert b[5..5 + |chunk|] == chunk;
  }

  method BuildOverflowPage(ps: PageSize, next: u32, chunk: Bytes) returns (r: Bytes)
    requires |chunk| <= ChunkCap(ps)
    ensures r == OverflowPage(ps, next, chunk)
  {
    var buf := NewZeros(ps);
    hide Zeros, ToBE;
    var _ := WriteBytes(buf, 0, [TYPE_OVERFLOW]);
    var _ := WriteBytes(buf, 1, ToBE(next, 4));
    var _ := WriteBytes(buf, 5, chunk);
    return buf[..];
  }

  /** Putting one page in front of a chain. */
  lemma ChainGrows(ps: PageSize, p: PageMap, q: PageMap, id: nat, next: nat, chunk: Bytes, rest: Bytes)
    requires Extends(p, q) && id in q && q[id].Overflow? && q[id].next == next && next < id
    requires |q[id].data| == ChunkCap(ps) && 0 < |chunk| <= ChunkCap(ps) && q[id].data[..|chunk|] == chunk
    requires ChainOk(ps, p, next, |rest|) && ChainData(ps, p, next, |rest|) == rest
    requires rest != [] ==> |chunk| == ChunkCap(ps)
    ensures ChainOk(ps, q, id, |chunk + rest|) && ChainData(ps, q, id, |chunk + rest|) == chunk + rest
  {
    ChainExtends(ps, p, q, next, |rest|);
    var need := |chunk| + |rest|;
    assert Min(need, ChunkCap(ps)) == |chunk|;
  }

  method WriteOverflowChain(pool: BufferPool, tail: Bytes) returns (r: Result<u32>)
    requires pool.Valid()
    modifies pool, pool.pager.file
    ensures pool.Valid() && pool.Grown()
    ensures tail == [] ==> r == Ok(0) && pool.view == old(pool.view)
    ensures r.Ok? ==>
      var ps := pool.pager.pageSize;
      && (tail != [] ==> old(pool.nextPageId) <= r.value < pool.nextPageId)
      && ChainOk(ps, Decoded(ps, pool.view), r.value, |tail|)
      && ChainData(ps, Decoded(ps, pool.view), r.value, |tail|) == tail
      && pool.nextPageId == old(pool.nextPageId) + |Chunks(tail, ChunkCap(ps))|
    ensures r.Err? ==> r.error == ArithmeticOverflow && pool.nextPageId == U32_MAX
  {
    hide DecodePage, BufferPool.Inv, OverflowPage, Decoded, ChunksOk;
    if |tail| == 0 {
      return Ok(0);
    }
    pool.ValidIds();
    var ps := pool.pager.pageSize;
    var chunks := CutChunks(tail, ChunkCap(ps));
    ChunksJoin(tail, ChunkCap(ps));
    var nextId: u32 := 0;
    var k := |chunks|;
    assert chunks[k..] == [];
    while k > 0
      invariant k <= |chunks| && pool.Valid() && pool.Grown()
      invariant pool.nextPageId == old(pool.nextPageId) + |chunks| - k
      invariant k < |chunks| ==> old(pool.nextPageId) <= nextId < pool.nextPageId
      invariant k == |chunks| ==> nextId == 0
      invariant ChainOk(ps, Decoded(ps, pool.view), nextId, |Join(chunks[k..])|)
      invariant ChainData(ps, Decoded(ps, pool.view), nextId, |Join(chunks[k..])|) == Join(chunks[k..])
    {
      k := k - 1;
      ghost var before := pool.view;
      var buf := BuildOverflowPage(ps, nextId, chunks[k]);
      var id :- pool.PutFresh(buf);
      LinkChunk(ps, before, pool.view, id, nextId, chunks, k);
      nextId := id;
    }
    assert chunks[0..] == chunks;
    return Ok(nextId);
  }

  lemma LinkChunk(ps: PageSize, v: Disk.Pages, w: Disk.Pages, id: u32, next: u32, chunks: seq<Bytes>, k: nat)
    requires k < |chunks| && ChunksOk(chunks, ChunkCap(ps)) && next < id
    requires id !in v && w == v[id := OverflowPage(ps, next, chunks[k])]
    requires ChainOk(ps, Decoded(ps, v), next, |Join(chunks[k + 1..])|)
    requires ChainData(ps, Decoded(ps, v), next, |Join(chunks[k + 1..])|) == Join(chunks[k + 1..])
    ensures ChainOk(ps, Decoded(ps, w), id, |Join(chunks[k..])|)
    ensures ChainData(ps, Decoded(ps, w), id, |Join(chunks[k..])|) == Join(chunks[k..])
  {
    hide DecodePage, OverflowPage, ChainOk, ChainData;
    var rest := Join(chunks[k + 1..]);
    assert chunks[k..][1..] == chunks[k + 1..];
    assert Join(chunks[k..]) == chunks[k] + rest;
    DecodedExtends(ps, v, w);
    OverflowPageDecodes(ps, next, chunks[k]);
    if rest != [] {
      assert chunks[k + 1..] != [];
    }
    ChainGrows(ps, Decoded(ps, v), Decoded(ps, w), id, next, chunks[k], rest);
  }

  // ------------------------------------------------------------------
  // Reading a chain.
  // ------------------------------------------------------------------

  /** `out` and the chain from `cur` make up the chain from `first`. */
  predicate ReadSoFar(ps: PageSize, p: PageMap, first: nat, total: nat, cur: nat, out: Bytes) {
    && |out| <= total
    && ChainOk(ps, p, first, total) && ChainOk(ps, p, cur, total - |out|)
    && out + ChainData(ps, p, cur, total - |out|) == ChainData(ps, p, first, total)
  }

  method ReadOverflowChain(pool: BufferPool, firstId: nat, totalLen: nat) returns (r: Result<Bytes>)
    requires pool.Valid()
    modifies pool, pool.pager.file
    ensures pool.Valid() && pool.Steady()
    ensures var ps := pool.pager.pageSize; var p := Decoded(ps, pool.view);
      ChainOk(ps, p, firstId, totalLen) ==> r == Ok(ChainData(ps, p, firstId, totalLen))
  {
    hide ChainOk, ChainData, DecodePage, BufferPool.Inv, Decoded, ReadSoFar, U32;
    var ps := pool.pager.pageSize;
    ghost var p := Decoded(ps, pool.view);
    ghost var good := ChainOk(ps, p, firstId, totalLen);
    var out: Bytes := [];
    var current: nat := firstId;
    StartReading(ps, p, firstId, totalLen);
    while current != 0 && |out| < totalLen
      invariant pool.Valid() && pool.Steady()
      invariant |out| <= totalLen
      invariant good ==> ReadSoFar(ps, p, firstId, totalLen, current, out)
      decreases totalLen - |out|
    {
      if good {
        LinkInView(ps, pool.view, firstId, totalLen, current, out);
      }
      var buf :- pool.Get(current);
      if good {
        ReadOne(ps, pool.view, firstId, totalLen, current, out, buf);
      }
      if buf[0] != TYPE_OVERFLOW {
        return Err(UnexpectedPageType);
      }
      var next := U32(buf, 1);
      var take := Min(totalLen - |out|, ChunkCap(ps));
      out := out + buf[5..5 + take];
      current := next;
    }
    if good {
      pool.ValidIds();
      DoneReading(ps, pool.view, pool.nextPageId, firstId, totalLen, current, out);
    }
    return Ok(out);
  }

  lemma StartReading(ps: PageSize, p: PageMap, first: nat, total: nat)
    ensures ChainOk(ps, p, first, total) ==> ReadSoFar(ps, p, first, total, first, [])
  {
    hide ChainOk, ChainData;
  }

  lemma LinkInView(ps: PageSize, view: Disk.Pages, first: nat, total: nat, cur: nat, out: Bytes)
    requires ReadSoFar(ps, Decoded(ps, view), first, total, cur, out) && |out| < total
    ensures cur in view
  {
    hide ChainData, DecodePage;
  }

  lemma ReadOne(ps: PageSize, view: Disk.Pages, first: nat, total: nat, cur: nat, out: Bytes, buf: Bytes)
    requires ReadSoFar(ps, Decoded(ps, view), first, total, cur, out) && |out| < total
    requires cur in view ==> SameBody(buf, view[cur])
    ensures |buf| == ps && buf[0] == TYPE_OVERFLOW
    ensures ReadSoFar(ps, Decoded(ps, view), first, total, U32(buf, 1),
                      out + buf[5..5 + Min(total - |out|, ChunkCap(ps))])
  {
    hide ChainOk, ChainData, DecodePage, U32, Decoded;
    ChainPage(ps, view, cur, total - |out|, buf);
    var p, take := Decoded(ps, view), Min(total - |out|, ChunkCap(ps));
    var rest := ChainData(ps, p, U32(buf, 1), total - |out| - take);
    assert (out + buf[5..5 + take]) + rest == out + (buf[5..5 + take] + rest);
  }

  lemma DoneReading(ps: PageSize, view: Disk.Pages, bound: nat, first: nat, total: nat, cur: nat, out: Bytes)
    requires Disk.IdsIn(view, bound) && ReadSoFar(ps, Decoded(ps, view), first, total, cur, out)
    requires cur == 0 || |out| == total
    ensures out == ChainData(ps, Decoded(ps, view), first, total)
  {
    ChainEnd(ps, view, bound, cur, total - |out|);
    hide ChainOk, ChainData, DecodePage, Decoded;
  }

  /** What the reader sees on a chain page. */
  lemma ChainPage(ps: PageSize, view: Disk.Pages, cur: nat, need: nat, buf: Bytes)
    requires ChainOk(ps, Decoded(ps, view), cur, need) && need > 0
    requires cur in view ==> SameBody(buf, view[cur])
    ensures |buf| == ps && buf[0] == TYPE_OVERFLOW
    ensures var p := Decoded(ps, view); var take := Min(need, ChunkCap(ps));
      && ChainOk(ps, p, U32(buf, 1), need - take)
      && ChainData(ps, p, cur, need) == buf[5..5 + take] + ChainData(ps, p, U32(buf, 1), need - take)
  {
    hide IsLeaf, IsInterior, Cells, U32;
    assert cur in Decoded(ps, view);
    SameBodySamePage(ps, view[cur], buf);
    hide SameBody;
    var take := Min(need, ChunkCap(ps));
    SliceOfSlice(buf, 5, ps - CHECKSUM_LEN, 0, take);
  }

  lemma ChainEnd(ps: PageSize, view: Disk.Pages, bound: nat, cur: nat, need: nat)
    requires Disk.IdsIn(view, bound) && ChainOk(ps, Decoded(ps, view), cur, need)
    requires cur == 0 || need == 0
    ensures need == 0 && ChainData(ps, Decoded(ps, view), cur, need) == []
  {
    hide DecodePage;
  }

  // ------------------------------------------------------------------
  // Rows in cells.
  // ------------------------------------------------------------------

  /** `local`, followed by the chain at `overflow` if there is one, is `encoded`. */
  predicate SpilledAs(ps: PageSize, p: PageMap, encoded: Bytes, local: Bytes, overflow: u32, bound: nat) {
    && local == encoded[..Min(|encoded|, MaxLocal(ps))]
    && (overflow == 0 <==> |encoded| <= MaxLocal(ps))
    && overflow < bound
    && (overflow != 0 ==>
          && ChainOk(ps, p, overflow, |encoded| - MaxLocal(ps))
          && ChainData(ps, p, overflow, |encoded| - MaxLocal(ps)) == encoded[MaxLocal(ps)..])
  }

  /** How many overflow pages an encoding of `len` bytes takes. */
  function SpillPages(ps: PageSize, len: nat): nat {
    if len <= MaxLocal(ps) then 0 else (len - MaxLocal(ps) + ChunkCap(ps) - 1) / ChunkCap(ps)
  }

  lemma LessTimes(a: nat, b: nat, cap: nat)
    ensures a < b ==> a * cap + cap <= b * cap
  {
    if a < b {
      assert (a + 1) * cap <= b * cap;
      assert (a + 1) * cap == a * cap + cap;
    }
  }

  lemma CeilingIs(n: nat, len: nat, cap: nat)
    requires cap > 0 && n * cap < len + cap && len <= n * cap
    ensures n == (len + cap - 1) / cap
  {
    var q := (len + cap - 1) / cap;
    assert q * cap <= len + cap - 1 < q * cap + cap;
    LessTimes(n, q, cap);
    LessTimes(q, n, cap);
  }

  /** Local bytes kept in the cell, and the first overflow page or 0. */
  method SpillIfNeeded(pool: BufferPool, encoded: Bytes) returns (r: Result<(Bytes, u32)>)
    requires pool.Valid()
    modifies pool, pool.pager.file
    ensures pool.Valid() && pool.Grown()
    ensures r.Ok? ==>
      SpilledAs(pool.pager.pageSize, Decoded(pool.pager.pageSize, pool.view), encoded, r.value.0, r.value.1, pool.nextPageId)
      && pool.nextPageId == old(pool.nextPageId) + SpillPages(pool.pager.pageSize, |encoded|)
    ensures r.Err? ==> r.error == ArithmeticOverflow && pool.nextPageId == U32_MAX
  {
    hide ChainOk, ChainData, DecodePage, BufferPool.Inv, Decoded, Chunks;
    pool.ValidIds();
    var maxLocal := MaxLocal(pool.pager.pageSize);
    if |encoded| <= maxLocal {
      return Ok((encoded, 0));
    }
    ChunksJoin(encoded[maxLocal..], ChunkCap(pool.pager.pageSize));
    CeilingIs(|Chunks(encoded[maxLocal..], ChunkCap(pool.pager.pageSize))|, |encoded| - maxLocal, ChunkCap(pool.pager.pageSize));
    var overflowFirst :- WriteOverflowChain(pool, encoded[maxLocal..]);
    return Ok((encoded[..maxLocal], overflowFirst));
  }

  /** Cell bytes that hold `row` under `key`, overflow pages and all. */
  predicate CellHolds(ps: PageSize, p: PageMap, cell: Bytes, key: i64, row: Row, bound: nat) {
    && WfCell(Local(ps), cell)
    && DecodeCell(cell).key == key
    && CellOk(ps, p, DecodeCell(cell), bound)
    && EntryOf(ps, p, DecodeCell(cell)) == Entry(key, row, |cell| + POINTER_LEN)
  }

  method BuildRowCell(pool: BufferPool, key: i64, row: Row) returns (r: Result<Bytes>)
    requires pool.Valid()
    modifies pool, pool.pager.file
    ensures pool.Valid() && pool.Grown()
    ensures EncodeRow(row).Err? ==> r == Err(PayloadTooLarge) && pool.view == old(pool.view)
    ensures r.Ok? ==>
      var ps := pool.pager.pageSize;
      && EncodeRow(row).Ok?
      && pool.nextPageId == old(pool.nextPageId) + SpillPages(ps, |EncodeRow(row).value|)
      && WfCell(Local(ps), r.value)
      && DecodeCell(r.value).key == key && DecodeCell(r.value).payloadLen == Min(|EncodeRow(row).value|, U32_MAX)
      && DecodeCell(r.value).local == EncodeRow(row).value[..Min(|EncodeRow(row).value|, MaxLocal(ps))]
      && |r.value| == LEAF_CELL_FIXED_LEN + Min(|EncodeRow(row).value|, MaxLocal(ps))
      && (|EncodeRow(row).value| <= U32_MAX ==>
            CellHolds(ps, Decoded(ps, pool.view), r.value, key, row, pool.nextPageId))
    ensures r.Err? && EncodeRow(row).Ok? ==> r.error == ArithmeticOverflow && pool.nextPageId == U32_MAX
  {
    hide ChainOk, ChainData, DecodePage, BufferPool.Inv, Decoded, EncodeRow, CellHolds, BuildLeafCell, SpillPages, DecodeCell;
    EncodeFailsExactly(row);
    var encoded :- Encode(row);
    var spilled :- SpillIfNeeded(pool, encoded);
    var payloadLen := Min(|encoded|, U32_MAX);
    var cell := BuildLeafCell(key, payloadLen, spilled.1, spilled.0);
    LeafCellRoundTrip(key, payloadLen, spilled.1, spilled.0);
    if |encoded| <= U32_MAX {
      CellRoundTrip(pool.pager.pageSize, Decoded(pool.pager.pageSize, pool.view), key, row, encoded,
                    spilled.0, spilled.1, pool.nextPageId);
    }
    return Ok(cell);
  }

  /** A cell built from an encoded row gives the row back. */
  lemma CellRoundTrip(ps: PageSize, p: PageMap, key: i64, row: Row, encoded: Bytes, local: Bytes, overflow: u32, bound: nat)
    requires EncodeRow(row) == Ok(encoded) && |encoded| <= U32_MAX
    requires SpilledAs(ps, p, encoded, local, overflow, bound)
    ensures CellHolds(ps, p, BuildLeafCell(key, |encoded|, overflow, local), key, row, bound)
  {
    hide ChainOk, ChainData, EncodeRow, DecodeRow, BuildLeafCell, DecodeCell, WfCell;
    LeafCellRoundTrip(key, |encoded|, overflow, local);
    var c := Cell(key, |encoded|, overflow, local);
    assert Payload(ps, p, c) == encoded by {
      if overflow != 0 {
        assert encoded[..MaxLocal(ps)] + encoded[MaxLocal(ps)..] == encoded;
      }
    }
    RowRoundTrip(row, []);
    assert encoded + [] == encoded;
  }

  /** `payload_len` is a `u32`: no cell stands for a longer payload, so a row
      whose encoding is longer is stored but cannot be read back. */
  lemma PayloadFitsU32(ps: PageSize, p: PageMap, cell: Bytes, bound: nat)
    requires |cell| >= LEAF_CELL_FIXED_LEN && PayloadOk(ps, p, DecodeCell(cell), bound)
    ensures |Payload(ps, p, DecodeCell(cell))| == DecodeCell(cell).payloadLen <= U32_MAX
  {
    hide ChainOk;
  }

  /** A stored row can be read back exactly when its encoding fits the cell's
      `u32` length; the length is clamped, not rejected. */
  lemma CellKeepsRowIff(ps: PageSize, p: PageMap, key: i64, row: Row, encoded: Bytes, local: Bytes, overflow: u32, bound: nat)
    requires EncodeRow(row) == Ok(encoded) && SpilledAs(ps, p, encoded, local, overflow, bound)
    ensures CellHolds(ps, p, BuildLeafCell(key, Min(|encoded|, U32_MAX), overflow, local), key, row, bound)
       <==> |encoded| <= U32_MAX
  {
    hide SpilledAs, EncodeRow, DecodeRow, WfCell, PayloadOk, Payload, BuildLeafCell, DecodeCell;
    var cell := BuildLeafCell(key, Min(|encoded|, U32_MAX), overflow, local);
    if |encoded| <= U32_MAX {
      CellRoundTrip(ps, p, key, row, encoded, local, overflow, bound);
    } else if CellHolds(ps, p, cell, key, row, bound) {
      PayloadFitsU32(ps, p, cell, bound);
      RowLength(Payload(ps, p, DecodeCell(cell)));
    }
  }

  /** One blob of `n` zeros. */
  function BlobRow(n: nat): Row { Row([Blob(Zeros(n))]) }

  lemma BlobRowLength(n: nat)
    requires n <= U32_MAX
    ensures EncodeRow(BlobRow(n)).Ok? && |EncodeRow(BlobRow(n)).value| == n + 9
  {
    hide Zeros, ToBE;
    var v := Blob(Zeros(n));
    assert |Zeros(n)| == n;
    assert [v][..0] == [];
    assert EncodeValue(v).Ok?;
    assert EncodeValues([v]) == Ok([] + EncodeValue(v).value);
  }

  /** A row the encoder accepts and the cell cannot describe. */
  lemma OverlongRow()
    ensures EncodeRow(BlobRow(U32_MAX)).Ok? && !Short(BlobRow(U32_MAX))
  {
    hide EncodeRow, BlobRow;
    BlobRowLength(U32_MAX);
  }

  // ------------------------------------------------------------------
  // No tree holds a row that a cell cannot describe.
  // ------------------------------------------------------------------

  predicate Short(row: Row) {
    EncodeRow(row).Ok? && |EncodeRow(row).value| <= U32_MAX
  }

  predicate ShortRows(es: seq<Entry>) {
    forall x | x in es :: Short(x.row)
  }

  predicate ShortCells(p: PageMap) {
    forall id, i | id in p && p[id].Leaf? && 0 <= i < |p[id].cells| :: p[id].cells[i].payloadLen <= U32_MAX
  }

  lemma DecodedShort(ps: PageSize, view: Disk.Pages)
    ensures ShortCells(Decoded(ps, view))
  {
    hide IsLeaf, IsInterior, Cells;
  }

  lemma CellShortRow(ps: PageSize, p: PageMap, c: Cell, bound: nat)
    requires CellOk(ps, p, c, bound) && c.payloadLen <= U32_MAX
    ensures Short(EntryOf(ps, p, c).row)
  {
    hide ChainOk, DecodeRow, EncodeRow;
    RowLength(Payload(ps, p, c));
  }

  lemma LeafShort(ps: PageSize, p: PageMap, id: nat, lo: int, hi: int)
    requires id in p && p[id].Leaf? && LeafOk(ps, p, p[id].cells, lo, hi, id) && ShortCells(p)
    ensures ShortRows(LeafEntries(ps, p, p[id].cells))
  {
    hide CellOk, EntryOf, Short;
    var cells, es := p[id].cells, LeafEntries(ps, p, p[id].cells);
    forall x | x in es
      ensures Short(x.row)
    {
      var i :| 0 <= i < |es| && es[i] == x;
      CellShortRow(ps, p, cells[i], id);
    }
  }

  lemma {:induction false} FlatShort(ps: PageSize, p: PageMap, ids: seq<nat>, h: nat)
    requires forall i | 0 <= i < |ids| :: ShortRows(Contents(ps, p, ids[i], h))
    ensures ShortRows(Flat(ps, p, ids, h))
    decreases |ids|
  {
    hide Contents, Short;
    if |ids| > 0 {
      var n := |ids| - 1;
      FlatShort(ps, p, ids[..n], h);
    }
  }

  lemma {:induction false} TreeShort(ps: PageSize, p: PageMap, id: nat, lo: int, hi: int, h: nat)
    requires TreeOk(ps, p, id, lo, hi, h) && ShortCells(p)
    ensures ShortRows(Contents(ps, p, id, h))
    decreases h
  {
    hide ShortCells, LeafOk, ShortRows, Separators, Distinct;
    match p[id]
    case Leaf(cells) =>
      LeafShort(ps, p, id, lo, hi);
    case Interior(keys, children) =>
      assert NodeOk(ps, p, keys, children, lo, hi, h - 1, id);
      forall i | 0 <= i < |children|
        ensures ShortRows(Contents(ps, p, children[i], h - 1))
      {
        TreeShort(ps, p, children[i], Lower(keys, lo, i), Upper(keys, hi, i), h - 1);
      }
      FlatShort(ps, p, children, h - 1);
  }

  lemma SoundShort(ps: PageSize, view: Disk.Pages, root: nat)
    requires Sound(ps, Decoded(ps, view), root)
    ensures ShortRows(Rows(ps, Decoded(ps, view), root))
  {
    hide TreeOk, Contents, Decoded, Short;
    var p := Decoded(ps, view);
    if root != EMPTY_TREE_ROOT {
      var h: nat :| TreeOk(ps, p, root, KEY_MIN, KEY_END, h);
      DecodedShort(ps, view);
      RowsAre(ps, p, root, h);
      TreeShort(ps, p, root, KEY_MIN, KEY_END, h);
    }
  }

  // ------------------------------------------------------------------
  // Reading a row's payload.
  // ------------------------------------------------------------------

  method Reassemble(pool: BufferPool, cell: Cell) returns (r: Result<Bytes>)
    requires pool.Valid()
    modifies pool, pool.pager.file
    ensures pool.Valid() && pool.Steady()
    ensures var ps := pool.pager.pageSize; var p := Decoded(ps, pool.view);
      (exists bound: nat :: PayloadOk(ps, p, cell, bound)) ==> r == Ok(Payload(ps, p, cell))
  {
    hide ChainOk, ChainData, DecodePage, BufferPool.Inv, Decoded;
    if cell.overflow == 0 {
      return Ok(cell.local);
    }
    var maxLocal := MaxLocal(pool.pager.pageSize);
    var tailLen := if cell.payloadLen > maxLocal then cell.payloadLen - maxLocal else 0;
    var tail :- ReadOverflowChain(pool, cell.overflow, tailLen);
    return Ok(cell.local + tail);
  }
}
