/** What a page's bytes stand for: the leaf, interior and overflow pages of the
    tree (`btree/layout.rs`, `btree/overflow.rs`), and how in-place edits of the
    bytes act on them. */
module PageModel {
  import opened Errors
  import opened Codec
  import opened Page
  import opened Slotted

  datatype Cell = Cell(key: i64, payloadLen: nat, overflow: nat, local: Bytes)

  datatype PageValue =
    | Leaf(cells: seq<Cell>)
    | Interior(keys: seq<i64>, children: seq<nat>)
    | Overflow(next: nat, data: Bytes)
    | Bad

  // ------------------------------------------------------------------
  // Cells.
  // ------------------------------------------------------------------

  function DecodeCell(c: Bytes): Cell
  {
    if |c| >= LEAF_CELL_FIXED_LEN
    then Cell(I64(c, 0), U32(c, 8), U32(c, 12), c[LEAF_CELL_FIXED_LEN..])
    else Cell(0, 0, 0, [])
  }

  function DecodeCells(cs: seq<Bytes>): (r: seq<Cell>)
    ensures |r| == |cs|
  {
    seq(|cs|, i requires 0 <= i < |cs| => DecodeCell(cs[i]))
  }

  function BuildLeafCell(key: i64, payloadLen: nat, overflow: nat, local: Bytes): (c: Bytes)
    ensures |c| == LEAF_CELL_FIXED_LEN + |local|
  {
    I64Bytes(key) + ToBE(payloadLen, 4) + ToBE(overflow, 4) + local
  }

  lemma LeafCellRoundTrip(key: i64, payloadLen: nat, overflow: nat, local: Bytes)
    requires payloadLen <= U32_MAX && overflow <= U32_MAX
    ensures DecodeCell(BuildLeafCell(key, payloadLen, overflow, local)) == Cell(key, payloadLen, overflow, local)
    ensures forall maxLocal: nat ::
              WfCell(LeafKind(maxLocal), BuildLeafCell(key, payloadLen, overflow, local))
              <==> |local| == Min(payloadLen, maxLocal)
  {
    var c := BuildLeafCell(key, payloadLen, overflow, local);
    assert c[0..8] == I64Bytes(key)[0..8];
    assert c[8..12] == ToBE(payloadLen, 4)[0..4];
    assert c[12..16] == ToBE(overflow, 4)[0..4];
    assert c[16..] == local;
    I64RoundTrip(key);
    U32RoundTrip(payloadLen);
    U32RoundTrip(overflow);
  }

  function KeyOf(c: Bytes): i64 { if |c| >= 8 then I64(c, 0) else 0 }

  function ChildOf(c: Bytes): nat { if |c| >= 12 then U32(c, 8) else 0 }

  function KeysOf(cs: seq<Bytes>): (r: seq<i64>)
    ensures |r| == |cs|
  {
    seq(|cs|, i requires 0 <= i < |cs| => KeyOf(cs[i]))
  }

  function ChildrenOf(cs: seq<Bytes>): (r: seq<nat>)
    ensures |r| == |cs|
  {
    seq(|cs|, i requires 0 <= i < |cs| => ChildOf(cs[i]))
  }

  function BuildInteriorCell(key: i64, child: nat): (c: Bytes)
    ensures |c| == INTERIOR_CELL_LEN
  {
    I64Bytes(key) + ToBE(child, 4)
  }

  lemma InteriorCellRoundTrip(key: i64, child: nat)
    requires child <= U32_MAX
    ensures KeyOf(BuildInteriorCell(key, child)) == key && ChildOf(BuildInteriorCell(key, child)) == child
    ensures WfCell(InteriorKind, BuildInteriorCell(key, child))
  {
    var c := BuildInteriorCell(key, child);
    assert c[0..8] == I64Bytes(key)[0..8];
    assert c[8..12] == ToBE(child, 4)[0..4];
    I64RoundTrip(key);
    U32RoundTrip(child);
  }

  lemma MapsOverInsert(cs: seq<Bytes>, i: nat, c: Bytes)
    requires i <= |cs|
    ensures DecodeCells(SeqInsert(cs, i, c)) == SeqInsert(DecodeCells(cs), i, DecodeCell(c))
    ensures KeysOf(SeqInsert(cs, i, c)) == SeqInsert(KeysOf(cs), i, KeyOf(c))
    ensures ChildrenOf(SeqInsert(cs, i, c)) == SeqInsert(ChildrenOf(cs), i, ChildOf(c))
  {
  }

  lemma MapsOverRemove(cs: seq<Bytes>, i: nat)
    requires i < |cs|
    ensures DecodeCells(SeqRemove(cs, i)) == SeqRemove(DecodeCells(cs), i)
  {
  }

  // ------------------------------------------------------------------
  // Pages.
  // ------------------------------------------------------------------

  function Local(ps: PageSize): Kind { LeafKind(MaxLocal(ps)) }

  function ChunkCap(ps: PageSize): (n: nat)
    ensures n > 0
  {
    UsableSpace(ps) - 5
  }

  predicate IsLeaf(ps: PageSize, s: Bytes) {
    |s| == ps && s[0] == TYPE_LEAF && Wf(Local(ps), s)
  }

  predicate IsInterior(ps: PageSize, s: Bytes) {
    |s| == ps && s[0] == TYPE_INTERIOR && Wf(InteriorKind, s)
  }

  function LeafValue(ps: PageSize, s: Bytes): PageValue
    requires IsLeaf(ps, s)
  {
    Leaf(DecodeCells(Cells(Local(ps), s)))
  }

  function InteriorValue(s: Bytes): PageValue
    requires Wf(InteriorKind, s)
  {
    Interior(KeysOf(Cells(InteriorKind, s)), ChildrenOf(Cells(InteriorKind, s)) + [U32(s, 5)])
  }

  /** The page a buffer stands for; the checksum trailer plays no part. */
  function DecodePage(ps: PageSize, s: Bytes): PageValue
  {
    if IsLeaf(ps, s) then LeafValue(ps, s)
    else if IsInterior(ps, s) then InteriorValue(s)
    else if |s| == ps && s[0] == TYPE_OVERFLOW then Overflow(U32(s, 1), s[5..ps - CHECKSUM_LEN])
    else Bad
  }

  lemma SameBodyBytes(s: Bytes, t: Bytes)
    requires SameBody(s, t)
    ensures forall p | 0 <= p < |s| - CHECKSUM_LEN :: s[p] == t[p]
    ensures forall a, b | 0 <= a <= b <= |s| - CHECKSUM_LEN :: s[a..b] == t[a..b]
  {
    forall p | 0 <= p < |s| - CHECKSUM_LEN ensures s[p] == t[p] {
      assert s[p] == Content(s)[p] && t[p] == Content(t)[p];
    }
  }

  lemma SameBodyOffsets(header: nat, s: Bytes, t: Bytes)
    requires SameBody(s, t) && |s| >= 5 + CHECKSUM_LEN && header + 2 * Count(s) <= |s| - CHECKSUM_LEN
    ensures Count(t) == Count(s) && Start(t) == Start(s)
    ensures Offsets(header, t) == Offsets(header, s)
  {
    SameBodyBytes(s, t);
    forall i | 0 <= i < Count(s)
      ensures U16(t, header + 2 * i) == U16(s, header + 2 * i)
    {
    }
  }

  lemma SameBodyCell(k: Kind, s: Bytes, t: Bytes, off: nat)
    requires SameBody(s, t) && |s| >= CHECKSUM_LEN && CellIn(k, s, off)
    ensures CellIn(k, t, off) && CellLen(k, t, off) == CellLen(k, s, off) && CellBytes(k, t, off) == CellBytes(k, s, off)
  {
    SameBodyBytes(s, t);
    hide Content;
    var len := CellLen(k, s, off);
    assert t[off..off + len] == s[off..off + len];
    CellLenFollowsBytes(k, t, off, s, off, len);
  }

  lemma SameBodyWf(k: Kind, s: Bytes, t: Bytes)
    requires SameBody(s, t) && Wf(k, s)
    ensures Wf(k, t) && Cells(k, t) == Cells(k, s)
  {
    SameBodyOffsets(k.Header(), s, t);
    var offs := Offsets(k.Header(), s);
    hide SameBody;
    forall i | 0 <= i < |offs|
      ensures CellIn(k, t, offs[i]) && CellLen(k, t, offs[i]) == CellLen(k, s, offs[i])
      ensures CellBytes(k, t, offs[i]) == CellBytes(k, s, offs[i])
    {
      SameBodyCell(k, s, t, offs[i]);
    }
    assert CellsAt(k, t, offs) == CellsAt(k, s, offs);
  }

  /** Stamping a checksum never changes what a page stands for. */
  lemma SameBodySamePage(ps: PageSize, s: Bytes, t: Bytes)
    requires SameBody(s, t)
    ensures DecodePage(ps, t) == DecodePage(ps, s)
  {
    if |s| == ps {
      SameBodyBytes(s, t);
      assert s[0] == t[0];
      if s[0] == TYPE_LEAF {
        if Wf(Local(ps), s) { SameBodyWf(Local(ps), s, t); }
        if Wf(Local(ps), t) { SameBodyWf(Local(ps), t, s); }
      } else if s[0] == TYPE_INTERIOR {
        if Wf(InteriorKind, s) { SameBodyWf(InteriorKind, s, t); }
        if Wf(InteriorKind, t) { SameBodyWf(InteriorKind, t, s); }
        assert s[5..9] == t[5..9];
      } else {
        assert s[1..5] == t[1..5];
        assert s[5..ps - CHECKSUM_LEN] == t[5..ps - CHECKSUM_LEN];
      }
    }
  }

  // ------------------------------------------------------------------
  // Leaf readers.
  // ------------------------------------------------------------------

  function LeafKeyAt(buf: Bytes, index: nat): Result<i64>
  {
    var offset :- PointerAt(buf, LEAF_HEADER_LEN, index);
    ReadI64(buf, offset)
  }

  function LeafCellAt(buf: Bytes, index: nat, maxLocal: nat): Result<Cell>
  {
    var offset :- PointerAt(buf, LEAF_HEADER_LEN, index);
    var key :- ReadI64(buf, offset);
    var payloadLen :- ReadU32(buf, offset + 8);
    var overflow :- ReadU32(buf, offset + 12);
    var local :- ReadVec(buf, offset + LEAF_CELL_FIXED_LEN, Min(payloadLen, maxLocal));
    Ok(Cell(key, payloadLen, overflow, local))
  }

  /** `leaf_cell_byte_len`; a local length past `u16` counts as 0. */
  function LeafCellByteLen(buf: Bytes, index: nat, maxLocal: nat): Result<nat>
  {
    var offset :- PointerAt(buf, LEAF_HEADER_LEN, index);
    var payloadLen :- ReadU32(buf, offset + 8);
    var localLen := Min(payloadLen, maxLocal);
    var counted := if localLen <= U16_MAX then localLen else 0;
    if LEAF_CELL_FIXED_LEN + counted > U16_MAX then Err(ArithmeticOverflow)
    else Ok(LEAF_CELL_FIXED_LEN + counted)
  }

  lemma LeafOffset(ps: PageSize, s: Bytes, i: nat) returns (off: nat)
    requires IsLeaf(ps, s) && i < Count(s)
    ensures PointerAt(s, LEAF_HEADER_LEN, i) == Ok(off)
    ensures off + LEAF_CELL_FIXED_LEN <= |s| - CHECKSUM_LEN && off + CellLen(Local(ps), s, off) <= |s| - CHECKSUM_LEN
    ensures Start(s) <= off
    ensures Cells(Local(ps), s)[i] == s[off..off + CellLen(Local(ps), s, off)]
  {
    off := Offsets(LEAF_HEADER_LEN, s)[i];
    assert CellIn(Local(ps), s, off);
  }

  /** On a leaf page the readers return its cells. */
  lemma LeafReaders(ps: PageSize, s: Bytes, i: nat)
    requires IsLeaf(ps, s) && i < Count(s)
    ensures var cell := DecodeCells(Cells(Local(ps), s))[i];
      LeafKeyAt(s, i) == Ok(cell.key) && LeafCellAt(s, i, MaxLocal(ps)) == Ok(cell)
  {
    hide Wf, Cells, I64, U32;
    var off := LeafOffset(ps, s, i);
    CellReads(s, off, CellLen(Local(ps), s, off), Cells(Local(ps), s)[i]);
  }

  /** Reading a cell field by field out of its page. */
  lemma CellReads(s: Bytes, off: nat, len: nat, cell: Bytes)
    requires LEAF_CELL_FIXED_LEN <= len && off + len <= |s| && cell == s[off..off + len]
    ensures I64(s, off) == I64(cell, 0) && U32(s, off + 8) == U32(cell, 8) && U32(s, off + 12) == U32(cell, 12)
    ensures s[off + LEAF_CELL_FIXED_LEN..off + len] == cell[LEAF_CELL_FIXED_LEN..]
  {
    hide FromBE, FromBits;
    SliceOfSlice(s, off, off + len, 0, 8);
    SliceOfSlice(s, off, off + len, 8, 12);
    SliceOfSlice(s, off, off + len, 12, 16);
    SliceOfSlice(s, off, off + len, 16, len);
    assert cell[16..] == cell[16..len];
  }

  /** The length a split copies is the whole cell. */
  lemma LeafCopies(ps: PageSize, s: Bytes, i: nat)
    requires IsLeaf(ps, s) && i < Count(s)
    ensures var cell := Cells(Local(ps), s)[i];
      && LeafCellByteLen(s, i, MaxLocal(ps)) == Ok(|cell|)
      && PointerAt(s, LEAF_HEADER_LEN, i).Ok?
      && ReadVec(s, PointerAt(s, LEAF_HEADER_LEN, i).value, |cell|) == Ok(cell)
  {
    var off := LeafOffset(ps, s, i);
  }

  // ------------------------------------------------------------------
  // Interior readers.
  // ------------------------------------------------------------------

  function InteriorKeyAt(buf: Bytes, index: nat): Result<i64>
  {
    var offset :- PointerAt(buf, INTERIOR_HEADER_LEN, index);
    ReadI64(buf, offset)
  }

  function InteriorChildAt(buf: Bytes, index: nat): Result<nat>
  {
    var offset :- PointerAt(buf, INTERIOR_HEADER_LEN, index);
    ReadU32(buf, offset + 8)
  }

  function InteriorRightmost(buf: Bytes): Result<nat> { ReadU32(buf, 5) }

  lemma InteriorOffset(s: Bytes, i: nat) returns (off: nat)
    requires Wf(InteriorKind, s) && i < Count(s)
    ensures PointerAt(s, INTERIOR_HEADER_LEN, i) == Ok(off)
    ensures Start(s) <= off && off + INTERIOR_CELL_LEN <= |s| - CHECKSUM_LEN
    ensures Cells(InteriorKind, s)[i] == s[off..off + INTERIOR_CELL_LEN]
    ensures Offsets(INTERIOR_HEADER_LEN, s)[i] == off
  {
    off := Offsets(INTERIOR_HEADER_LEN, s)[i];
    assert CellIn(InteriorKind, s, off);
  }

  lemma InteriorReaders(s: Bytes, i: nat)
    requires Wf(InteriorKind, s) && i < Count(s)
    ensures InteriorKeyAt(s, i) == Ok(InteriorValue(s).keys[i])
    ensures InteriorChildAt(s, i) == Ok(InteriorValue(s).children[i])
  {
    var off := InteriorOffset(s, i);
    SliceOfSlice(s, off, off + 12, 0, 8);
    SliceOfSlice(s, off, off + 12, 8, 12);
  }

  // ------------------------------------------------------------------
  // The format, byte by byte.
  // ------------------------------------------------------------------

  /** A leaf page: type 1, the cell count, the content start, one pointer a cell;
      a cell is key, payload length, first overflow page and local bytes. */
  lemma LeafFormat(ps: PageSize, s: Bytes, i: nat)
    requires IsLeaf(ps, s) && i < 256 * s[1] as nat + s[2] as nat
    ensures DecodePage(ps, s).Leaf? && s[0] == 1
    ensures |DecodePage(ps, s).cells| == 256 * s[1] as nat + s[2] as nat
    ensures 5 + 2 * i + 2 <= |s|
    ensures var at := 256 * s[5 + 2 * i] as nat + s[6 + 2 * i] as nat; var cell := DecodePage(ps, s).cells[i];
      && 256 * s[3] as nat + s[4] as nat <= at && at + 16 + |cell.local| <= ps - 8
      && s[at..at + 16] == I64Bytes(cell.key) + ToBE(cell.payloadLen, 4) + ToBE(cell.overflow, 4)
      && s[at + 16..at + 16 + |cell.local|] == cell.local
      && |cell.local| == if cell.payloadLen <= ps - 43 then cell.payloadLen else ps - 43
  {
    hide Spans, Cells, DecodeCell, ToBE;
    var off := LeafCellBytes(ps, s, i);
  }

  lemma LeafCellBytes(ps: PageSize, s: Bytes, i: nat) returns (off: nat)
    requires IsLeaf(ps, s) && i < Count(s)
    ensures |s| >= 5 + 2 * i + 2 && off == U16(s, 5 + 2 * i) && Start(s) <= off
    ensures var cell := DecodeCells(Cells(Local(ps), s))[i];
      && off + 16 + |cell.local| <= |s| - 8
      && s[off..off + 16] == I64Bytes(cell.key) + ToBE(cell.payloadLen, 4) + ToBE(cell.overflow, 4)
      && s[off + 16..off + 16 + |cell.local|] == cell.local
      && |cell.local| == Min(cell.payloadLen, MaxLocal(ps))
  {
    off := LeafOffset(ps, s, i);
    hide Wf, Cells, I64, U32, ToBE;
    CellReads(s, off, CellLen(Local(ps), s, off), Cells(Local(ps), s)[i]);
    CellBytesAre(s, off);
  }

  lemma CellBytesAre(s: Bytes, off: nat)
    requires off + 16 <= |s|
    ensures s[off..off + 16] == I64Bytes(I64(s, off)) + ToBE(U32(s, off + 8), 4) + ToBE(U32(s, off + 12), 4)
    ensures s[off..off + 12] == I64Bytes(I64(s, off)) + ToBE(U32(s, off + 8), 4)
  {
    hide ToBE, I64, U32;
    I64Reads(s, off);
    U32Reads(s, off + 8);
    U32Reads(s, off + 12);
  }

  /** An interior page: type 2, the number of separators, the content start, the
      rightmost child, one pointer a cell; a cell is a key and the child below it. */
  lemma InteriorFormat(ps: PageSize, s: Bytes, i: nat)
    requires IsInterior(ps, s) && i < 256 * s[1] as nat + s[2] as nat
    ensures DecodePage(ps, s).Interior? && s[0] == 2
    ensures var keys, children := DecodePage(ps, s).keys, DecodePage(ps, s).children;
      && |keys| == 256 * s[1] as nat + s[2] as nat && |children| == |keys| + 1
      && s[5..9] == ToBE(children[|keys|], 4) && 9 + 2 * i + 2 <= |s|
      && var at := 256 * s[9 + 2 * i] as nat + s[10 + 2 * i] as nat;
         && 256 * s[3] as nat + s[4] as nat <= at && at + 12 <= ps - 8
         && s[at..at + 12] == I64Bytes(keys[i]) + ToBE(children[i], 4)
  {
    hide Spans, Cells, KeysOf, ChildrenOf, ToBE;
    InteriorLayout(s);
    var off := InteriorCellBytes(s, i);
  }

  lemma InteriorLayout(s: Bytes)
    requires Wf(InteriorKind, s)
    ensures var v := InteriorValue(s);
      |s| >= 17 && |v.keys| == Count(s) && |v.children| == |v.keys| + 1 && s[5..9] == ToBE(v.children[|v.keys|], 4)
  {
    hide Spans, Cells, ToBE, KeysOf, ChildrenOf;
    U32Reads(s, 5);
  }

  lemma InteriorHas(s: Bytes, i: nat)
    requires Wf(InteriorKind, s) && i < Count(s)
    ensures |s| >= 9 + 2 * i + 2 && i < |InteriorValue(s).keys| && i < |InteriorValue(s).children|
  {
    hide Spans, Cells;
  }

  lemma InteriorCellBytes(s: Bytes, i: nat) returns (off: nat)
    requires Wf(InteriorKind, s) && i < Count(s)
    ensures |s| >= 9 + 2 * i + 2 && off == U16(s, 9 + 2 * i) && Start(s) <= off && off + 12 <= |s| - 8
    ensures i < |InteriorValue(s).keys| && i < |InteriorValue(s).children|
    ensures s[off..off + 12] == I64Bytes(InteriorValue(s).keys[i]) + ToBE(InteriorValue(s).children[i], 4)
  {
    hide Wf, Spans, Cells, ToBE, KeysOf, ChildrenOf, I64, U32;
    off := InteriorOffset(s, i);
    InteriorHas(s, i);
    InteriorReaders(s, i);
    CellBytesAre(s, off);
  }

  /** An overflow page: type 3, the next page of the chain, data up to the trailer. */
  lemma OverflowFormat(ps: PageSize, s: Bytes)
    requires |s| == ps && s[0] == 3
    ensures DecodePage(ps, s).Overflow?
    ensures s[1..5] == ToBE(DecodePage(ps, s).next, 4) && s[5..ps - 8] == DecodePage(ps, s).data
  {
    BEInjective(s[1..5]);
  }
}
