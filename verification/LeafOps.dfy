/** Inserting into a leaf, or splitting it (`leaf_insert_or_split` and
    `leaf_split_with_new_cell` in `btree/mod.rs`). */
module LeafOps {
  import opened Errors
  import opened Codec
  import opened Page
  import opened Slotted
  import opened PageModel
  import opened Nodes
  import opened Builder
  import opened RowCodec
  import opened Pool
  import opened Tree
  import opened TreeOps
  import opened OverflowChains
  import opened Mutate
  import Disk

  // ------------------------------------------------------------------
  // When a cell has room.
  // ------------------------------------------------------------------

  predicate LensFit(ps: PageSize, lens: seq<nat>) {
    LEAF_HEADER_LEN + 2 * |lens| + Sum(lens) <= UsableU16(ps)
  }

  /** Both count-based halves fit a fresh page. The code does not check this. */
  predicate HalvesFit(ps: PageSize, lens: seq<nat>) {
    LensFit(ps, lens[..|lens| / 2]) && LensFit(ps, lens[|lens| / 2..])
  }

  /** Both halves can at least be built, be it over their own pointer arrays. */
  predicate HalvesBuild(ps: PageSize, lens: seq<nat>) {
    Sum(lens[..|lens| / 2]) <= UsableU16(ps) && Sum(lens[|lens| / 2..]) <= UsableU16(ps)
  }

  /** What becomes of a new cell: it goes into the page; the page splits into
      halves that fit; a half overruns its pointer array; the build aborts. */
  datatype Fate = Goes | Splits | Overruns | Aborts
  {
    predicate Keeps() {
      Goes? || Splits?
    }
  }

  function SplitFate(ps: PageSize, lens: seq<nat>): Fate {
    if HalvesFit(ps, lens) then Splits else if HalvesBuild(ps, lens) then Overruns else Aborts
  }

  function FateOf(ps: PageSize, s: Bytes, index: nat, len: nat): Fate
    requires IsLeaf(ps, s) && index <= Count(s)
  {
    if HasRoom(LEAF_HEADER_LEN, s, len) then Goes
    else SplitFate(ps, SeqInsert<nat>(Lens(Cells(Local(ps), s)), index, len))
  }

  lemma FreeSpaceIsRoom(ps: PageSize, s: Bytes, len: nat)
    requires IsLeaf(ps, s) && len <= U16_MAX - 2
    ensures FreeSpace(s, LEAF_HEADER_LEN).Ok?
    ensures FreeSpace(s, LEAF_HEADER_LEN).value >= Min(len + POINTER_LEN, U16_MAX) <==> HasRoom(LEAF_HEADER_LEN, s, len)
  {
    hide Spans;
  }

  // ------------------------------------------------------------------
  // Cells and rows of the leaf with the new cell in.
  // ------------------------------------------------------------------

  /** `key` goes in at `index` and keeps the cells ascending. */
  predicate InsertPoint(cells: seq<Cell>, index: nat, key: i64) {
    && index <= |cells|
    && (forall j | 0 <= j < index :: cells[j].key < key)
    && (forall j | index <= j < |cells| :: key < cells[j].key)
  }

  lemma LeafWithCell(ps: PageSize, p: PageMap, cells: seq<Cell>, index: nat, c: Cell, lo: int, hi: int,
                     bound: nat, bound': nat)
    requires LeafOk(ps, p, cells, lo, hi, bound) && InsertPoint(cells, index, c.key) && lo <= c.key < hi
    requires CellOk(ps, p, c, bound') && bound <= bound'
    ensures LeafOk(ps, p, SeqInsert(cells, index, c), lo, hi, bound')
  {
    hide CellOk, EntryOf, SortedCells, InsertPoint, LeafEntries;
    LeafExtends(ps, p, p, cells, lo, hi, bound, bound');
    assert index <= |cells| by {
      PointInRange(cells, index, c.key);
    }
    SortedInsert(cells, index, c);
    var cs := SeqInsert(cells, index, c);
    forall j | 0 <= j < |cs|
      ensures lo <= cs[j].key < hi && CellOk(ps, p, cs[j], bound')
    {
      if j < index {
        assert cs[j] == cells[j];
      } else if j > index {
        assert cs[j] == cells[j - 1];
      }
    }
  }

  lemma PointInRange(cells: seq<Cell>, index: nat, key: i64)
    requires InsertPoint(cells, index, key)
    ensures index <= |cells|
  {
  }

  lemma EntriesInsert(ps: PageSize, p: PageMap, cells: seq<Cell>, index: nat, c: Cell)
    requires index <= |cells|
    ensures LeafEntries(ps, p, SeqInsert(cells, index, c))
         == SeqInsert(LeafEntries(ps, p, cells), index, EntryOf(ps, p, c))
  {
    hide EntryOf;
  }

  lemma SortedInsert(cells: seq<Cell>, index: nat, c: Cell)
    requires SortedCells(cells) && InsertPoint(cells, index, c.key)
    ensures SortedCells(SeqInsert(cells, index, c))
  {
    var cs := SeqInsert(cells, index, c);
    forall i, j | 0 <= i < j < |cs|
      ensures cs[i].key < cs[j].key
    {
      assert cs[i] == if i < index then cells[i] else if i == index then c else cells[i - 1];
      assert cs[j] == if j < index then cells[j] else if j == index then c else cells[j - 1];
    }
  }

  lemma LeafWithout(ps: PageSize, p: PageMap, cells: seq<Cell>, index: nat, lo: int, hi: int, bound: nat)
    requires LeafOk(ps, p, cells, lo, hi, bound) && index < |cells|
    ensures LeafOk(ps, p, SeqRemove(cells, index), lo, hi, bound)
    ensures InsertPoint(SeqRemove(cells, index), index, cells[index].key)
  {
    hide CellOk;
    var cs := SeqRemove(cells, index);
    forall j | 0 <= j < |cs|
      ensures cs[j] == if j < index then cells[j] else cells[j + 1]
    {
    }
  }

  lemma EntriesRemove(ps: PageSize, p: PageMap, cells: seq<Cell>, index: nat)
    requires index < |cells|
    ensures LeafEntries(ps, p, SeqRemove(cells, index)) == SeqRemove(LeafEntries(ps, p, cells), index)
  {
    hide EntryOf;
  }

  lemma SortedHalves(cells: seq<Cell>, mid: nat)
    requires SortedCells(cells) && mid < |cells|
    ensures SortedCells(cells[..mid]) && SortedCells(cells[mid..])
    ensures forall i | 0 <= i < mid :: cells[i].key < cells[mid].key
    ensures forall i | mid <= i < |cells| :: cells[mid].key <= cells[i].key
  {
  }

  lemma LeafHalves(ps: PageSize, p: PageMap, cells: seq<Cell>, mid: nat, lo: int, hi: int, bound: nat)
    requires LeafOk(ps, p, cells, lo, hi, bound) && mid < |cells|
    ensures lo <= cells[mid].key <= hi
    ensures LeafOk(ps, p, cells[..mid], lo, cells[mid].key, bound)
    ensures LeafOk(ps, p, cells[mid..], cells[mid].key, hi, bound)
  {
    hide CellOk, SortedCells;
    SortedHalves(cells, mid);
    var r := cells[mid..];
    forall i | 0 <= i < |r|
      ensures cells[mid].key <= r[i].key < hi && CellOk(ps, p, r[i], bound)
    {
      assert r[i] == cells[mid + i];
    }
  }

  lemma EntriesHalves(ps: PageSize, p: PageMap, cells: seq<Cell>, mid: nat)
    requires mid <= |cells|
    ensures LeafEntries(ps, p, cells[..mid]) + LeafEntries(ps, p, cells[mid..]) == LeafEntries(ps, p, cells)
  {
    hide EntryOf;
  }

  lemma LeafIsTree(ps: PageSize, p: PageMap, id: nat, cells: seq<Cell>, lo: int, hi: int, bound: nat)
    requires id in p && p[id] == Leaf(cells) && id >= FIRST_DATA_PAGE_ID
    requires LeafOk(ps, p, cells, lo, hi, bound) && bound <= id
    ensures TreeOk(ps, p, id, lo, hi, 0) && Contents(ps, p, id, 0) == LeafEntries(ps, p, cells)
  {
    LeafExtends(ps, p, p, cells, lo, hi, bound, id);
    hide LeafOk;
  }

  lemma LeafDecodes(ps: PageSize, buf: Bytes)
    requires IsLeaf(ps, buf)
    ensures DecodePage(ps, buf) == Leaf(DecodeCells(Cells(Local(ps), buf)))
  {
  }

  // ------------------------------------------------------------------
  // Putting leaf pages.
  // ------------------------------------------------------------------

  /** A leaf page put under a fresh id stands for its cells. */
  lemma LeafPut(ps: PageSize, v: Disk.Pages, id: nat, buf: Bytes, w: Disk.Pages, cells: seq<Cell>,
                lo: int, hi: int, bound: nat)
    requires id !in v && w == v[id := buf] && id >= FIRST_DATA_PAGE_ID && bound <= id
    requires IsLeaf(ps, buf) && DecodeCells(Cells(Local(ps), buf)) == cells
    requires LeafOk(ps, Decoded(ps, v), cells, lo, hi, bound)
    ensures TreeOk(ps, Decoded(ps, w), id, lo, hi, 0)
    ensures Contents(ps, Decoded(ps, w), id, 0) == LeafEntries(ps, Decoded(ps, v), cells)
  {
    hide IsLeaf, DecodePage, LeafOk, DecodeCells, TreeOk, Contents, LeafEntries, Decoded;
    LeafDecodes(ps, buf);
    PageAdded(ps, v, id, buf);
    LeafExtends(ps, Decoded(ps, v), Decoded(ps, w), cells, lo, hi, bound, bound);
    LeafIsTree(ps, Decoded(ps, w), id, cells, lo, hi, bound);
  }

  // ------------------------------------------------------------------
  // Inserting or splitting.
  // ------------------------------------------------------------------

  /** `buf` is a leaf over `[lo, hi)`, and `key` belongs at `index`. */
  predicate LeafSpot(ps: PageSize, p: PageMap, buf: Bytes, index: nat, key: i64, lo: int, hi: int, bound: nat) {
    && IsLeaf(ps, buf)
    && LeafOk(ps, p, LeafCells(ps, buf), lo, hi, bound)
    && InsertPoint(LeafCells(ps, buf), index, key) && lo <= key < hi
  }

  function LeafCells(ps: PageSize, buf: Bytes): seq<Cell>
    requires IsLeaf(ps, buf)
  {
    DecodeCells(Cells(Local(ps), buf))
  }

  /** The leaf's rows with `e` in at `index`. */
  function WithRow(ps: PageSize, p: PageMap, buf: Bytes, index: nat, e: Entry): seq<Entry>
    requires IsLeaf(ps, buf) && index <= |LeafCells(ps, buf)|
  {
    SeqInsert(LeafEntries(ps, p, LeafCells(ps, buf)), index, e)
  }

  lemma SpotIndex(ps: PageSize, p: PageMap, buf: Bytes, index: nat, key: i64, lo: int, hi: int, bound: nat)
    requires LeafSpot(ps, p, buf, index, key, lo, hi, bound)
    ensures IsLeaf(ps, buf) && Wf(Local(ps), buf) && |buf| == ps
    ensures index <= |LeafCells(ps, buf)| == |Cells(Local(ps), buf)| == Count(buf)
    ensures NumCells(buf) == Ok(Count(buf))
  {
    hide LeafOk, Spans;
  }

  /** The cells of a leaf with the new one among them. */
  lemma CellsWithNew(ps: PageSize, p: PageMap, buf: Bytes, index: nat, cell: Bytes, key: i64, row: Row,
                     lo: int, hi: int, bound: nat, all: seq<Bytes>)
    requires LeafSpot(ps, p, buf, index, key, lo, hi, bound) && CellHolds(ps, p, cell, key, row, bound)
    requires index <= |Cells(Local(ps), buf)| && all == SeqInsert(Cells(Local(ps), buf), index, cell)
    ensures forall i | 0 <= i < |all| :: WfCell(Local(ps), all[i])
    ensures LeafOk(ps, p, DecodeCells(all), lo, hi, bound)
    ensures index <= |LeafCells(ps, buf)|
    ensures LeafEntries(ps, p, DecodeCells(all)) == WithRow(ps, p, buf, index, Entry(key, row, |cell| + POINTER_LEN))
  {
    hide Wf, Cells, LeafOk, CellOk, EntryOf, InsertPoint, WfCell, LeafEntries, SeqInsert, DecodeCell;
    var cells := Cells(Local(ps), buf);
    LeafWithCell(ps, p, DecodeCells(cells), index, DecodeCell(cell), lo, hi, bound, bound);
    EntriesInsert(ps, p, DecodeCells(cells), index, DecodeCell(cell));
    MapsOverInsert(cells, index, cell);
    AllWf(ps, buf, index, cell, all);
  }

  lemma AllWf(ps: PageSize, buf: Bytes, index: nat, cell: Bytes, all: seq<Bytes>)
    requires IsLeaf(ps, buf) && WfCell(Local(ps), cell)
    requires index <= |Cells(Local(ps), buf)| && all == SeqInsert(Cells(Local(ps), buf), index, cell)
    ensures forall i | 0 <= i < |all| :: WfCell(Local(ps), all[i])
  {
    hide Wf, Cells, WfCell;
    var cells := Cells(Local(ps), buf);
    forall i | 0 <= i < |cells|
      ensures WfCell(Local(ps), cells[i])
    {
      CellsCount(ps, buf);
      CellsAreWf(Local(ps), buf, i);
    }
    forall i | 0 <= i < |all|
      ensures WfCell(Local(ps), all[i])
    {
      assert all[i] == if i < index then cells[i] else if i == index then cell else cells[i - 1];
    }
  }

  lemma CellsCount(ps: PageSize, buf: Bytes)
    requires IsLeaf(ps, buf)
    ensures |Cells(Local(ps), buf)| == Count(buf)
  {
    hide Spans;
  }

  /** Copying the page, cell in, under a fresh id. */
  lemma InsertedLeaf(ps: PageSize, v: Disk.Pages, buf: Bytes, index: nat, cell: Bytes, key: i64, row: Row,
                     lo: int, hi: int, id: nat, after: Bytes, w: Disk.Pages)
    requires LeafSpot(ps, Decoded(ps, v), buf, index, key, lo, hi, id)
    requires CellHolds(ps, Decoded(ps, v), cell, key, row, id)
    requires |buf| >= 5 && HasRoom(LEAF_HEADER_LEN, buf, |cell|)
    requires Inserted(buf, LEAF_HEADER_LEN, index, cell) == Ok(after)
    requires id !in v && w == v[id := after] && id >= FIRST_DATA_PAGE_ID
    ensures index <= |LeafCells(ps, buf)|
    ensures TreeOk(ps, Decoded(ps, w), id, lo, hi, 0)
    ensures Contents(ps, Decoded(ps, w), id, 0)
         == WithRow(ps, Decoded(ps, v), buf, index, Entry(key, row, |cell| + POINTER_LEN))
  {
    hide Wf, Cells, LeafOk, CellOk, EntryOf, InsertPoint, WfCell, LeafEntries, SeqInsert, DecodeCell, Inserted,
      TreeOk, Contents, DecodeCells, Decoded, HasRoom, WithRow;
    var p := Decoded(ps, v);
    SpotIndex(ps, p, buf, index, key, lo, hi, id);
    var all := SeqInsert(Cells(Local(ps), buf), index, cell);
    CellsWithNew(ps, p, buf, index, cell, key, row, lo, hi, id, all);
    var t := InsertedRefines(Local(ps), buf, index, cell);
    LeafPut(ps, v, id, after, w, DecodeCells(all), lo, hi, id);
  }

  lemma HalvesFitCells(ps: PageSize, all: seq<Bytes>)
    ensures HalvesFit(ps, Lens(all)) <==>
      Fits(LEAF_HEADER_LEN, ps, all[..|all| / 2]) && Fits(LEAF_HEADER_LEN, ps, all[|all| / 2..])
  {
    var mid := |all| / 2;
    LensParts(all, mid);
  }

  lemma LensInsert(cells: seq<Bytes>, index: nat, cell: Bytes)
    requires index <= |cells|
    ensures Lens(SeqInsert(cells, index, cell)) == SeqInsert<nat>(Lens(cells), index, |cell|)
  {
  }

  /** Both halves, under two fresh ids. */
  lemma SplitLeaf(ps: PageSize, v: Disk.Pages, all: seq<Bytes>, lo: int, hi: int, l: u32, leftBuf: Bytes, r: u32,
                  rightBuf: Bytes, w: Disk.Pages)
    requires LeafOk(ps, Decoded(ps, v), DecodeCells(all), lo, hi, l) && |all| > 0
    requires forall i | 0 <= i < |all| :: WfCell(Local(ps), all[i])
    requires HalvesFit(ps, Lens(all))
    requires BuiltLeaf(ps, all[..|all| / 2]) == Ok(leftBuf) && BuiltLeaf(ps, all[|all| / 2..]) == Ok(rightBuf)
    requires l !in v && r !in v && FIRST_DATA_PAGE_ID <= l < r && w == v[l := leftBuf][r := rightBuf]
    ensures ResultOk(ps, Decoded(ps, w), Split(l, r, DecodeCells(all)[|all| / 2].key), lo, hi, 0,
                     LeafEntries(ps, Decoded(ps, v), DecodeCells(all)))
  {
    hide LeafOk, TreeOk, Contents, LeafEntries, Decoded, HalvesFit, WfCell, BuiltLeaf, IsLeaf, Lens, DecodeCell;
    var mid := |all| / 2;
    var cells := DecodeCells(all);
    var a, b := all[..mid], all[mid..];
    HalvesFitCells(ps, all);
    var lt := BuiltLeafRefines(ps, a);
    var rt := BuiltLeafRefines(ps, b);
    assert DecodeCells(a) == cells[..mid] && DecodeCells(b) == cells[mid..];
    hide DecodeCells;
    LeafHalves(ps, Decoded(ps, v), cells, mid, lo, hi, l);
    EntriesHalves(ps, Decoded(ps, v), cells, mid);
    var u := v[l := leftBuf];
    LeafPut(ps, v, l, leftBuf, u, cells[..mid], lo, cells[mid].key, l);
    DecodedExtends(ps, v, u);
    DecodedExtends(ps, u, w);
    LeafExtends(ps, Decoded(ps, v), Decoded(ps, u), cells[mid..], cells[mid].key, hi, l, l);
    LeafPut(ps, u, r, rightBuf, w, cells[mid..], cells[mid].key, hi, l);
    TreeExtends(ps, Decoded(ps, u), Decoded(ps, w), l, lo, cells[mid].key, 0);
  }

  /** The fate of a split, decided by lengths, is what building shows. */
  lemma SplitFateShows(ps: PageSize, all: seq<Bytes>)
    requires LEAF_HEADER_LEN + 2 * |all| <= ps && forall i | 0 <= i < |all| :: WfCell(Local(ps), all[i])
    ensures CannotBuild(ps, all) <==> SplitFate(ps, Lens(all)).Aborts?
    ensures SplitFate(ps, Lens(all)).Overruns? ==>
      !NodePage(ps, BuiltLeaf(ps, all[..|all| / 2]).value) || !NodePage(ps, BuiltLeaf(ps, all[|all| / 2..]).value)
  {
    hide BuiltLeaf, IsLeaf, IsInterior, LensFit, WfCell, Lens;
    var mid := |all| / 2;
    var a, b := all[..mid], all[mid..];
    HalvesFitCells(ps, all);
    LensParts(all, mid);
    forall i | 0 <= i < |all|
      ensures |all[i]| <= U16_MAX
    {
      CellShort(ps, all[i]);
    }
    BuiltLeafOutcome(ps, a);
    BuiltLeafOutcome(ps, b);
    if Fits(LEAF_HEADER_LEN, ps, a) {
      FitIsLess(ps, a);
    }
    if Fits(LEAF_HEADER_LEN, ps, b) {
      FitIsLess(ps, b);
    }
  }

  predicate NodePage(ps: PageSize, s: Bytes) {
    IsLeaf(ps, s) || IsInterior(ps, s)
  }

  lemma FitIsLess(ps: PageSize, cells: seq<Bytes>)
    requires Fits(LEAF_HEADER_LEN, ps, cells)
    ensures Sum(Lens(cells)) <= UsableU16(ps)
  {
  }

  /** The pages of the lower and the upper half of the cells, by count. */
  method BuildHalves(ps: PageSize, allCells: seq<Bytes>) returns (r: Result<(Bytes, Bytes)>)
    ensures r.Ok? ==>
      && BuiltLeaf(ps, allCells[..|allCells| / 2]) == Ok(r.value.0) && |r.value.0| == ps
      && BuiltLeaf(ps, allCells[|allCells| / 2..]) == Ok(r.value.1) && |r.value.1| == ps
    ensures r.Err? ==> r.error.OutOfRoom() && CannotBuild(ps, allCells)
  {
    hide BuiltLeaf;
    var mid := |allCells| / 2;
    var leftBuf :- BuildLeafPage(ps, allCells[..mid]);
    var rightBuf :- BuildLeafPage(ps, allCells[mid..]);
    return Ok((leftBuf, rightBuf));
  }

  /** The pages put for the halves of `all` are what building them gives, fit or
      unfit, and the separator is the first key of the upper half. */
  ghost predicate SplitPut(ps: PageSize, all: seq<Bytes>, view: Disk.Pages, r: NodeResult) {
    && r.Split? && r.left in view && r.right in view && |all| > 0
    && BuiltLeaf(ps, all[..|all| / 2]) == Ok(view[r.left])
    && BuiltLeaf(ps, all[|all| / 2..]) == Ok(view[r.right])
    && r.separator == DecodeCells(all)[|all| / 2].key
  }

  predicate CannotBuild(ps: PageSize, all: seq<Bytes>) {
    BuiltLeaf(ps, all[..|all| / 2]).Err? || BuiltLeaf(ps, all[|all| / 2..]).Err?
  }

  /** What a split leaves, whether or not its halves fit. */
  ghost predicate SplitOutcome(ps: PageSize, all: seq<Bytes>, view: Disk.Pages, next: nat, r: Result<NodeResult>) {
    match r
    case Ok(result) => SplitPut(ps, all, view, result)
    case Err(e) => CannotBuild(ps, all) || (e == ArithmeticOverflow && next == U32_MAX)
  }

  lemma HalvesPut(ps: PageSize, all: seq<Bytes>, v: Disk.Pages, l: u32, leftBuf: Bytes, r: u32, rightBuf: Bytes,
                  w: Disk.Pages, separator: i64)
    requires |all| > 0 && l != r && w == v[l := leftBuf][r := rightBuf] && separator == DecodeCells(all)[|all| / 2].key
    requires BuiltLeaf(ps, all[..|all| / 2]) == Ok(leftBuf) && BuiltLeaf(ps, all[|all| / 2..]) == Ok(rightBuf)
    ensures SplitPut(ps, all, w, Split(l, r, separator))
  {
    hide BuiltLeaf, DecodeCells;
  }

  /** What trying to place a cell leads to: an error only if building aborts or
      ids ran out, one page exactly if the cell goes into its leaf, pages that are no tree exactly if a half overruns, and the
      leaf's rows with `row` in at `index` whenever the cell itself holds it. */
  ghost predicate Placed(ps: PageSize, p: PageMap, buf: Bytes, index: nat, cell: Bytes, key: i64, row: Row,
                         lo: int, hi: int, bound: nat, fate: Fate, q: PageMap, next: nat, r: Result<NodeResult>)
    requires IsLeaf(ps, buf) && index <= |LeafCells(ps, buf)|
  {
    match r
    case Ok(result) =>
      && !fate.Aborts? && (result.Replaced? <==> fate.Goes?) && (fate.Overruns? ==> Broken(q, result))
      && (fate.Keeps() && CellHolds(ps, p, cell, key, row, bound) ==>
            ResultOk(ps, q, result, lo, hi, 0, WithRow(ps, p, buf, index, Entry(key, row, |cell| + POINTER_LEN))))
    case Err(e) => e.OutOfRoom() && (fate.Aborts? || (e == ArithmeticOverflow && next == U32_MAX))
  }

  /** Put two pages under the next two ids. */
  method PutBoth(pool: BufferPool, first: Bytes, second: Bytes) returns (r: Result<(u32, u32)>)
    requires pool.Valid() && |first| == |second| == pool.pager.pageSize
    modifies pool, pool.pager.file
    ensures pool.Valid() && pool.Grown()
    ensures r.Ok? ==>
      && r.value.0 == old(pool.nextPageId) && r.value.1 == r.value.0 + 1 && pool.nextPageId == r.value.1 + 1
      && r.value.0 !in old(pool.view) && r.value.1 !in old(pool.view)
      && pool.view == old(pool.view)[r.value.0 := first][r.value.1 := second]
    ensures r.Err? ==> r.error == ArithmeticOverflow && pool.nextPageId == U32_MAX
  {
    hide BufferPool.Inv;
    var firstId :- pool.PutFresh(first);
    var secondId :- pool.PutFresh(second);
    return Ok((firstId, secondId));
  }

  /** In any case the pages put are the built halves of all the cells; when both
      halves fit they hold the leaf's rows and the new one. */
  method LeafSplitWithNewCell(pool: BufferPool, leafBuf: Bytes, insertIdx: nat, newCell: Bytes,
                              ghost key: i64, ghost row: Row, ghost lo: int, ghost hi: int)
    returns (r: Result<NodeResult>)
    requires pool.Valid()
    requires LeafSpot(pool.pager.pageSize, Decoded(pool.pager.pageSize, pool.view), leafBuf, insertIdx, key, lo, hi,
                      pool.nextPageId)
    requires WfCell(Local(pool.pager.pageSize), newCell)
    modifies pool, pool.pager.file
    ensures pool.Valid() && pool.Grown()
    ensures r.Ok? ==> r.value.Split? && Newest(r.value, old(pool.nextPageId), pool.nextPageId)
    ensures insertIdx <= |LeafCells(pool.pager.pageSize, leafBuf)|
    ensures SplitOutcome(pool.pager.pageSize, SeqInsert(Cells(Local(pool.pager.pageSize), leafBuf), insertIdx, newCell),
                         pool.view, pool.nextPageId, r)
    ensures var ps := pool.pager.pageSize;
      Placed(ps, Decoded(ps, old(pool.view)), leafBuf, insertIdx, newCell, key, row, lo, hi, old(pool.nextPageId),
             SplitFate(ps, Lens(SeqInsert(Cells(Local(ps), leafBuf), insertIdx, newCell))),
             Decoded(ps, pool.view), pool.nextPageId, r)
  {
    hide BufferPool.Inv, Decoded, LeafSpot, CellHolds, HalvesFit, HalvesBuild, Lens, IsLeaf, Wf, Cells, BuiltLeaf,
      ResultOk, WithRow, LeafOk, WfCell, LeafEntries, DecodeCells, SplitPut, CannotBuild, SeqInsert, SplitOutcome, Broken;
    var ps := pool.pager.pageSize;
    ghost var v := pool.view;
    pool.ValidIds();
    SpotIndex(ps, Decoded(ps, v), leafBuf, insertIdx, key, lo, hi, pool.nextPageId);
    var allCells := ReadCells(ps, leafBuf);
    allCells := SeqInsert(allCells, Min(insertIdx, |allCells|), newCell);
    ghost var all := allCells;
    SplitCells(ps, leafBuf, insertIdx, newCell, all);
    r := PutHalves(pool, allCells);
    SplitPlaced(ps, v, leafBuf, insertIdx, newCell, key, row, lo, hi, all, pool.view, pool.nextPageId, r);
  }

  /** The cells to be split: well formed, few enough, each with its key. */
  lemma SplitCells(ps: PageSize, leafBuf: Bytes, index: nat, cell: Bytes, all: seq<Bytes>)
    requires IsLeaf(ps, leafBuf) && WfCell(Local(ps), cell)
    requires index <= |Cells(Local(ps), leafBuf)| && all == SeqInsert(Cells(Local(ps), leafBuf), index, cell)
    ensures |all| > 0 && |all| == |DecodeCells(all)| && LEAF_HEADER_LEN + 2 * |all| <= ps
    ensures forall i | 0 <= i < |all| :: WfCell(Local(ps), all[i])
    ensures ReadI64(all[|all| / 2..][0], 0) == Ok(DecodeCells(all)[|all| / 2].key)
  {
    AllWf(ps, leafBuf, index, cell, all);
    FirstKey(leafBuf, ps, index, cell, all);
    hide WfCell;
    CellsCount(ps, leafBuf);
    hide Spans, Cells;
  }

  /** What the two pages are, put into the terms of the caller. */
  lemma SplitPlaced(ps: PageSize, v: Disk.Pages, buf: Bytes, index: nat, cell: Bytes, key: i64, row: Row,
                    lo: int, hi: int, all: seq<Bytes>, w: Disk.Pages, next: nat, r: Result<NodeResult>)
    requires IsLeaf(ps, buf) && index <= |Cells(Local(ps), buf)|
    requires all == SeqInsert(Cells(Local(ps), buf), index, cell) && LEAF_HEADER_LEN + 2 * |all| <= ps
    requires forall i | 0 <= i < |all| :: WfCell(Local(ps), all[i])
    requires r.Ok? ==>
      && TwoPut(v, w, r.value) && SplitPut(ps, all, w, r.value)
      && LeafSpot(ps, Decoded(ps, v), buf, index, key, lo, hi, r.value.left)
    requires r.Err? ==> r.error.OutOfRoom() && (CannotBuild(ps, all) || (r.error == ArithmeticOverflow && next == U32_MAX))
    ensures index <= |LeafCells(ps, buf)|
    ensures var bound := if r.Ok? then r.value.left else 0;
      Placed(ps, Decoded(ps, v), buf, index, cell, key, row, lo, hi, bound, SplitFate(ps, Lens(all)),
             Decoded(ps, w), next, r)
  {
    hide Decoded, LeafSpot, CellHolds, HalvesFit, HalvesBuild, Lens, IsLeaf, Wf, Cells, ResultOk, WithRow, LeafOk, WfCell,
      LeafEntries, DecodeCells, SeqInsert, Broken, BuiltLeaf;
    SplitFateShows(ps, all);
    if r.Ok? {
      var l, k := r.value.left, r.value.right;
      BrokenHalf(ps, all, w, r.value);
      if SplitFate(ps, Lens(all)).Splits? && CellHolds(ps, Decoded(ps, v), cell, key, row, l) {
        CellsWithNew(ps, Decoded(ps, v), buf, index, cell, key, row, lo, hi, l, all);
        SplitLeaf(ps, v, all, lo, hi, l, w[l], k, w[k], w);
      }
    }
  }

  lemma BrokenHalf(ps: PageSize, all: seq<Bytes>, w: Disk.Pages, r: NodeResult)
    requires SplitPut(ps, all, w, r)
    ensures !NodePage(ps, w[r.left]) || !NodePage(ps, w[r.right]) ==> Broken(Decoded(ps, w), r)
    ensures w[r.left] == BuiltLeaf(ps, all[..|all| / 2]).value && w[r.right] == BuiltLeaf(ps, all[|all| / 2..]).value
    ensures !CannotBuild(ps, all)
  {
    hide IsLeaf, IsInterior, BuiltLeaf, DecodeCells, Cells;
  }

  /** The result's pages, and nothing else, were added. */
  ghost predicate TwoPut(v: Disk.Pages, w: Disk.Pages, r: NodeResult) {
    && r.Split? && r.left in w && r.right in w && r.left !in v && r.right !in v
    && FIRST_DATA_PAGE_ID <= r.left < r.right
    && w == v[r.left := w[r.left]][r.right := w[r.right]]
  }

  /** Build both halves and put them under fresh ids. */
  method PutHalves(pool: BufferPool, allCells: seq<Bytes>) returns (r: Result<NodeResult>)
    requires pool.Valid() && |allCells| > 0
    requires ReadI64(allCells[|allCells| / 2..][0], 0) == Ok(DecodeCells(allCells)[|allCells| / 2].key)
    modifies pool, pool.pager.file
    ensures pool.Valid() && pool.Grown()
    ensures SplitOutcome(pool.pager.pageSize, allCells, pool.view, pool.nextPageId, r)
    ensures match r
            case Ok(result) =>
              && TwoPut(old(pool.view), pool.view, result) && SplitPut(pool.pager.pageSize, allCells, pool.view, result)
              && Newest(result, old(pool.nextPageId), pool.nextPageId)
            case Err(e) =>
              && e.OutOfRoom()
              && (CannotBuild(pool.pager.pageSize, allCells) || (e == ArithmeticOverflow && pool.nextPageId == U32_MAX))
  {
    hide BufferPool.Inv, BuiltLeaf, DecodeCells, SplitPut, CannotBuild, ReadI64;
    pool.ValidIds();
    ghost var v := pool.view;
    var halves :- BuildHalves(pool.pager.pageSize, allCells);
    var separatorKey := ReadI64(allCells[|allCells| / 2..][0], 0);
    var ids :- PutBoth(pool, halves.0, halves.1);
    HalvesPut(pool.pager.pageSize, allCells, v, ids.0, halves.0, ids.1, halves.1, pool.view, separatorKey.value);
    return Ok(Split(ids.0, ids.1, separatorKey.value));
  }

  /** Every cell of the split reads its key. */
  lemma FirstKey(leafBuf: Bytes, ps: PageSize, index: nat, cell: Bytes, all: seq<Bytes>)
    requires IsLeaf(ps, leafBuf) && |cell| >= LEAF_CELL_FIXED_LEN
    requires index <= |Cells(Local(ps), leafBuf)| && all == SeqInsert(Cells(Local(ps), leafBuf), index, cell)
    ensures |all| > 0 && |all| == |DecodeCells(all)|
    ensures ReadI64(all[|all| / 2..][0], 0) == Ok(DecodeCells(all)[|all| / 2].key)
  {
    hide Wf, Cells;
    var cells, mid := Cells(Local(ps), leafBuf), |all| / 2;
    CellsCount(ps, leafBuf);
    assert all[mid] == if mid < index then cells[mid] else if mid == index then cell else cells[mid - 1];
    if mid != index {
      var i := if mid < index then mid else mid - 1;
      CellsAreWf(Local(ps), leafBuf, i);
    }
  }

  method ReadCells(ps: PageSize, leafBuf: Bytes) returns (allCells: seq<Bytes>)
    requires IsLeaf(ps, leafBuf)
    ensures allCells == Cells(Local(ps), leafBuf)
  {
    CellsCount(ps, leafBuf);
    hide Wf, Cells, PointerAt, LeafCellByteLen, ReadVec;
    var n := NumCells(leafBuf);
    ghost var cells := Cells(Local(ps), leafBuf);
    allCells := [];
    for i := 0 to n.value
      invariant n.value == |cells| && allCells == cells[..i]
    {
      LeafCopies(ps, leafBuf, i);
      var offset := PointerAt(leafBuf, LEAF_HEADER_LEN, i);
      var len := LeafCellByteLen(leafBuf, i, MaxLocal(ps));
      var cell := ReadVec(leafBuf, offset.value, len.value);
      allCells := allCells + [cell.value];
    }
  }

  method LeafInsertOrSplit(pool: BufferPool, leafBuf: Bytes, insertIdx: nat, cell: Bytes,
                           ghost key: i64, ghost row: Row, ghost lo: int, ghost hi: int)
    returns (r: Result<NodeResult>)
    requires pool.Valid()
    requires LeafSpot(pool.pager.pageSize, Decoded(pool.pager.pageSize, pool.view), leafBuf, insertIdx, key, lo, hi,
                      pool.nextPageId)
    requires WfCell(Local(pool.pager.pageSize), cell)
    modifies pool, pool.pager.file
    ensures pool.Valid() && pool.Grown()
    ensures r.Ok? ==> Newest(r.value, old(pool.nextPageId), pool.nextPageId)
    ensures |leafBuf| >= 5 && insertIdx <= |LeafCells(pool.pager.pageSize, leafBuf)| == Count(leafBuf)
    ensures r.Ok? ==> (r.value.Replaced? <==> HasRoom(LEAF_HEADER_LEN, leafBuf, |cell|))
    ensures !HasRoom(LEAF_HEADER_LEN, leafBuf, |cell|) ==>
      SplitOutcome(pool.pager.pageSize, SeqInsert(Cells(Local(pool.pager.pageSize), leafBuf), insertIdx, cell),
                   pool.view, pool.nextPageId, r)
    ensures var ps := pool.pager.pageSize;
      Placed(ps, Decoded(ps, old(pool.view)), leafBuf, insertIdx, cell, key, row, lo, hi, old(pool.nextPageId),
             FateOf(ps, leafBuf, insertIdx, |cell|), Decoded(ps, pool.view), pool.nextPageId, r)
  {
    hide BufferPool.Inv, Decoded, LeafSpot, CellHolds, SplitFate, Lens, IsLeaf, Wf, Cells, TreeOk, Contents, WithRow,
      LeafOk, WfCell, LeafEntries, DecodeCells, HasRoom, FreeSpace, Inserted, SeqInsert, SplitOutcome, Broken;
    var ps := pool.pager.pageSize;
    ghost var v := pool.view;
    pool.ValidIds();
    SpotIndex(ps, Decoded(ps, v), leafBuf, insertIdx, key, lo, hi, pool.nextPageId);
    var needed := Min(|cell| + POINTER_LEN, U16_MAX);
    CellShort(ps, cell);
    FreeSpaceIsRoom(ps, leafBuf, |cell|);
    LensInsert(Cells(Local(ps), leafBuf), insertIdx, cell);
    var free := FreeSpace(leafBuf, LEAF_HEADER_LEN);
    if free.value >= needed {
      RoomInserts(ps, leafBuf, insertIdx, cell);
      var buf := NewCopy(leafBuf);
      var inserted := InsertCellAt(buf, LEAF_HEADER_LEN, insertIdx, cell);
      assert inserted.Ok?;
      var id :- pool.PutFresh(buf[..]);
      if CellHolds(ps, Decoded(ps, v), cell, key, row, old(pool.nextPageId)) {
        InsertedLeaf(ps, v, leafBuf, insertIdx, cell, key, row, lo, hi, id, buf[..], pool.view);
      }
      return Ok(Replaced(id));
    }
    r := LeafSplitWithNewCell(pool, leafBuf, insertIdx, cell, key, row, lo, hi);
  }

  lemma CellShort(ps: PageSize, cell: Bytes)
    requires WfCell(Local(ps), cell)
    ensures LEAF_CELL_FIXED_LEN <= |cell| <= LEAF_CELL_FIXED_LEN + MaxLocal(ps) <= U16_MAX - POINTER_LEN
  {
  }

  lemma RoomInserts(ps: PageSize, buf: Bytes, index: nat, cell: Bytes)
    requires IsLeaf(ps, buf) && index <= Count(buf) && HasRoom(LEAF_HEADER_LEN, buf, |cell|)
    requires WfCell(Local(ps), cell)
    ensures Inserted(buf, LEAF_HEADER_LEN, index, cell).Ok?
  {
    hide Wf, WfCell, Inserted, HasRoom;
    var t := InsertedRefines(Local(ps), buf, index, cell);
  }
}
