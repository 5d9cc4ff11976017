/** `insert`, `update` and `delete` (`btree/mod.rs`): each copies one path,
    commits the new root, and does to the stored map exactly what its name says. */
module TreeWrite {
  import opened Errors
  import opened Codec
  import opened Page
  import opened Slotted
  import opened PageModel
  import opened Nodes
  import opened Builder
  import opened RowCodec
  import opened Pool
  import opened Tree
  import opened TreeOps
  import opened RowMap
  import opened OverflowChains
  import opened Mutate
  import opened LeafOps
  import opened CopyPath
  import opened Recovery
  import opened Room
  import opened TreeRead
  import Disk
  import PagerModel

  // ------------------------------------------------------------------
  // What the operations promise.
  // ------------------------------------------------------------------

  /** Page ids or transaction ids have run out. */
  predicate Exhausted(e: Engine) {
    e.nextPageId == U32_MAX || e.meta.txnId == U64_MAX
  }

  function EntryFor(ps: PageSize, key: i64, row: Row): Entry {
    Entry(key, row, RowCost(ps, row))
  }

  /** Inserting needs an absent key, updating a present one. */
  predicate Applicable(m: map<i64, Row>, key: i64, update: bool) {
    key in m <==> update
  }

  function Inapplicable(update: bool): Error {
    if update then KeyNotFound else KeyAlreadyExists
  }

  /** Why storing an applicable row may fail, and nothing else does: it has no
      encoding, ids ran out, or its split cannot be built. */
  ghost predicate FailsFor(e: Engine, key: i64, row: Row, update: bool, error: Error, exhausted: bool) {
    if EncodeRow(row).Err? then error == PayloadTooLarge
    else error.OutOfRoom() && (StoreFate(e, key, row, update).Aborts? || (error == ArithmeticOverflow && exhausted))
  }

  /** `e'` holds the next transaction, of `root`, in the other slot. */
  predicate NextOf(e: Engine, root: u32, e': Engine) {
    && e.meta.txnId < U64_MAX && e'.slot == 1 - e.slot
    && e'.meta == Disk.MetaContent(e.meta.pageSize, e.meta.txnId + 1, root, e'.nextPageId)
  }

  /** The commit of `root`, the newest of `pages` new pages. */
  predicate CommitsAs(e: Engine, root: u32, e': Engine, pages: nat) {
    NextOf(e, root, e') && e'.nextPageId == e.nextPageId + pages && root + 1 == e'.nextPageId
  }

  /** One call of `insert` (or `update`). A crash at any point of it shows the old
      transaction or the new one, admitted or not. It fails with nothing changed
      and for the right reason. If it succeeds, what is stored is the old map
      with the row in if and only if the row is admitted, and then no other row
      is touched; if a half overran, what is stored is no tree. It takes exactly
      the pages that the overflow chain, the path and its splits need. */
  ghost predicate StoreStep(e: Engine, key: i64, row: Row, update: bool, r: Result<u32>, e': Engine)
    requires Sane(e)
  {
    var es, ps := StoredRows(e), e.meta.pageSize;
    && Moves(e, e')
    && match r
       case Ok(root) =>
         && Applicable(MapOf(es), key, update) && EncodeRow(row).Ok?
         && CommitsAs(e, root, e', StorePages(e, key, row, update))
         && (Admits(e, key, row, update) ==> HasHeight(e', StoreHeight(e, key, row, update)))
         && !StoreFate(e, key, row, update).Aborts?
         && (Admits(e, key, row, update) <==> Sane(e') && MapOf(StoredRows(e')) == MapOf(es)[key := row])
         && (Admits(e, key, row, update) ==> Sane(e') && PutRow(es, StoredRows(e'), EntryFor(ps, key, row)))
         && (StoreFate(e, key, row, update).Overruns? ==> !Sane(e'))
       case Err(error) =>
         && SameCommit(e, e') && Sane(e') && StoredRows(e') == es
         && (error == Inapplicable(update) <==> !Applicable(MapOf(es), key, update))
         && (Applicable(MapOf(es), key, update) ==> FailsFor(e, key, row, update, error, Exhausted(e')))
  }

  /** One call of `delete`: one new page a level, the height kept. */
  ghost predicate DeleteStep(e: Engine, key: i64, r: Result<(u32, Row)>, e': Engine)
    requires Sane(e)
  {
    var es := StoredRows(e);
    && Moves(e, e') && Sane(e')
    && match r
       case Ok((root, row)) =>
         && key in MapOf(es) && MapOf(es)[key] == row
         && DropRow(es, StoredRows(e'), key)
         && CommitsAs(e, root, e', TreeHeight(e) + 1) && HasHeight(e', TreeHeight(e))
       case Err(error) =>
         && SameCommit(e, e') && StoredRows(e') == es
         && (error == KeyNotFound <==> key !in MapOf(es))
         && (key in MapOf(es) ==> error == ArithmeticOverflow && Exhausted(e'))
  }

  // ------------------------------------------------------------------
  // Before the commit.
  // ------------------------------------------------------------------

  /** `view` holds, under `root`, what storing `row` leads to. */
  ghost predicate Copied(e: Engine, key: i64, row: Row, update: bool, r: Result<u32>, view: Disk.Pages, next: nat)
    requires Sane(e)
  {
    var es, ps := StoredRows(e), e.meta.pageSize;
    var p := Decoded(ps, view);
    match r
    case Ok(root) =>
      && Applicable(MapOf(es), key, update) && EncodeRow(row).Ok? && !StoreFate(e, key, row, update).Aborts?
      && (Admits(e, key, row, update) <==> Sound(ps, p, root) && MapOf(Rows(ps, p, root)) == MapOf(es)[key := row])
      && (Admits(e, key, row, update) ==> Sound(ps, p, root) && PutRow(es, Rows(ps, p, root), EntryFor(ps, key, row)))
      && (StoreFate(e, key, row, update).Overruns? ==> !Sound(ps, p, root))
      && next == e.nextPageId + StorePages(e, key, row, update) && root + 1 == next
      && (Admits(e, key, row, update) ==> TreeOk(ps, p, root, KEY_MIN, KEY_END, StoreHeight(e, key, row, update)))
    case Err(error) =>
      && (error == Inapplicable(update) <==> !Applicable(MapOf(es), key, update))
      && (Applicable(MapOf(es), key, update) ==> FailsFor(e, key, row, update, error, next == U32_MAX))
  }

  /** From what the path copy gives to what the caller is promised: with the
      right fate and length the rows are right, and no tree holds a row longer
      than a cell can say. */
  lemma CopiedOk(e: Engine, key: i64, row: Row, update: bool, root: u32, view: Disk.Pages, next: nat)
    requires Sane(e) && Applicable(MapOf(StoredRows(e)), key, update) && EncodeRow(row).Ok?
    requires root != EMPTY_TREE_ROOT && !StoreFate(e, key, row, update).Aborts?
    requires StoreFate(e, key, row, update).Overruns? ==> !IsTree(e.meta.pageSize, Decoded(e.meta.pageSize, view), root)
    requires next == e.nextPageId + StorePages(e, key, row, update) && root + 1 == next
    requires Admits(e, key, row, update) ==>
      exists es ::
        && HoldsAt(e.meta.pageSize, Decoded(e.meta.pageSize, view), root, StoreHeight(e, key, row, update), es)
        && PutRow(StoredRows(e), es, EntryFor(e.meta.pageSize, key, row))
    ensures Copied(e, key, row, update, Ok(root), view, next)
  {
    hide Decoded, StoreFate, MapOf, TreeOk, Contents, EncodeRow, Rows, RowCost, PutRow, StoredRows, StorePages, StoreHeight;
    var ps := e.meta.pageSize;
    var p := Decoded(ps, view);
    if Admits(e, key, row, update) {
      var es :| HoldsAt(ps, p, root, StoreHeight(e, key, row, update), es)
        && PutRow(StoredRows(e), es, EntryFor(ps, key, row));
      RowsAre(ps, p, root, StoreHeight(e, key, row, update));
    }
    PutMeans(StoredRows(e), key, row, RowCost(ps, row));
    if Sound(ps, p, root) && MapOf(Rows(ps, p, root)) == MapOf(StoredRows(e))[key := row] {
      RowsAscending(ps, p, root);
      StoredEntry(Rows(ps, p, root), key);
      SoundShort(ps, view, root);
    }
  }

  lemma PutMeans(before: seq<Entry>, key: i64, row: Row, cost: nat)
    ensures forall after :: PutRow(before, after, Entry(key, row, cost)) ==> MapOf(after) == MapOf(before)[key := row]
  {
    hide MapOf;
  }

  // ------------------------------------------------------------------
  // The first row.
  // ------------------------------------------------------------------

  /** One cell always fits a page: no cell keeps more than `max_local` bytes. */
  lemma OneCellFits(ps: PageSize, cell: Bytes)
    requires |cell| <= LEAF_CELL_FIXED_LEN + MaxLocal(ps)
    ensures Fits(LEAF_HEADER_LEN, ps, [cell])
  {
    assert [cell][..0] == [];
    NoTotal();
    TotalStep([cell]);
  }

  method BuildSingleLeaf(ps: PageSize, cell: Bytes) returns (r: Result<Bytes>)
    ensures r == BuiltLeaf(ps, [cell])
    ensures match r case Ok(page) => |page| == ps case Err(e) => e.OutOfRoom()
  {
    hide Inserted;
    var buf := NewZeros(ps);
    var _ := InitSlotted(buf, TYPE_LEAF);
    BuiltOne(buf[..], LEAF_HEADER_LEN, cell);
    var _ :- InsertCellAt(buf, LEAF_HEADER_LEN, 0, cell);
    return Ok(buf[..]);
  }

  lemma SingleCellWf(ps: PageSize, p: PageMap, cell: Bytes, key: i64, row: Row, bound: nat)
    requires CellHolds(ps, p, cell, key, row, bound)
    ensures WfCell(Local(ps), cell) && LeafOk(ps, p, [DecodeCell(cell)], KEY_MIN, KEY_END, bound)
    ensures LeafEntries(ps, p, [DecodeCell(cell)]) == [Entry(key, row, |cell| + POINTER_LEN)]
    ensures DecodeCells([cell]) == [DecodeCell(cell)]
  {
    hide WfCell, CellOk, EntryOf, DecodeCell;
  }

  lemma SingleLeafTree(ps: PageSize, v: Disk.Pages, id: nat, cell: Bytes, buf: Bytes, w: Disk.Pages, key: i64, row: Row)
    requires CellHolds(ps, Decoded(ps, v), cell, key, row, id)
    requires |cell| <= LEAF_CELL_FIXED_LEN + MaxLocal(ps) && BuiltLeaf(ps, [cell]) == Ok(buf)
    requires id !in v && w == v[id := buf] && id >= FIRST_DATA_PAGE_ID
    ensures HoldsAt(ps, Decoded(ps, w), id, 0, [Entry(key, row, |cell| + POINTER_LEN)])
  {
    hide LeafOk, TreeOk, Contents, LeafEntries, Decoded, WfCell, BuiltLeaf, IsLeaf, DecodeCell, DecodeCells, CellHolds;
    SingleCellWf(ps, Decoded(ps, v), cell, key, row, id);
    OneCellFits(ps, cell);
    var t := BuiltLeafRefines(ps, [cell]);
    LeafPut(ps, v, id, buf, w, [DecodeCell(cell)], KEY_MIN, KEY_END, id);
  }

  lemma FirstRow(e: Entry)
    ensures MapOf([]) == map[] && PutRow([], [e], e)
  {
    assert [e][..0] == [];
  }

  /** Inserting into the empty tree: one leaf with one cell. */
  method InsertFirst(pool: BufferPool, key: i64, row: Row) returns (r: Result<u32>)
    requires pool.Valid() && pool.pager.rootPageId == EMPTY_TREE_ROOT
    modifies pool, pool.pager.file
    ensures pool.Valid() && pool.Grown()
    ensures Sane(old(Snap(pool)))
    ensures Copied(old(Snap(pool)), key, row, false, r, pool.view, pool.nextPageId)
  {
    hide BufferPool.Inv, Decoded, Sound, Rows, MapOf, CellHolds, BuiltLeaf, EncodeRow, PutRow, IsTree, HoldsAt, SpillPages, DecodeCell;
    ghost var e := Snap(pool);
    var ps := pool.pager.pageSize;
    NoRows(e);
    FirstRow(EntryFor(ps, key, row));
    pool.ValidIds();
    var cell :- BuildRowCell(pool, key, row);
    ghost var v, next := pool.view, pool.nextPageId;
    FirstFits(ps, cell);
    var buf := BuildSingleLeaf(ps, cell);
    assert buf.Ok?;
    var id :- pool.PutFresh(buf.value);
    if |EncodeRow(row).value| <= U32_MAX {
      SingleLeafTree(ps, v, id, cell, buf.value, pool.view, key, row);
    }
    CopiedOk(e, key, row, false, id, pool.view, pool.nextPageId);
    return Ok(id);
  }

  lemma FirstFits(ps: PageSize, cell: Bytes)
    requires WfCell(Local(ps), cell)
    ensures BuiltLeaf(ps, [cell]).Ok? && |cell| <= LEAF_CELL_FIXED_LEN + MaxLocal(ps)
  {
    hide WfCell, BuiltLeaf;
    CellShort(ps, cell);
    OneCellFits(ps, cell);
    var t := BuiltLeafRefines(ps, [cell]);
  }

  // ------------------------------------------------------------------
  // Rows after the leaf changed.
  // ------------------------------------------------------------------

  lemma PathLeafRows(ps: PageSize, view: Disk.Pages, root: nat, h: nat, key: i64, path: seq<nat>, los: seq<int>,
                     his: seq<int>, buf: Bytes, found: Search)
    requires Located(ps, view, root, h, key, path, los, his, buf, found)
    requires TreeOk(ps, Decoded(ps, view), root, KEY_MIN, KEY_END, h)
    ensures IsLeaf(ps, buf) && SortedCells(LeafCells(ps, buf))
    ensures var p := Decoded(ps, view); var l := LeafEntries(ps, p, LeafCells(ps, buf));
      && Contents(ps, p, root, h) == Replacing(ps, p, root, h, key, l)
      && AllBelow(Before(ps, p, root, h, key), key) && AllAbove(After(ps, p, root, h, key), key)
  {
    hide TreeOk, Contents, Before, After, LeafFor, AllBelow, AllAbove, PathOk, Decoded, CellOk, LeafEntries, IsLeaf,
      Wf, DecodeCells, SearchIs;
    AroundLeaf(ps, Decoded(ps, view), root, KEY_MIN, KEY_END, h, key);
  }

  lemma CellsToParts(ps: PageSize, p: PageMap, cells: seq<Cell>, index: nat, key: i64)
    requires InsertPoint(cells, index, key)
    ensures Parts(LeafEntries(ps, p, cells), index, key)
  {
    hide DecodeRow, Payload;
    var l := LeafEntries(ps, p, cells);
    forall x | x in l[..index]
      ensures x.key < key
    {
      var j :| 0 <= j < index && l[j] == x;
    }
    forall x | x in l[index..]
      ensures key < x.key
    {
      var j :| index <= j < |l| && l[j] == x;
    }
  }

  lemma MissingIsPoint(cells: seq<Cell>, key: i64, found: Search)
    requires SearchIs(cells, key, found) && found.Missing?
    ensures InsertPoint(cells, found.index, key)
  {
  }

  /** Storing a missing key: the leaf's rows with the new one in its place. */
  lemma InsertRows(ps: PageSize, v: Disk.Pages, root: nat, h: nat, key: i64, path: seq<nat>, los: seq<int>,
                   his: seq<int>, buf: Bytes, found: Search, w: Disk.Pages, bound: nat, e: Entry)
    requires Located(ps, v, root, h, key, path, los, his, buf, found) && found.Missing? && e.key == key
    requires TreeOk(ps, Decoded(ps, v), root, KEY_MIN, KEY_END, h)
    requires Extends(v, w) && Disk.IdsIn(v, bound)
    ensures |path| == |los| == |his| == h + 1
    ensures LeafSpot(ps, Decoded(ps, w), buf, found.index, key, los[h], his[h], bound)
    ensures IsLeaf(ps, buf) && found.index <= |LeafCells(ps, buf)|
    ensures PutRow(Contents(ps, Decoded(ps, v), root, h),
                   Replacing(ps, Decoded(ps, v), root, h, key, WithRow(ps, Decoded(ps, w), buf, found.index, e)), e)
  {
    hide TreeOk, Contents, Before, After, LeafFor, AllBelow, AllAbove, PathOk, Decoded, CellOk, LeafEntries, IsLeaf,
      Wf, DecodeCells, MapOf, PutRow, Parts, LeafOk, Disk.IdsIn, Cells;
    var p, q, cells := Decoded(ps, v), Decoded(ps, w), LeafCells(ps, buf);
    PathLeafRows(ps, v, root, h, key, path, los, his, buf, found);
    DecodedExtends(ps, v, w);
    PathIds(ps, v, bound, path, los, his, h, key, h);
    MissingIsPoint(cells, key, found);
    CellsToParts(ps, p, cells, found.index, key);
    LeafExtends(ps, p, q, cells, los[h], his[h], path[h], bound);
    RowInserted(Before(ps, p, root, h, key), LeafEntries(ps, p, cells), After(ps, p, root, h, key), found.index, e);
  }

  /** The leaf page with one cell removed. */
  lemma EditedLeaf(ps: PageSize, s: Bytes, i: nat) returns (t: Bytes)
    requires IsLeaf(ps, s) && i < |LeafCells(ps, s)|
    ensures Removed(s, LEAF_HEADER_LEN, i) == Ok(t)
    ensures IsLeaf(ps, t) && Start(t) == Start(s)
    ensures Cells(Local(ps), t) == SeqRemove(Cells(Local(ps), s), i)
    ensures LeafCells(ps, t) == SeqRemove(LeafCells(ps, s), i)
  {
    CellsCount(ps, s);
    hide Wf, Cells, Removed;
    t := RemovedRefines(Local(ps), s, i);
    MapsOverRemove(Cells(Local(ps), s), i);
  }

  lemma FoundKey(cells: seq<Cell>, key: i64, found: Search)
    requires SearchIs(cells, key, found) && found.Found?
    ensures found.index < |cells| && cells[found.index].key == key
  {
  }

  lemma EntryKey(ps: PageSize, p: PageMap, cells: seq<Cell>, i: nat)
    requires i < |cells|
    ensures LeafEntries(ps, p, cells)[i].key == cells[i].key
  {
    hide DecodeRow, Payload;
  }

  /** The rows of the edited leaf, and the place the key left. */
  lemma EditedRows(ps: PageSize, v: Disk.Pages, root: nat, h: nat, key: i64, path: seq<nat>, los: seq<int>,
                   his: seq<int>, buf: Bytes, found: Search, w: Disk.Pages, bound: nat, t: Bytes)
    requires Located(ps, v, root, h, key, path, los, his, buf, found) && found.Found?
    requires TreeOk(ps, Decoded(ps, v), root, KEY_MIN, KEY_END, h)
    requires Extends(v, w) && Disk.IdsIn(v, bound)
    requires IsLeaf(ps, buf) && IsLeaf(ps, t) && found.index < |LeafCells(ps, buf)|
    requires LeafCells(ps, t) == SeqRemove(LeafCells(ps, buf), found.index)
    ensures |path| == |los| == |his| == h + 1
    ensures LeafSpot(ps, Decoded(ps, w), t, found.index, key, los[h], his[h], bound)
    ensures var p := Decoded(ps, v); var l := LeafEntries(ps, p, LeafCells(ps, buf));
      && LeafEntries(ps, Decoded(ps, w), LeafCells(ps, t)) == SeqRemove(l, found.index)
      && l[found.index].key == key
      && Parts(SeqRemove(l, found.index), found.index, key)
  {
    hide TreeOk, LeafFor, PathOk, Decoded, CellOk, LeafEntries, IsLeaf, Wf, DecodeCells, Parts, LeafOk, Disk.IdsIn,
      Cells, SeqRemove;
    var p, q, cells, i := Decoded(ps, v), Decoded(ps, w), LeafCells(ps, buf), found.index;
    DecodedExtends(ps, v, w);
    PathIds(ps, v, bound, path, los, his, h, key, h);
    FoundKey(cells, key, found);
    EntryKey(ps, p, cells, i);
    LeafExtends(ps, p, q, cells, los[h], his[h], path[h], bound);
    LeafWithout(ps, q, cells, i, los[h], his[h], bound);
    EntriesRemove(ps, q, cells, i);
    CellsToParts(ps, q, SeqRemove(cells, i), i, key);
  }

  /** Storing a present key: the old row's place taken by the new row. */
  lemma UpdateRows(ps: PageSize, v: Disk.Pages, root: nat, h: nat, key: i64, path: seq<nat>, los: seq<int>,
                   his: seq<int>, buf: Bytes, found: Search, w: Disk.Pages, bound: nat, t: Bytes, e: Entry)
    requires Located(ps, v, root, h, key, path, los, his, buf, found) && found.Found? && e.key == key
    requires TreeOk(ps, Decoded(ps, v), root, KEY_MIN, KEY_END, h)
    requires Extends(v, w) && Disk.IdsIn(v, bound)
    requires IsLeaf(ps, buf) && IsLeaf(ps, t) && found.index < |LeafCells(ps, buf)|
    requires LeafCells(ps, t) == SeqRemove(LeafCells(ps, buf), found.index)
    ensures |path| == |los| == |his| == h + 1
    ensures LeafSpot(ps, Decoded(ps, w), t, found.index, key, los[h], his[h], bound)
    ensures found.index <= |LeafCells(ps, t)|
    ensures PutRow(Contents(ps, Decoded(ps, v), root, h),
                   Replacing(ps, Decoded(ps, v), root, h, key, WithRow(ps, Decoded(ps, w), t, found.index, e)), e)
  {
    hide TreeOk, Contents, Before, After, LeafFor, AllBelow, AllAbove, PathOk, Decoded, CellOk, LeafEntries, IsLeaf,
      Wf, DecodeCells, MapOf, PutRow, Parts, LeafOk, Disk.IdsIn, Cells, LeafSpot, Located;
    var p := Decoded(ps, v);
    PathLeafRows(ps, v, root, h, key, path, los, his, buf, found);
    EditedRows(ps, v, root, h, key, path, los, his, buf, found, w, bound, t);
    RowReplaced(Before(ps, p, root, h, key), LeafEntries(ps, p, LeafCells(ps, buf)), After(ps, p, root, h, key),
                found.index, e);
  }

  /** Dropping a present key. */
  lemma DeleteRows(ps: PageSize, v: Disk.Pages, root: nat, h: nat, key: i64, path: seq<nat>, los: seq<int>,
                   his: seq<int>, buf: Bytes, found: Search, w: Disk.Pages, bound: nat, t: Bytes)
    requires Located(ps, v, root, h, key, path, los, his, buf, found) && found.Found?
    requires TreeOk(ps, Decoded(ps, v), root, KEY_MIN, KEY_END, h)
    requires Extends(v, w) && Disk.IdsIn(v, bound)
    requires IsLeaf(ps, buf) && IsLeaf(ps, t) && found.index < |LeafCells(ps, buf)|
    requires LeafCells(ps, t) == SeqRemove(LeafCells(ps, buf), found.index)
    ensures |path| == |los| == |his| == h + 1
    ensures LeafSpot(ps, Decoded(ps, w), t, found.index, key, los[h], his[h], bound)
    ensures DropRow(Contents(ps, Decoded(ps, v), root, h),
                    Replacing(ps, Decoded(ps, v), root, h, key, LeafEntries(ps, Decoded(ps, w), LeafCells(ps, t))), key)
  {
    hide TreeOk, Contents, Before, After, LeafFor, AllBelow, AllAbove, PathOk, Decoded, CellOk, LeafEntries, IsLeaf,
      Wf, DecodeCells, MapOf, DropRow, Parts, LeafOk, Disk.IdsIn, Cells, LeafSpot, Located;
    var p := Decoded(ps, v);
    PathLeafRows(ps, v, root, h, key, path, los, his, buf, found);
    EditedRows(ps, v, root, h, key, path, los, his, buf, found, w, bound, t);
    RowDropped(Before(ps, p, root, h, key), LeafEntries(ps, p, LeafCells(ps, buf)), After(ps, p, root, h, key),
               found.index);
  }

  // ------------------------------------------------------------------
  // From the leaf to the root.
  // ------------------------------------------------------------------

  /** What placing a cell and copying the path leads to, by the cell's fate. */
  ghost predicate PathPlaced(ps: PageSize, fate: Fate, holds: bool, p: PageMap, next: nat, r: Result<u32>, es: seq<Entry>,
                             height: nat, upTo: nat) {
    match r
    case Ok(root) =>
      && root != EMPTY_TREE_ROOT && !fate.Aborts? && root + 1 == next && next == upTo
      && (fate.Overruns? ==> !IsTree(ps, p, root))
      && (fate.Keeps() && holds ==> HoldsAt(ps, p, root, height, es))
    case Err(e) => e.OutOfRoom() && (fate.Aborts? || (e == ArithmeticOverflow && next == U32_MAX))
  }

  /** The height after a path copy. */
  function HeightAfter(ps: PageSize, p: PageMap, root: nat, h: nat, key: i64, split: bool): nat {
    if Grows(ps, p, root, h, key, split) then h + 1 else h
  }

  /** Put a cell in its leaf, then copy the path. */
  method PlaceCell(pool: BufferPool, path: seq<nat>, leafBuf: Bytes, index: nat, cell: Bytes,
                   ghost v0: Disk.Pages, ghost base: nat, ghost los: seq<int>, ghost his: seq<int>, ghost h: nat,
                   ghost key: i64, ghost row: Row) returns (r: Result<u32>)
    requires pool.Valid()
    requires PathOk(pool.pager.pageSize, Decoded(pool.pager.pageSize, v0), path, los, his, h, key)
    requires |path| == |los| == |his| == h + 1 && los[0] == KEY_MIN && his[0] == KEY_END
    requires Extends(v0, pool.view) && Disk.IdsIn(v0, base) && FIRST_DATA_PAGE_ID <= base <= pool.nextPageId
    requires LeafSpot(pool.pager.pageSize, Decoded(pool.pager.pageSize, pool.view), leafBuf, index, key, los[h], his[h],
                      pool.nextPageId)
    requires WfCell(Local(pool.pager.pageSize), cell)
    modifies pool, pool.pager.file
    ensures pool.Valid() && pool.Grown()
    ensures |leafBuf| >= 5 && index <= |LeafCells(pool.pager.pageSize, leafBuf)| == Count(leafBuf)
    ensures var ps, p := pool.pager.pageSize, Decoded(pool.pager.pageSize, old(pool.view));
      PathPlaced(ps, FateOf(ps, leafBuf, index, |cell|), CellHolds(ps, p, cell, key, row, old(pool.nextPageId)),
                 Decoded(ps, pool.view), pool.nextPageId, r,
                 Replacing(ps, Decoded(ps, v0), path[0], h, key,
                           WithRow(ps, p, leafBuf, index, Entry(key, row, |cell| + POINTER_LEN))),
                 HeightAfter(ps, Decoded(ps, v0), path[0], h, key, !FateOf(ps, leafBuf, index, |cell|).Goes?),
                 old(pool.nextPageId)
                 + PathPages(ps, Decoded(ps, v0), path[0], h, key, !FateOf(ps, leafBuf, index, |cell|).Goes?))
  {
    hide BufferPool.Inv, Decoded, PathOk, LeafSpot, CellHolds, FateOf, ResultOk, WithRow, Replacing, HoldsAt, TreeOk,
      PathPages, Grows, Contents, Disk.IdsIn, IsLeaf, Spoiled, Broken, IsTree, WfCell, HasRoom, SplitOutcome;
    var ps := pool.pager.pageSize;
    SpotIndex(ps, Decoded(ps, pool.view), leafBuf, index, key, los[h], his[h], pool.nextPageId);
    ghost var es := WithRow(ps, Decoded(ps, pool.view), leafBuf, index, Entry(key, row, |cell| + POINTER_LEN));
    ghost var fate := FateOf(ps, leafBuf, index, |cell|);
    ghost var was := pool.nextPageId;
    var result :- LeafInsertOrSplit(pool, leafBuf, index, cell, key, row, los[h], his[h]);
    if fate.Overruns? {
      BrokenSpoils(ps, Decoded(ps, pool.view), result);
    }
    r := CopyToRoot(pool, path, result, v0, base, was, los, his, h, key, es);
  }

  // ------------------------------------------------------------------
  // Room, as the operation finds it.
  // ------------------------------------------------------------------

  /** The fate of the row is decided by the leaf that was located. */
  lemma FateFound(e: Engine, view: Disk.Pages, h: nat, key: i64, row: Row, update: bool, leaf: nat, buf: Bytes)
    requires e.meta.root != EMPTY_TREE_ROOT && Extends(e.committed, view)
    requires TreeOk(e.meta.pageSize, Committed(e), e.meta.root, KEY_MIN, KEY_END, h)
    requires leaf == LeafFor(Decoded(e.meta.pageSize, view), e.meta.root, h, key)
    requires leaf in view && SameBody(buf, view[leaf]) && IsLeaf(e.meta.pageSize, buf)
    ensures StoreFate(e, key, row, update)
         == LeafFate(e.meta.pageSize, buf, key, RowCellLen(e.meta.pageSize, row), update)
  {
    hide TreeOk, LeafFor, Decoded, LeafFate, RowCellLen, IsLeaf, SameBody, StoreFate;
    var ps := e.meta.pageSize;
    DecodedExtends(ps, e.committed, view);
    LeafForExtends(ps, Committed(e), Decoded(ps, view), e.meta.root, KEY_MIN, KEY_END, h, key);
    DecodedKeys(ps, e.committed);
    StoreFateIs(e, key, row, update, h);
    FateSameBody(ps, buf, view[leaf], key, RowCellLen(ps, row), update);
  }

  /** Pages and height, told by the tree that was found. */
  lemma PagesFound(e: Engine, view: Disk.Pages, h: nat, key: i64, row: Row, update: bool)
    requires e.meta.root != EMPTY_TREE_ROOT && Extends(e.committed, view) && HasHeight(e, h)
    ensures var ps, p, root := e.meta.pageSize, Decoded(e.meta.pageSize, view), e.meta.root;
      var split := !StoreFate(e, key, row, update).Goes?;
      && StoreHeight(e, key, row, update) == HeightAfter(ps, p, root, h, key, split)
      && StorePages(e, key, row, update) == RowSpill(ps, row) + PathPages(ps, p, root, h, key, split)
  {
    hide TreeOk, StoreFate, Copies, SplitsUp, Decoded, RowSpill;
    TreeHeightIs(e, h);
    DecodedExtends(e.meta.pageSize, e.committed, view);
    CopiesExtend(e.meta.pageSize, Committed(e), Decoded(e.meta.pageSize, view), e.meta.root, KEY_MIN, KEY_END, h, key,
                 !StoreFate(e, key, row, update).Goes?);
  }

  /** The fate at the place the search found. */
  lemma FateThere(ps: PageSize, buf: Bytes, key: i64, len: nat, found: Search)
    requires IsLeaf(ps, buf) && SortedCells(LeafCells(ps, buf)) && SearchIs(LeafCells(ps, buf), key, found)
    ensures found.index <= Count(buf)
    ensures found.Missing? ==> LeafFate(ps, buf, key, len, false) == FateOf(ps, buf, found.index, len)
    ensures found.Found? ==>
      found.index < |Cells(Local(ps), buf)| && LeafFate(ps, buf, key, len, true) == ReplaceFate(ps, buf, found.index, len)
  {
    hide Wf, Cells, FateOf, ReplaceFate, DecodeCells, SortedCells, Rank;
    SearchIsRank(LeafCells(ps, buf), key, found);
    CellsCount(ps, buf);
    SearchInRange(LeafCells(ps, buf), key, found);
    hide SearchIs;
  }

  lemma SearchInRange(cells: seq<Cell>, key: i64, found: Search)
    requires SearchIs(cells, key, found)
    ensures found.index <= |cells| && (found.Found? ==> found.index < |cells|)
  {
  }

  // ------------------------------------------------------------------
  // The copies.
  // ------------------------------------------------------------------

  lemma IdsMore(view: Disk.Pages, base: nat, next: nat)
    requires Disk.IdsIn(view, base) && base <= next
    ensures Disk.IdsIn(view, next)
  {
  }

  /** Where the cell was placed, in the terms of the whole call. */
  lemma PlacedMeans(e: Engine, key: i64, row: Row, update: bool, cell: Bytes, fate: Fate, p: PageMap, bound: nat,
                    view: Disk.Pages, next: nat, r: Result<u32>, es: seq<Entry>, height: nat, upTo: nat)
    requires height == StoreHeight(e, key, row, update) && upTo == e.nextPageId + StorePages(e, key, row, update)
    requires Sane(e) && Applicable(MapOf(StoredRows(e)), key, update) && EncodeRow(row).Ok?
    requires fate == StoreFate(e, key, row, update)
    requires |EncodeRow(row).value| <= U32_MAX ==> CellHolds(e.meta.pageSize, p, cell, key, row, bound)
    requires PutRow(StoredRows(e), es, EntryFor(e.meta.pageSize, key, row))
    requires PathPlaced(e.meta.pageSize, fate, CellHolds(e.meta.pageSize, p, cell, key, row, bound),
                        Decoded(e.meta.pageSize, view), next, r, es, height, upTo)
    ensures Copied(e, key, row, update, r, view, next)
  {
    hide Decoded, StoreFate, MapOf, EncodeRow, PutRow, CellHolds, HoldsAt, IsTree, RowCost, Rows, Sound, StoreHeight,
      StorePages;
    if r.Ok? {
      CopiedOk(e, key, row, update, r.value, view, next);
    }
  }

  /** The row may go to the leaf, and the rows of the tree will be right. */
  lemma InsertReady(ps: PageSize, e: Engine, v0: Disk.Pages, base: nat, root: nat, h: nat, key: i64, row: Row,
                    path: seq<nat>, los: seq<int>, his: seq<int>, buf: Bytes, found: Search, v: Disk.Pages, next: nat)
    requires e.meta.pageSize == ps && e.meta.root == root && Extends(e.committed, v0)
    requires root != EMPTY_TREE_ROOT && TreeOk(ps, Committed(e), root, KEY_MIN, KEY_END, h)
    requires TreeOk(ps, Decoded(ps, v0), root, KEY_MIN, KEY_END, h)
    requires Extends(v0, v) && Disk.IdsIn(v0, base) && base <= next
    requires Located(ps, v0, root, h, key, path, los, his, buf, found) && found.Missing?
    ensures |path| == |los| == |his| == h + 1
    ensures LeafSpot(ps, Decoded(ps, v), buf, found.index, key, los[h], his[h], next)
    ensures IsLeaf(ps, buf) && found.index <= |LeafCells(ps, buf)| && found.index <= Count(buf)
    ensures StoreFate(e, key, row, false) == FateOf(ps, buf, found.index, RowCellLen(ps, row))
    ensures var split := !FateOf(ps, buf, found.index, RowCellLen(ps, row)).Goes?;
      && StoreHeight(e, key, row, false) == HeightAfter(ps, Decoded(ps, v0), root, h, key, split)
      && StorePages(e, key, row, false) == RowSpill(ps, row) + PathPages(ps, Decoded(ps, v0), root, h, key, split)
    ensures PutRow(Contents(ps, Decoded(ps, v0), root, h),
                   Replacing(ps, Decoded(ps, v0), root, h, key,
                             WithRow(ps, Decoded(ps, v), buf, found.index, EntryFor(ps, key, row))), EntryFor(ps, key, row))
  {
    hide Decoded, PutRow, TreeOk, Contents, PathOk, LeafOk, LeafFor, SearchIs, IsLeaf, Wf, Cells, DecodeCells, LeafSpot,
      Replacing, WithRow, FateOf, LeafFate, StoreFate, StorePages, StoreHeight, HeightAfter, PathPages, RowSpill, Disk.IdsIn, SameBody, SortedCells,
      RowCellLen;
    IdsMore(v0, base, next);
    PathLeafRows(ps, v0, root, h, key, path, los, his, buf, found);
    InsertRows(ps, v0, root, h, key, path, los, his, buf, found, v, next, EntryFor(ps, key, row));
    FateFound(e, v0, h, key, row, false, path[h], buf);
    PagesFound(e, v0, h, key, row, false);
    FateThere(ps, buf, key, RowCellLen(ps, row), found);
  }

  method InsertCopy(pool: BufferPool, key: i64, row: Row) returns (r: Result<u32>)
    requires pool.Valid() && Sane(Snap(pool)) && pool.pager.rootPageId != EMPTY_TREE_ROOT
    modifies pool, pool.pager.file
    ensures pool.Valid() && pool.Grown()
    ensures Copied(old(Snap(pool)), key, row, false, r, pool.view, pool.nextPageId)
  {
    hide BufferPool.Inv, Decoded, Sound, Rows, MapOf, CellHolds, EncodeRow, PutRow, TreeOk, Contents, PathOk, LeafOk,
      LeafFor, SearchIs, IsLeaf, Wf, Cells, DecodeCells, LeafSpot, Replacing, WithRow, FateOf, ReplaceFate, LeafFate,
      StoreFate, Disk.IdsIn, SameBody, LeafEntries, SortedCells, SeqRemove, PathPlaced, Copied, WfCell, StorePages,
      StoreHeight, HeightAfter, PathPages, SpillPages, DecodeCell;
    ghost var e := Snap(pool);
    var ps, root := pool.pager.pageSize, pool.pager.rootPageId;
    ghost var h := LiveTree(pool);
    pool.ValidIds();
    ghost var v0, base := pool.view, pool.nextPageId;
    var path, leafBuf, found, los, his := LocateLeaf(pool, root, key, h);
    DecodedKeys(ps, v0);
    LeafDecides(ps, Decoded(ps, v0), root, h, key, LeafCells(ps, leafBuf), found);
    if found.Found? {
      CopiedErr(e, key, row, false, KeyAlreadyExists, pool.view, pool.nextPageId);
      return Err(KeyAlreadyExists);
    }
    var built := BuildRowCell(pool, key, row);
    if built.Err? {
      CopiedErr(e, key, row, false, built.error, pool.view, pool.nextPageId);
      return Err(built.error);
    }
    var cell := built.value;
    ghost var v, next := pool.view, pool.nextPageId;
    ghost var entry := EntryFor(ps, key, row);
    InsertReady(ps, e, v0, base, root, h, key, row, path, los, his, leafBuf, found, v, next);
    r := PlaceCell(pool, path, leafBuf, found.index, cell, v0, base, los, his, h, key, row);
    PlacedMeans(e, key, row, false, cell, FateOf(ps, leafBuf, found.index, |cell|), Decoded(ps, v), next, pool.view,
                pool.nextPageId, r,
                Replacing(ps, Decoded(ps, v0), root, h, key, WithRow(ps, Decoded(ps, v), leafBuf, found.index, entry)),
                HeightAfter(ps, Decoded(ps, v0), root, h, key, !FateOf(ps, leafBuf, found.index, |cell|).Goes?),
                next + PathPages(ps, Decoded(ps, v0), root, h, key, !FateOf(ps, leafBuf, found.index, |cell|).Goes?));
  }

  lemma CopiedErr(e: Engine, key: i64, row: Row, update: bool, error: Error, view: Disk.Pages, next: nat)
    requires Sane(e)
    requires Applicable(MapOf(StoredRows(e)), key, update) ==>
      error != Inapplicable(update) && FailsFor(e, key, row, update, error, next == U32_MAX)
    requires !Applicable(MapOf(StoredRows(e)), key, update) ==> error == Inapplicable(update)
    ensures Copied(e, key, row, update, Err(error), view, next)
  {
    hide MapOf, FailsFor, Sound, Rows;
  }

  /** The leaf's bytes with the cell at `index` removed in place. */
  method EditLeaf(ps: PageSize, leafBuf: Bytes, index: nat) returns (edited: Bytes)
    requires IsLeaf(ps, leafBuf) && index < |LeafCells(ps, leafBuf)|
    ensures IsLeaf(ps, edited) && Start(edited) == Start(leafBuf)
    ensures Cells(Local(ps), edited) == SeqRemove(Cells(Local(ps), leafBuf), index)
    ensures LeafCells(ps, edited) == SeqRemove(LeafCells(ps, leafBuf), index)
  {
    hide Removed, IsLeaf, Wf, Cells, DecodeCells;
    ghost var t := EditedLeaf(ps, leafBuf, index);
    var buf := NewCopy(leafBuf);
    var _ := RemoveCellAt(buf, LEAF_HEADER_LEN, index);
    edited := buf[..];
  }

  /** The same for the leaf with the old cell removed. */
  lemma UpdateReady(ps: PageSize, e: Engine, v0: Disk.Pages, base: nat, root: nat, h: nat, key: i64, row: Row,
                    path: seq<nat>, los: seq<int>, his: seq<int>, buf: Bytes, found: Search, v: Disk.Pages, next: nat,
                    edited: Bytes)
    requires e.meta.pageSize == ps && e.meta.root == root && Extends(e.committed, v0)
    requires root != EMPTY_TREE_ROOT && TreeOk(ps, Committed(e), root, KEY_MIN, KEY_END, h)
    requires TreeOk(ps, Decoded(ps, v0), root, KEY_MIN, KEY_END, h)
    requires Extends(v0, v) && Disk.IdsIn(v0, base) && base <= next
    requires Located(ps, v0, root, h, key, path, los, his, buf, found) && found.Found?
    requires IsLeaf(ps, buf) && IsLeaf(ps, edited) && found.index < |LeafCells(ps, buf)|
    requires Start(edited) == Start(buf) && Cells(Local(ps), edited) == SeqRemove(Cells(Local(ps), buf), found.index)
    requires LeafCells(ps, edited) == SeqRemove(LeafCells(ps, buf), found.index)
    ensures |path| == |los| == |his| == h + 1
    ensures LeafSpot(ps, Decoded(ps, v), edited, found.index, key, los[h], his[h], next)
    ensures found.index <= |LeafCells(ps, edited)| && found.index <= Count(edited)
    ensures StoreFate(e, key, row, true) == FateOf(ps, edited, found.index, RowCellLen(ps, row))
    ensures var split := !FateOf(ps, edited, found.index, RowCellLen(ps, row)).Goes?;
      && StoreHeight(e, key, row, true) == HeightAfter(ps, Decoded(ps, v0), root, h, key, split)
      && StorePages(e, key, row, true) == RowSpill(ps, row) + PathPages(ps, Decoded(ps, v0), root, h, key, split)
    ensures PutRow(Contents(ps, Decoded(ps, v0), root, h),
                   Replacing(ps, Decoded(ps, v0), root, h, key,
                             WithRow(ps, Decoded(ps, v), edited, found.index, EntryFor(ps, key, row))), EntryFor(ps, key, row))
  {
    hide Decoded, PutRow, TreeOk, Contents, PathOk, LeafOk, LeafFor, SearchIs, IsLeaf, Wf, Cells, DecodeCells, LeafSpot,
      Replacing, WithRow, FateOf, ReplaceFate, LeafFate, StoreFate, StorePages, StoreHeight, HeightAfter, PathPages, RowSpill, Disk.IdsIn, SameBody, SortedCells,
      RowCellLen, SeqRemove;
    IdsMore(v0, base, next);
    PathLeafRows(ps, v0, root, h, key, path, los, his, buf, found);
    UpdateRows(ps, v0, root, h, key, path, los, his, buf, found, v, next, edited, EntryFor(ps, key, row));
    FateFound(e, v0, h, key, row, true, path[h], buf);
    PagesFound(e, v0, h, key, row, true);
    FateThere(ps, buf, key, RowCellLen(ps, row), found);
    ReplaceIsInsert(ps, buf, found.index, edited, RowCellLen(ps, row));
  }

  method UpdateCopy(pool: BufferPool, key: i64, row: Row) returns (r: Result<u32>)
    requires pool.Valid() && Sane(Snap(pool)) && pool.pager.rootPageId != EMPTY_TREE_ROOT
    modifies pool, pool.pager.file
    ensures pool.Valid() && pool.Grown()
    ensures Copied(old(Snap(pool)), key, row, true, r, pool.view, pool.nextPageId)
  {
    hide BufferPool.Inv, Decoded, Sound, Rows, MapOf, TreeOk, Contents, PathOk, LeafOk, LeafFor, SearchIs, IsLeaf, Wf,
      Cells, DecodeCells, SameBody, LeafEntries, Copied;
    ghost var e := Snap(pool);
    var ps, root := pool.pager.pageSize, pool.pager.rootPageId;
    ghost var h := LiveTree(pool);
    pool.ValidIds();
    ghost var v0 := pool.view;
    var path, leafBuf, found, los, his := LocateLeaf(pool, root, key, h);
    DecodedKeys(ps, v0);
    LeafDecides(ps, Decoded(ps, v0), root, h, key, LeafCells(ps, leafBuf), found);
    if found.Missing? {
      CopiedErr(e, key, row, true, KeyNotFound, pool.view, pool.nextPageId);
      return Err(KeyNotFound);
    }
    r := UpdateAt(pool, key, row, root, path, leafBuf, found.index, e, h, found, los, his);
  }

  /** Build the new cell, remove the old one, and place the new one there. */
  method UpdateAt(pool: BufferPool, key: i64, row: Row, root: nat, path: seq<nat>, leafBuf: Bytes, index: nat,
                  ghost e: Engine, ghost h: nat, ghost found: Search, ghost los: seq<int>, ghost his: seq<int>)
    returns (r: Result<u32>)
    requires pool.Valid() && Sane(e) && Applicable(MapOf(StoredRows(e)), key, true)
    requires e.meta.pageSize == pool.pager.pageSize && e.meta.root == root && root != EMPTY_TREE_ROOT
    requires e.nextPageId == pool.nextPageId
    requires Extends(e.committed, pool.view) && TreeOk(pool.pager.pageSize, Committed(e), root, KEY_MIN, KEY_END, h)
    requires TreeOk(pool.pager.pageSize, Decoded(pool.pager.pageSize, pool.view), root, KEY_MIN, KEY_END, h)
    requires Contents(pool.pager.pageSize, Decoded(pool.pager.pageSize, pool.view), root, h) == StoredRows(e)
    requires Located(pool.pager.pageSize, pool.view, root, h, key, path, los, his, leafBuf, found)
    requires found == Found(index) && IsLeaf(pool.pager.pageSize, leafBuf)
    requires index < |LeafCells(pool.pager.pageSize, leafBuf)|
    modifies pool, pool.pager.file
    ensures pool.Valid() && pool.Grown()
    ensures Copied(e, key, row, true, r, pool.view, pool.nextPageId)
  {
    hide BufferPool.Inv, Decoded, Sound, Rows, MapOf, CellHolds, EncodeRow, PutRow, TreeOk, Contents, PathOk, LeafOk,
      LeafFor, SearchIs, IsLeaf, Wf, Cells, DecodeCells, LeafSpot, Replacing, WithRow, FateOf,
      StoreFate, Disk.IdsIn, SameBody, LeafEntries, SeqRemove, PathPlaced, Copied, WfCell, StorePages,
      StoreHeight, HeightAfter, PathPages, SpillPages, DecodeCell;
    var ps := pool.pager.pageSize;
    pool.ValidIds();
    ghost var v0, base := pool.view, pool.nextPageId;
    var built := BuildRowCell(pool, key, row);
    if built.Err? {
      CopiedErr(e, key, row, true, built.error, pool.view, pool.nextPageId);
      return Err(built.error);
    }
    var newCell := built.value;
    var edited := EditLeaf(ps, leafBuf, index);
    ghost var v, next := pool.view, pool.nextPageId;
    ghost var entry := EntryFor(ps, key, row);
    UpdateReady(ps, e, v0, base, root, h, key, row, path, los, his, leafBuf, found, v, next, edited);
    r := PlaceCell(pool, path, edited, index, newCell, v0, base, los, his, h, key, row);
    PlacedMeans(e, key, row, true, newCell, FateOf(ps, edited, index, |newCell|), Decoded(ps, v), next, pool.view,
                pool.nextPageId, r,
                Replacing(ps, Decoded(ps, v0), root, h, key, WithRow(ps, Decoded(ps, v), edited, index, entry)),
                HeightAfter(ps, Decoded(ps, v0), root, h, key, !FateOf(ps, edited, index, |newCell|).Goes?),
                next + PathPages(ps, Decoded(ps, v0), root, h, key, !FateOf(ps, edited, index, |newCell|).Goes?));
  }

  /** `view` holds, under `root`, the rows left once `key` is gone. */
  ghost predicate DeleteCopied(e: Engine, key: i64, r: Result<(u32, Row)>, view: Disk.Pages, next: nat)
    requires Sane(e)
  {
    var es, ps := StoredRows(e), e.meta.pageSize;
    match r
    case Ok((root, row)) =>
      && key in MapOf(es) && MapOf(es)[key] == row
      && Sound(ps, Decoded(ps, view), root) && DropRow(es, Rows(ps, Decoded(ps, view), root), key)
      && next == e.nextPageId + TreeHeight(e) + 1 && root + 1 == next
      && TreeOk(ps, Decoded(ps, view), root, KEY_MIN, KEY_END, TreeHeight(e))
    case Err(error) =>
      && (error == KeyNotFound <==> key !in MapOf(es))
      && (key in MapOf(es) ==> error == ArithmeticOverflow && next == U32_MAX)
  }

  method DeleteCopy(pool: BufferPool, key: i64) returns (r: Result<(u32, Row)>)
    requires pool.Valid() && Sane(Snap(pool)) && pool.pager.rootPageId != EMPTY_TREE_ROOT
    modifies pool, pool.pager.file
    ensures pool.Valid() && pool.Grown()
    ensures DeleteCopied(old(Snap(pool)), key, r, pool.view, pool.nextPageId)
  {
    hide BufferPool.Inv, Decoded, Sound, Rows, MapOf, DropRow, TreeOk, Contents, PathOk, LeafOk, Located,
      LeafFor, SearchIs, IsLeaf, Wf, Cells, DecodeCells, Disk.IdsIn, SameBody, LeafEntries, SortedCells, SeqRemove;
    var ps, root := pool.pager.pageSize, pool.pager.rootPageId;
    ghost var h := LiveTree(pool);
    TreeHeightIs(Snap(pool), h);
    pool.ValidIds();
    ghost var v0 := pool.view;
    var path, leafBuf, found, los, his := LocateLeaf(pool, root, key, h);
    LocatedLeaf(ps, v0, root, h, key, path, los, his, leafBuf, found);
    LeafDecides(ps, Decoded(ps, v0), root, h, key, LeafCells(ps, leafBuf), found);
    if found.Missing? {
      return Err(KeyNotFound);
    }
    var removed := RowAt(pool, leafBuf, found.index, los[h], his[h], path[h]);
    var edited := EditLeaf(ps, leafBuf, found.index);
    var newRoot :- RemoveFromPath(pool, root, path, leafBuf, edited, found, los, his, h, key);
    return Ok((newRoot, removed.value.1));
  }

  lemma LocatedLeaf(ps: PageSize, view: Disk.Pages, root: nat, h: nat, key: i64, path: seq<nat>, los: seq<int>,
                    his: seq<int>, buf: Bytes, found: Search)
    requires Located(ps, view, root, h, key, path, los, his, buf, found)
    ensures |path| == |los| == |his| == h + 1 && path[0] == root && los[0] == KEY_MIN && his[0] == KEY_END
    ensures PathOk(ps, Decoded(ps, view), path, los, his, h, key)
    ensures IsLeaf(ps, buf) && SearchIs(LeafCells(ps, buf), key, found)
    ensures LeafOk(ps, Decoded(ps, view), LeafCells(ps, buf), los[h], his[h], path[h])
    ensures var leaf := LeafFor(Decoded(ps, view), root, h, key);
      leaf in Decoded(ps, view) && Decoded(ps, view)[leaf] == Leaf(LeafCells(ps, buf))
  {
    hide IsLeaf, SearchIs, LeafOk, PathOk, LeafFor, DecodePage;
    DecodedKeys(ps, view);
  }

  /** Put the edited leaf, copy the path, and look at the new root. */
  method RemoveFromPath(pool: BufferPool, root: nat, path: seq<nat>, ghost leafBuf: Bytes, edited: Bytes,
                        ghost found: Search, ghost los: seq<int>, ghost his: seq<int>, ghost h: nat, ghost key: i64)
    returns (r: Result<u32>)
    requires pool.Valid()
    requires TreeOk(pool.pager.pageSize, Decoded(pool.pager.pageSize, pool.view), root, KEY_MIN, KEY_END, h)
    requires Located(pool.pager.pageSize, pool.view, root, h, key, path, los, his, leafBuf, found) && found.Found?
    requires IsLeaf(pool.pager.pageSize, leafBuf) && IsLeaf(pool.pager.pageSize, edited)
    requires found.index < |LeafCells(pool.pager.pageSize, leafBuf)|
    requires LeafCells(pool.pager.pageSize, edited) == SeqRemove(LeafCells(pool.pager.pageSize, leafBuf), found.index)
    modifies pool, pool.pager.file
    ensures pool.Valid() && pool.Grown()
    ensures var ps := pool.pager.pageSize;
      match r
      case Ok(newRoot) =>
        && Sound(ps, Decoded(ps, pool.view), newRoot)
        && DropRow(Contents(ps, Decoded(ps, old(pool.view)), root, h), Rows(ps, Decoded(ps, pool.view), newRoot), key)
        && TreeOk(ps, Decoded(ps, pool.view), newRoot, KEY_MIN, KEY_END, h)
        && pool.nextPageId == old(pool.nextPageId) + h + 1 && newRoot + 1 == pool.nextPageId
      case Err(e) => e == ArithmeticOverflow && pool.nextPageId == U32_MAX
  {
    hide BufferPool.Inv, Decoded, Sound, Rows, DropRow, TreeOk, Contents, PathOk, LeafOk, Located, LeafSpot,
      IsLeaf, Wf, Cells, DecodeCells, Disk.IdsIn, LeafEntries, SeqRemove, Replacing, Copies, SplitsUp;
    var ps := pool.pager.pageSize;
    pool.ValidIds();
    ghost var v0, base := pool.view, pool.nextPageId;
    LocatedLeaf(ps, v0, root, h, key, path, los, his, leafBuf, found);
    DeleteRows(ps, v0, root, h, key, path, los, his, leafBuf, found, v0, base, edited);
    SpotLeaf(ps, Decoded(ps, v0), edited, found.index, key, los[h], his[h], base);
    ghost var es := LeafEntries(ps, Decoded(ps, v0), LeafCells(ps, edited));
    var newLeafId :- pool.PutFresh(edited);
    LeafPut(ps, v0, newLeafId, edited, pool.view, LeafCells(ps, edited), los[h], his[h], base);
    var newRoot :- CopyToRoot(pool, path, Replaced(newLeafId), v0, base, base, los, his, h, key, es);
    PlainCopies(ps, Decoded(ps, v0), root, KEY_MIN, KEY_END, h, key);
    RowsAre(ps, Decoded(ps, pool.view), newRoot, h);
    RootHasSeparator(ps, Decoded(ps, pool.view), newRoot, h);
    var collapsed := CollapseRootIfNeeded(pool, newRoot);
    return Ok(collapsed.value);
  }

  lemma SpotLeaf(ps: PageSize, p: PageMap, buf: Bytes, index: nat, key: i64, lo: int, hi: int, bound: nat)
    requires LeafSpot(ps, p, buf, index, key, lo, hi, bound)
    ensures IsLeaf(ps, buf) && LeafOk(ps, p, LeafCells(ps, buf), lo, hi, bound) && |buf| == ps
  {
    hide LeafOk;
  }

  // ------------------------------------------------------------------
  // Committing the copy.
  // ------------------------------------------------------------------

  /** Commit `root`; whatever happens, a crash shows the old transaction or the
      new one, and an error leaves the old one. */
  method CommitRoot(pool: BufferPool, root: u32, ghost e: Engine) returns (r: Result<Unit>)
    requires pool.Valid() && Settled(e) && SameCommit(e, Snap(pool))
    modifies pool, pool.pager, pool.pager.file
    ensures pool.Valid() && Moves(e, Snap(pool))
    ensures match r
            case Ok(_) =>
              && pool.committed == old(pool.view) && pool.nextPageId == old(pool.nextPageId)
              && NextOf(e, root, Snap(pool))
            case Err(error) =>
              && error == ArithmeticOverflow && Snap(pool).meta.txnId == U64_MAX && SameCommit(e, Snap(pool))
  {
    hide BufferPool.Inv, Decoded, Moves, Settled, PagerModel.AllSafe;
    r := pool.Commit(root);
    ValidSettles(pool);
    if r.Err? {
      SteadySteps(e, pool);
    } else {
      CommitMoves(e, Snap(pool));
    }
  }

  // ------------------------------------------------------------------
  // The operations.
  // ------------------------------------------------------------------

  lemma SameRows(e: Engine, e': Engine)
    requires SameCommit(e, e') && Sane(e)
    ensures Sane(e') && StoredRows(e') == StoredRows(e)
  {
    hide Sound, Rows, Decoded;
  }

  /** What the copy promised of the view, the commit makes the stored rows. */
  lemma StoreFollows(e: Engine, key: i64, row: Row, update: bool, copied: Result<u32>, view: Disk.Pages, next: nat,
                     r: Result<u32>, e': Engine)
    requires Sane(e) && Copied(e, key, row, update, copied, view, next) && Moves(e, e')
    requires copied.Err? ==> r == copied && SameCommit(e, e') && next == e'.nextPageId
    requires copied.Ok? && r.Ok? ==>
      r == copied && e'.committed == view && e'.nextPageId == next && NextOf(e, r.value, e')
    requires copied.Ok? && r.Err? ==> r.error == ArithmeticOverflow && e'.meta.txnId == U64_MAX && SameCommit(e, e')
    ensures StoreStep(e, key, row, update, r, e')
  {
    hide Decoded, Sound, Rows, Moves, Admits, EncodeRow, PutRow, MapOf, StoreFate, StorePages, StoreHeight, TreeOk;
    if r.Err? {
      SameRows(e, e');
    }
  }

  /** Insert `row` under `key`, which must be absent. */
  method Insert(pool: BufferPool, key: i64, row: Row) returns (r: Result<u32>)
    requires pool.Valid() && Sane(Snap(pool))
    modifies pool, pool.pager, pool.pager.file
    ensures pool.Valid()
    ensures StoreStep(old(Snap(pool)), key, row, false, r, Snap(pool))
  {
    hide BufferPool.Inv, Decoded, Sound, Rows, Moves, Settled, Copied, StoreStep;
    ghost var e := Snap(pool);
    ValidSettles(pool);
    var copied: Result<u32>;
    if pool.pager.rootPageId == EMPTY_TREE_ROOT {
      copied := InsertFirst(pool, key, row);
    } else {
      copied := InsertCopy(pool, key, row);
    }
    r := CommitStore(pool, copied, e, key, row, false);
  }

  /** Replace the row stored under `key`, which must be present. */
  method Update(pool: BufferPool, key: i64, row: Row) returns (r: Result<u32>)
    requires pool.Valid() && Sane(Snap(pool))
    modifies pool, pool.pager, pool.pager.file
    ensures pool.Valid()
    ensures StoreStep(old(Snap(pool)), key, row, true, r, Snap(pool))
  {
    hide BufferPool.Inv, Decoded, Sound, Rows, Moves, Settled, Copied, StoreStep;
    ghost var e := Snap(pool);
    ValidSettles(pool);
    if pool.pager.rootPageId == EMPTY_TREE_ROOT {
      SteadySteps(e, pool);
      NothingToUpdate(e, key, row, Snap(pool));
      return Err(KeyNotFound);
    }
    var copied := UpdateCopy(pool, key, row);
    r := CommitStore(pool, copied, e, key, row, true);
  }

  /** `finalize_root`'s page becomes the committed root, if there is one. */
  method CommitStore(pool: BufferPool, copied: Result<u32>, ghost e: Engine, ghost key: i64, ghost row: Row,
                     ghost update: bool) returns (r: Result<u32>)
    requires pool.Valid() && Settled(e) && Sane(e) && SameCommit(e, Snap(pool))
    requires Copied(e, key, row, update, copied, pool.view, pool.nextPageId)
    modifies pool, pool.pager, pool.pager.file
    ensures pool.Valid()
    ensures StoreStep(e, key, row, update, r, Snap(pool))
  {
    hide BufferPool.Inv, Decoded, Sound, Rows, Moves, Settled, Copied, StoreStep;
    ghost var view, next := pool.view, pool.nextPageId;
    if copied.Err? {
      SteadySteps(e, pool);
      StoreFollows(e, key, row, update, copied, view, next, copied, Snap(pool));
      return copied;
    }
    var done := CommitRoot(pool, copied.value, e);
    r := if done.Err? then Err(done.error) else copied;
    StoreFollows(e, key, row, update, copied, view, next, r, Snap(pool));
  }

  lemma NothingToUpdate(e: Engine, key: i64, row: Row, e': Engine)
    requires e.meta.root == EMPTY_TREE_ROOT && Sane(e) && Changes(e, e', StoredRows(e)) && SameCommit(e, e')
    ensures StoreStep(e, key, row, true, Err(KeyNotFound), e')
    ensures DeleteStep(e, key, Err(KeyNotFound), e')
  {
    hide Moves;
    NoRows(e);
    EmptyMap();
  }

  lemma DeleteFollows(e: Engine, key: i64, copied: Result<(u32, Row)>, view: Disk.Pages, next: nat,
                      r: Result<(u32, Row)>, e': Engine)
    requires Sane(e) && DeleteCopied(e, key, copied, view, next) && Moves(e, e')
    requires copied.Err? ==> r == copied && SameCommit(e, e') && next == e'.nextPageId
    requires copied.Ok? && r.Ok? ==>
      r == copied && e'.committed == view && e'.nextPageId == next && NextOf(e, r.value.0, e')
    requires copied.Ok? && r.Err? ==> r.error == ArithmeticOverflow && e'.meta.txnId == U64_MAX && SameCommit(e, e')
    ensures DeleteStep(e, key, r, e')
  {
    hide Decoded, Sound, Rows, Moves, DropRow, MapOf, TreeHeight, TreeOk;
    if r.Err? {
      SameRows(e, e');
    }
  }

  /** Delete the row stored under `key` and return it. */
  method Delete(pool: BufferPool, key: i64) returns (r: Result<(u32, Row)>)
    requires pool.Valid() && Sane(Snap(pool))
    modifies pool, pool.pager, pool.pager.file
    ensures pool.Valid()
    ensures DeleteStep(old(Snap(pool)), key, r, Snap(pool))
  {
    hide BufferPool.Inv, Decoded, Sound, Rows, Moves, Settled, DeleteCopied, DeleteStep;
    ghost var e := Snap(pool);
    ValidSettles(pool);
    if pool.pager.rootPageId == EMPTY_TREE_ROOT {
      SteadySteps(e, pool);
      NothingToUpdate(e, key, Row([]), Snap(pool));
      return Err(KeyNotFound);
    }
    var copied := DeleteCopy(pool, key);
    ghost var view, next := pool.view, pool.nextPageId;
    if copied.Err? {
      SteadySteps(e, pool);
      DeleteFollows(e, key, copied, view, next, copied, Snap(pool));
      return copied;
    }
    var done := CommitRoot(pool, copied.value.0, e);
    r := if done.Err? then Err(done.error) else copied;
    DeleteFollows(e, key, copied, view, next, r, Snap(pool));
  }
}
