/** Splits are by cell count, not by bytes (`leaf_split_with_new_cell`): exactly
    when both halves fit, a cell-size condition under which they always do, and
    an input for which they do not. */
module SplitBound {
  import opened Errors
  import opened Codec
  import opened Page
  import opened Slotted
  import opened PageModel
  import opened Nodes
  import opened Builder
  import opened RowCodec
  import opened Tree
  import opened TreeOps
  import opened RowMap
  import opened LeafOps
  import opened Recovery
  import opened Room
  import opened CopyPath
  import opened OverflowChains
  import opened Mutate
  import opened TreeWrite
  import Disk

  // ------------------------------------------------------------------
  // Exactly when a split keeps its cells.
  // ------------------------------------------------------------------

  /** The page built from `cells` is a leaf that holds them. */
  predicate BuildsLeaf(ps: PageSize, cells: seq<Bytes>) {
    && BuiltLeaf(ps, cells).Ok?
    && IsLeaf(ps, BuiltLeaf(ps, cells).value)
    && Cells(Local(ps), BuiltLeaf(ps, cells).value) == cells
  }

  lemma SplitKeepsCellsIff(ps: PageSize, all: seq<Bytes>)
    requires forall i | 0 <= i < |all| :: WfCell(Local(ps), all[i])
    ensures BuildsLeaf(ps, all[..|all| / 2]) && BuildsLeaf(ps, all[|all| / 2..]) <==> HalvesFit(ps, Lens(all))
  {
    hide BuiltLeaf, IsLeaf, Cells, WfCell, HalvesFit, Fits, Lens;
    BuiltLeafIff(ps, all[..|all| / 2]);
    BuiltLeafIff(ps, all[|all| / 2..]);
    HalvesFitCells(ps, all);
  }

  /** The pages a split puts are leaves that hold the two halves of its cells if
      and only if both halves fit. */
  lemma SplitPutKeepsIff(ps: PageSize, all: seq<Bytes>, view: map<nat, Bytes>, r: NodeResult)
    requires SplitPut(ps, all, view, r) && forall i | 0 <= i < |all| :: WfCell(Local(ps), all[i])
    ensures && HoldsCells(ps, view[r.left], all[..|all| / 2])
            && HoldsCells(ps, view[r.right], all[|all| / 2..])
       <==> HalvesFit(ps, Lens(all))
  {
    hide BuiltLeaf, IsLeaf, Cells, WfCell, HalvesFit, Lens, DecodeCells;
    SplitKeepsCellsIff(ps, all);
  }

  predicate HoldsCells(ps: PageSize, page: Bytes, cells: seq<Bytes>) {
    IsLeaf(ps, page) && Cells(Local(ps), page) == cells
  }

  // ------------------------------------------------------------------
  // Three rows that do not survive.
  // ------------------------------------------------------------------

  /** The cell of a row that needs no overflow page. */
  function CellOf(key: i64, row: Row): Bytes {
    if EncodeRow(row).Ok? then BuildLeafCell(key, |EncodeRow(row).value|, 0, EncodeRow(row).value) else []
  }

  lemma CellOfHolds(ps: PageSize, p: PageMap, key: i64, row: Row, bound: nat)
    requires EncodeRow(row).Ok? && |EncodeRow(row).value| <= MaxLocal(ps) && 0 < bound
    ensures CellHolds(ps, p, CellOf(key, row), key, row, bound)
    ensures |CellOf(key, row)| == LEAF_CELL_FIXED_LEN + |EncodeRow(row).value|
  {
    hide ChainOk, ChainData, EncodeRow, CellHolds, BuildLeafCell;
    var encoded := EncodeRow(row).value;
    assert encoded[..|encoded|] == encoded;
    CellRoundTrip(ps, p, key, row, encoded, encoded, 0, bound);
  }

  /** The leaf page that inserting two rows of 984 bytes into a new file builds. */
  function TwoRows(): Result<Bytes> {
    BuiltLeaf(4096, [CellOf(1, BlobRow(975)), CellOf(2, BlobRow(975))])
  }

  /** That page, as the root, is a tree of the two rows. */
  lemma TwoRowsStored(p: PageMap, root: nat)
    requires root in p && root >= FIRST_DATA_PAGE_ID && TwoRows().Ok? && p[root] == DecodePage(4096, TwoRows().value)
    ensures IsLeaf(4096, TwoRows().value) && Start(TwoRows().value) == 2088
    ensures Cells(Local(4096), TwoRows().value) == [CellOf(1, BlobRow(975)), CellOf(2, BlobRow(975))]
    ensures |CellOf(1, BlobRow(975))| == |CellOf(2, BlobRow(975))| == 1000
    ensures LeafCells(4096, TwoRows().value)[0].key == 1 && LeafCells(4096, TwoRows().value)[1].key == 2
    ensures TreeOk(4096, p, root, KEY_MIN, KEY_END, 0)
    ensures Contents(4096, p, root, 0) == [Entry(1, BlobRow(975), 1002), Entry(2, BlobRow(975), 1002)]
  {
    hide CellOf, BlobRow, EncodeRow, BuiltLeaf, IsLeaf, Cells, WfCell, CellOk, EntryOf, DecodeCell, LeafOk, TreeOk, Contents,
      LeafEntries;
    var ps: PageSize, row := 4096, BlobRow(975);
    var a, b := CellOf(1, row), CellOf(2, row);
    BlobRowLength(975);
    CellOfHolds(ps, p, 1, row, root);
    CellOfHolds(ps, p, 2, row, root);
    TotalTwo(a, b);
    var t := BuiltLeafRefines(ps, [a, b]);
    LeafDecodes(ps, t);
    var x, y := DecodeCell(a), DecodeCell(b);
    assert DecodeCells([a, b]) == [x, y];
    OneCellLeaf(ps, p, x, root);
    assert SeqInsert([x], 1, y) == [x, y];
    LeafWithCell(ps, p, [x], 1, y, KEY_MIN, KEY_END, root, root);
    LeafIsTree(ps, p, root, [x, y], KEY_MIN, KEY_END, root);
    EntriesTwo(ps, p, x, y);
  }

  lemma OneCellLeaf(ps: PageSize, p: PageMap, c: Cell, bound: nat)
    requires CellOk(ps, p, c, bound)
    ensures LeafOk(ps, p, [c], KEY_MIN, KEY_END, bound)
  {
    hide CellOk;
  }

  lemma EntriesTwo(ps: PageSize, p: PageMap, x: Cell, y: Cell)
    ensures LeafEntries(ps, p, [x, y]) == [EntryOf(ps, p, x), EntryOf(ps, p, y)]
  {
    hide EntryOf;
  }

  /** Such an engine exists. */
  lemma UnfitEngine(e: Engine) returns (f: Engine)
    ensures f.meta.pageSize == 4096 && f.meta.root >= FIRST_DATA_PAGE_ID && f.meta.root in f.committed
    ensures TwoRows() == Ok(f.committed[f.meta.root])
  {
    hide BlobRow, CellOf, EncodeRow, BuiltLeaf, IsLeaf, Cells, WfCell, CellOk;
    BlobRowLength(975);
    CellOfHolds(4096, map[], 1, BlobRow(975), 2);
    CellOfHolds(4096, map[], 2, BlobRow(975), 2);
    TotalTwo(CellOf(1, BlobRow(975)), CellOf(2, BlobRow(975)));
    var t := BuiltLeafRefines(4096, [CellOf(1, BlobRow(975)), CellOf(2, BlobRow(975))]);
    f := e.(meta := Disk.MetaContent(4096, 0, 2, 3), committed := map[2 := t]);
  }

  /** At page size 4096, on a root leaf of two rows of 984 bytes: a third row of
      3069 bytes, which fits a page alone, goes to a right half that is built,
      put and committed over its own pointer array. Inserting it succeeds, and
      by `StoreStep` what is then stored is no tree. */
  lemma UnfitInsert(e: Engine)
    requires e.meta.pageSize == 4096 && e.meta.root >= FIRST_DATA_PAGE_ID && e.meta.root in e.committed
    requires TwoRows() == Ok(e.committed[e.meta.root])
    ensures Sane(e) && MapOf(StoredRows(e)) == map[1 := BlobRow(975), 2 := BlobRow(975)]
    ensures RowCellLen(4096, BlobRow(3060)) == 3085 && EncodeRow(BlobRow(3060)).Ok?
    ensures StoreFate(e, 3, BlobRow(3060), false).Overruns? && !Admits(e, 3, BlobRow(3060), false)
  {
    hide BlobRow, CellOf, EncodeRow, TreeOk, Contents, IsLeaf, Cells, Rows, BuiltLeaf, DecodePage, TwoRows, StoreFate,
      MapOf, LeafFate;
    var p, root := Committed(e), e.meta.root;
    BlobRowLength(3060);
    TwoRowsStored(p, root);
    RowsAre(4096, p, root, 0);
    MapTwo(Entry(1, BlobRow(975), 1002), Entry(2, BlobRow(975), 1002));
    TwoRowsFate();
    LeafDecodes(4096, e.committed[root]);
    LeafForLeaf(p, root, 0, 3);
    StoreFateIs(e, 3, BlobRow(3060), false, 0);
  }

  /** So the insert the engine accepts destroys the tree. */
  lemma UnfitOutcome(e: Engine, r: Result<u32>, e': Engine)
    requires e.meta.pageSize == 4096 && e.meta.root >= FIRST_DATA_PAGE_ID && e.meta.root in e.committed
    requires TwoRows() == Ok(e.committed[e.meta.root])
    ensures Sane(e)
    ensures StoreStep(e, 3, BlobRow(3060), false, r, e') ==>
      (r.Ok? ==> !Sane(e')) && (r.Err? ==> r.error == ArithmeticOverflow && Exhausted(e'))
  {
    hide BlobRow, EncodeRow, Rows, TwoRows, StoreFate, MapOf, Moves, PutRow, Admits, Sound;
    UnfitInsert(e);
  }

  lemma MapTwo(a: Entry, b: Entry)
    ensures MapOf([a, b]) == map[a.key := a.row][b.key := b.row]
  {
    assert [a, b][..1] == [a];
    MapOne(a);
  }

  /** What becomes of the third row. */
  lemma TwoRowsFate()
    requires TwoRows().Ok? && IsLeaf(4096, TwoRows().value) && Start(TwoRows().value) == 2088
    requires Cells(Local(4096), TwoRows().value) == [CellOf(1, BlobRow(975)), CellOf(2, BlobRow(975))]
    requires |CellOf(1, BlobRow(975))| == |CellOf(2, BlobRow(975))| == 1000
    requires LeafCells(4096, TwoRows().value)[0].key == 1 && LeafCells(4096, TwoRows().value)[1].key == 2
    ensures LeafFate(4096, TwoRows().value, 3, 3085, false) == Overruns
  {
    var t := TwoRows().value;
    CellsCount(4096, t);
    hide CellOf, BlobRow, Wf, Cells, TwoRows, DecodeCells, IsLeaf;
    RankIs(LeafCells(4096, t), 3, 2);
    assert Lens(Cells(Local(4096), t)) == [1000, 1000];
    assert SeqInsert<nat>([1000, 1000], 2, 3085) == [1000, 1000, 3085];
    ThreeLens();
  }

  lemma ThreeLens()
    ensures SplitFate(4096, [1000, 1000, 3085]) == Overruns
  {
    var lens: seq<nat> := [1000, 1000, 3085];
    assert lens[..1] == [1000] && lens[1..] == [1000, 3085];
    SumTwo(1000, 3085);
    SumOne(1000);
  }

  lemma SumOne(a: nat)
    ensures Sum([a]) == a
  {
    assert [a][..0] == [];
  }

  lemma SumTwo(a: nat, b: nat)
    ensures Sum([a, b]) == a + b
  {
    assert [a, b][..1] == [a];
    SumOne(a);
  }

  lemma TotalOne(a: Bytes)
    ensures TotalLen([a]) == |a|
  {
    assert [a][..0] == [];
    NoTotal();
    TotalStep([a]);
  }

  lemma TotalTwo(a: Bytes, b: Bytes)
    ensures TotalLen([a, b]) == |a| + |b|
  {
    assert [a, b][..1] == [a];
    TotalOne(a);
    TotalStep([a, b]);
  }

  // ------------------------------------------------------------------
  // A size condition under which splits always fit.
  // ------------------------------------------------------------------

  /** What a fresh leaf has for cells and pointers. */
  function LeafCapacity(ps: PageSize): nat { UsableU16(ps) - LEAF_HEADER_LEN }

  /** Costs between `m` and `n` split well: `n * (C + 2m) <= 2 * m * C`. */
  predicate SizeRatio(ps: PageSize, m: nat, n: nat) {
    0 < m && n * (LeafCapacity(ps) + 2 * m) <= 2 * m * LeafCapacity(ps)
  }

  predicate CostsIn(lens: seq<nat>, m: nat, n: nat) {
    forall i | 0 <= i < |lens| :: m <= lens[i] + POINTER_LEN <= n
  }

  lemma Next(k: int, m: int)
    ensures (k + 1) * m == k * m + m
  {
  }

  lemma {:induction false} SumBounds(lens: seq<nat>, m: nat, n: nat)
    requires CostsIn(lens, m, n)
    ensures |lens| * m <= Sum(lens) + 2 * |lens| <= |lens| * n
  {
    if |lens| > 0 {
      var k := |lens| - 1;
      SumBounds(lens[..k], m, n);
      Next(k, m);
      Next(k, n);
    }
  }

  lemma Scale(a: int, b: int, c: nat)
    requires a <= b
    ensures a * c <= b * c
  {
  }

  lemma Cancel(a: int, b: int, c: nat)
    requires a * c <= b * c && c > 0
    ensures a <= b
  {
    Next(b, c);
    if a > b {
      Scale(b + 1, a, c);
    }
  }

  lemma Reorder(k: int, m: int, n: int)
    ensures (2 * k * m) * n == (k * n) * (2 * m)
  {
    assert (2 * k * m) * n == 2 * (k * m * n);
    assert (k * n) * (2 * m) == 2 * (k * n * m);
    assert k * m * n == k * n * m;
  }

  /** `k` cells of cost at most `n` fit when `2k - 2` cells of cost `m` do. */
  lemma HalfFits(ps: PageSize, k: nat, count: nat, m: nat, n: nat)
    requires SizeRatio(ps, m, n) && 2 * k <= count + 1 && (count - 1) * m <= LeafCapacity(ps)
    ensures k * n <= LeafCapacity(ps)
  {
    var c := LeafCapacity(ps);
    hide LeafCapacity;
    TwoHalves(k, count, m, c);
    Scale(2 * k * m, c + 2 * m, n);
    Reorder(k, m, n);
    assert (c + 2 * m) * n == n * (c + 2 * m);
    assert 2 * m * c == c * (2 * m);
    Cancel(k * n, c, 2 * m);
  }

  lemma TwoHalves(k: nat, count: nat, m: nat, c: nat)
    requires 2 * k <= count + 1 && (count - 1) * m <= c
    ensures 2 * k * m <= c + 2 * m
  {
    Scale(2 * k, count + 1, m);
    assert (count + 1) * m == (count - 1) * m + 2 * m;
  }

  /** Both count-based halves fit, for any cells within the ratio of which all
      but one fit a page together. */
  lemma RatioSplitFits(ps: PageSize, lens: seq<nat>, m: nat, n: nat)
    requires SizeRatio(ps, m, n) && CostsIn(lens, m, n)
    requires (|lens| - 1) * m <= LeafCapacity(ps)
    ensures HalvesFit(ps, lens)
  {
    var mid := |lens| / 2;
    HalfFits(ps, mid, |lens|, m, n);
    HalfFits(ps, |lens| - mid, |lens|, m, n);
    SumBounds(lens[..mid], m, n);
    SumBounds(lens[mid..], m, n);
  }

  /** A split of at most two cells always fits: each half has at most one, and
      no cell keeps more than `max_local` bytes. */
  lemma OneCellSplitFits(ps: PageSize, lens: seq<nat>)
    requires |lens| <= 2 && forall i | 0 <= i < |lens| :: lens[i] <= LEAF_CELL_FIXED_LEN + MaxLocal(ps)
    ensures HalvesFit(ps, lens)
  {
    var mid := |lens| / 2;
    assert Sum([]) == 0;
    assert mid > 0 ==> lens[..mid][..0] == [];
    assert |lens| > mid ==> lens[mid..][..0] == [];
  }

  lemma Expand(m: int, c: int)
    ensures m * (c + 2 * m) == c * m + (2 * m) * m
    ensures 2 * m * c == c * m + c * m
  {
  }

  /** Equal costs of at most half the capacity always split well. */
  lemma EqualCostsSplit(ps: PageSize, m: nat)
    requires 0 < m
    ensures SizeRatio(ps, m, m) <==> 2 * m <= LeafCapacity(ps)
  {
    var c := LeafCapacity(ps);
    hide LeafCapacity;
    Expand(m, c);
    if 2 * m <= c {
      Scale(2 * m, c, m);
    }
    if (2 * m) * m <= c * m {
      Cancel(2 * m, c, m);
    }
  }

  // ------------------------------------------------------------------
  // Room everywhere.
  // ------------------------------------------------------------------

  predicate EntriesIn(es: seq<Entry>, m: nat, n: nat) {
    forall x | x in es :: m <= x.cost <= n
  }

  /** The leaf's cell lengths are the costs of its rows, less the pointers. */
  lemma LeafCosts(ps: PageSize, p: PageMap, s: Bytes, m: nat, n: nat)
    requires IsLeaf(ps, s) && EntriesIn(LeafEntries(ps, p, LeafCells(ps, s)), m, n)
    ensures CostsIn(Lens(Cells(Local(ps), s)), m, n)
    ensures |Cells(Local(ps), s)| * m <= LeafCapacity(ps)
  {
    LeafCostsOf(ps, p, s, m, n);
    var lens := Lens(Cells(Local(ps), s));
    SumBounds(lens, m, n);
    LeafIsFull(ps, s);
  }

  lemma LeafIsFull(ps: PageSize, s: Bytes)
    requires IsLeaf(ps, s)
    ensures Sum(Lens(Cells(Local(ps), s))) + 2 * |Cells(Local(ps), s)| <= LeafCapacity(ps)
  {
    WfFits(Local(ps), s);
    hide Wf, Cells;
  }

  lemma LeafCostsOf(ps: PageSize, p: PageMap, s: Bytes, m: nat, n: nat)
    requires IsLeaf(ps, s) && EntriesIn(LeafEntries(ps, p, LeafCells(ps, s)), m, n)
    ensures CostsIn(Lens(Cells(Local(ps), s)), m, n)
  {
    hide Wf, Cells;
    CellsCount(ps, s);
    var cells, es := Cells(Local(ps), s), LeafEntries(ps, p, LeafCells(ps, s));
    forall i | 0 <= i < |cells|
      ensures m <= Lens(cells)[i] + POINTER_LEN <= n
    {
      CellsAreWf(Local(ps), s, i);
      assert es[i] in es;
      CellCost(ps, p, cells[i]);
    }
  }

  lemma CellCost(ps: PageSize, p: PageMap, cell: Bytes)
    requires WfCell(Local(ps), cell)
    ensures EntryOf(ps, p, DecodeCell(cell)).cost == |cell| + POINTER_LEN
  {
    hide DecodeRow, Payload;
  }

  /** A leaf with cells within the ratio has room for one more of them. */
  lemma RatioRoom(ps: PageSize, p: PageMap, s: Bytes, key: i64, len: nat, m: nat, n: nat)
    requires IsLeaf(ps, s) && EntriesIn(LeafEntries(ps, p, LeafCells(ps, s)), m, n)
    requires SizeRatio(ps, m, n) && m <= len + POINTER_LEN <= n
    ensures LeafFate(ps, s, key, len, false).Keeps()
    ensures Rank(LeafCells(ps, s), key) < |LeafCells(ps, s)| ==> LeafFate(ps, s, key, len, true).Keeps()
  {
    hide Wf, Cells, DecodeCells, HalvesFit, SizeRatio, LeafCapacity, EntriesIn, Rank, LeafEntries;
    CellsCount(ps, s);
    LeafCosts(ps, p, s, m, n);
    var cells, lens, i := Cells(Local(ps), s), Lens(Cells(Local(ps), s)), Rank(LeafCells(ps, s), key);
    CostsInsert(lens, i, len, m, n);
    assert (|lens| + 1 - 1) * m == |lens| * m;
    RatioSplitFits(ps, SeqInsert<nat>(lens, i, len), m, n);
    if i < |lens| {
      Scale(|lens| - 1, |lens|, m);
      RatioSplitFits(ps, lens[i := len], m, n);
    }
  }

  lemma CostsInsert(lens: seq<nat>, i: nat, len: nat, m: nat, n: nat)
    requires CostsIn(lens, m, n) && i <= |lens| && m <= len + POINTER_LEN <= n
    ensures |SeqInsert<nat>(lens, i, len)| == |lens| + 1 && CostsIn(SeqInsert<nat>(lens, i, len), m, n)
    ensures i < |lens| ==> CostsIn(lens[i := len], m, n)
  {
  }

  /** The key's leaf, as the committed pages hold it. */
  lemma CommittedLeaf(e: Engine, h: nat, key: i64) returns (leaf: nat)
    requires Sane(e) && TreeOk(e.meta.pageSize, Committed(e), e.meta.root, KEY_MIN, KEY_END, h)
    ensures leaf == LeafFor(Committed(e), e.meta.root, h, key)
    ensures leaf in Committed(e) && leaf in e.committed && IsLeaf(e.meta.pageSize, e.committed[leaf])
    ensures var ps, p := e.meta.pageSize, Committed(e);
      var cells := LeafCells(ps, e.committed[leaf]);
      && p[leaf] == Leaf(cells)
      && StoredRows(e) == Replacing(ps, p, e.meta.root, h, key, LeafEntries(ps, p, cells))
      && AllBelow(Before(ps, p, e.meta.root, h, key), key) && AllAbove(After(ps, p, e.meta.root, h, key), key)
  {
    hide TreeOk, Contents, Before, After, LeafFor, AllBelow, AllAbove, IsLeaf, Sound, Rows, DecodeCells, LeafEntries;
    var ps, p, root := e.meta.pageSize, Committed(e), e.meta.root;
    RootIsPage(ps, p, root, h);
    RowsAre(ps, p, root, h);
    AroundLeaf(ps, p, root, KEY_MIN, KEY_END, h, key);
    leaf := LeafFor(p, root, h, key);
    DecodedKeys(ps, e.committed);
    LeafDecoded(ps, e.committed[leaf]);
  }

  lemma RootIsPage(ps: PageSize, p: PageMap, root: nat, h: nat)
    requires TreeOk(ps, p, root, KEY_MIN, KEY_END, h)
    ensures root != EMPTY_TREE_ROOT
  {
  }

  lemma LeafDecoded(ps: PageSize, s: Bytes)
    requires DecodePage(ps, s).Leaf?
    ensures IsLeaf(ps, s) && DecodePage(ps, s) == Leaf(LeafCells(ps, s))
  {
    hide IsLeaf, IsInterior, Cells;
  }

  /** A stored key is found in its leaf. */
  lemma StoredInLeaf(ps: PageSize, p: PageMap, b: seq<Entry>, cells: seq<Cell>, a: seq<Entry>, key: i64)
    requires AllBelow(b, key) && AllAbove(a, key) && SortedCells(cells)
    requires key in MapOf(b + LeafEntries(ps, p, cells) + a)
    ensures Rank(cells, key) < |cells|
  {
    hide MapOf, AllBelow, AllAbove, DecodeRow, Payload;
    var l := LeafEntries(ps, p, cells);
    MapConcat(b + l, a);
    MapConcat(b, l);
    AbsentAround(b, key);
    AbsentAround(a, key);
    MapKeys(l, key);
    var i :| 0 <= i < |l| && l[i].key == key;
    RankIs(cells, key, i);
  }

  /** If every stored row and the new one cost between `m` and `n`, and the two
      are in the ratio, storing the new row is always admitted. */
  lemma RatioAdmits(e: Engine, key: i64, row: Row, update: bool, m: nat, n: nat)
    requires Sane(e) && EntriesIn(StoredRows(e), m, n) && SizeRatio(e.meta.pageSize, m, n)
    requires EncodeRow(row).Ok? ==>
      |EncodeRow(row).value| <= U32_MAX && m <= RowCost(e.meta.pageSize, row) <= n
    requires update ==> key in MapOf(StoredRows(e))
    ensures Admits(e, key, row, update)
  {
    hide TreeOk, Rows, EntriesIn, SizeRatio, EncodeRow, MapOf, LeafFate, Before, After, LeafFor, StoreFate,
      LeafEntries, IsLeaf, DecodeCells, Decoded, AllBelow, AllAbove;
    if EncodeRow(row).Ok? && e.meta.root == EMPTY_TREE_ROOT {
      EmptyFate(e, key, row, update);
    } else if EncodeRow(row).Ok? {
      var ps, p, root, len := e.meta.pageSize, Committed(e), e.meta.root, RowCellLen(e.meta.pageSize, row);
      var h: nat :| TreeOk(ps, p, root, KEY_MIN, KEY_END, h);
      var leaf := CommittedLeaf(e, h, key);
      var cells := LeafCells(ps, e.committed[leaf]);
      var b, l, a := Before(ps, p, root, h, key), LeafEntries(ps, p, cells), After(ps, p, root, h, key);
      PartIn(b, l, a, m, n);
      RatioRoom(ps, p, e.committed[leaf], key, len, m, n);
      StoreFateIs(e, key, row, update, h);
      if update {
        LeafSortedIn(ps, p, root, KEY_MIN, KEY_END, h, key);
        StoredInLeaf(ps, p, b, cells, a, key);
      }
    }
  }

  lemma EmptyFate(e: Engine, key: i64, row: Row, update: bool)
    requires e.meta.root == EMPTY_TREE_ROOT
    ensures StoreFate(e, key, row, update).Goes?
  {
  }

  lemma PartIn(b: seq<Entry>, l: seq<Entry>, a: seq<Entry>, m: nat, n: nat)
    requires EntriesIn(b + l + a, m, n)
    ensures EntriesIn(l, m, n)
  {
    forall x | x in l
      ensures m <= x.cost <= n
    {
      assert x in b + l + a;
    }
  }

  lemma {:induction false} LeafSortedIn(ps: PageSize, p: PageMap, id: nat, lo: int, hi: int, h: nat, key: i64)
    requires TreeOk(ps, p, id, lo, hi, h)
    ensures var leaf := LeafFor(p, id, h, key); leaf in p && p[leaf].Leaf? ==> SortedCells(p[leaf].cells)
    decreases h
  {
    hide NodeOk;
    if h > 0 {
      var keys, children := p[id].keys, p[id].children;
      NodeCounts(ps, p, keys, children, lo, hi, h - 1, id);
      var i := Route(keys, key);
      ChildOk(ps, p, keys, children, lo, hi, h - 1, id, i);
      LeafSortedIn(ps, p, children[i], Lower(keys, lo, i), Upper(keys, hi, i), h - 1, key);
    }
  }
}
