/** When a new cell has room: what decides whether an insert or an update
    succeeds, and a condition on cell sizes under which it always does. */
module Room {
  import opened Codec
  import opened Page
  import opened Slotted
  import opened PageModel
  import opened Nodes
  import opened Builder
  import opened RowCodec
  import opened Tree
  import opened TreeOps
  import opened LeafOps
  import opened Recovery
  import opened CopyPath
  import opened OverflowChains

  // ------------------------------------------------------------------
  // Where a key belongs in a leaf.
  // ------------------------------------------------------------------

  /** How many cells lie below `key`. */
  function Rank(cells: seq<Cell>, key: i64): (i: nat)
    ensures i <= |cells|
  {
    if |cells| == 0 || key <= cells[0].key then 0 else 1 + Rank(cells[1..], key)
  }

  lemma {:induction false} RankIs(cells: seq<Cell>, key: i64, i: nat)
    requires i <= |cells|
    requires forall j | 0 <= j < i :: cells[j].key < key
    requires i < |cells| ==> key <= cells[i].key
    ensures Rank(cells, key) == i
  {
    if i > 0 {
      RankIs(cells[1..], key, i - 1);
    }
  }

  /** Both results of the leaf search are the rank. */
  lemma SearchIsRank(cells: seq<Cell>, key: i64, found: Search)
    requires SortedCells(cells) && SearchIs(cells, key, found)
    ensures found.index == Rank(cells, key)
  {
    RankIs(cells, key, found.index);
  }

  // ------------------------------------------------------------------
  // The fate of a row in a leaf.
  // ------------------------------------------------------------------

  function RowCellLen(ps: PageSize, row: Row): nat {
    LEAF_CELL_FIXED_LEN + if EncodeRow(row).Ok? then Min(|EncodeRow(row).value|, MaxLocal(ps)) else 0
  }

  /** What a row's cell and its pointer take of a leaf. */
  function RowCost(ps: PageSize, row: Row): nat { RowCellLen(ps, row) + POINTER_LEN }

  /** Removing cell `i` frees its pointer, not its bytes. */
  function ReplaceFate(ps: PageSize, s: Bytes, i: nat, len: nat): Fate
    requires IsLeaf(ps, s) && i < |Cells(Local(ps), s)|
  {
    if LEAF_HEADER_LEN + 2 * Count(s) + len <= Start(s) then Goes
    else SplitFate(ps, Lens(Cells(Local(ps), s))[i := len])
  }

  /** What becomes of a cell of length `len` for `key` on the leaf page `s`. */
  function LeafFate(ps: PageSize, s: Bytes, key: i64, len: nat, update: bool): Fate {
    if !IsLeaf(ps, s) then Aborts
    else
      var i := Rank(LeafCells(ps, s), key);
      if update then (if i < |Cells(Local(ps), s)| then ReplaceFate(ps, s, i, len) else Aborts)
      else if i <= Count(s) then FateOf(ps, s, i, len) else Aborts
  }

  /** Room does not depend on the checksum trailer. */
  lemma FateSameBody(ps: PageSize, s: Bytes, t: Bytes, key: i64, len: nat, update: bool)
    requires SameBody(s, t) && IsLeaf(ps, s)
    ensures LeafFate(ps, t, key, len, update) == LeafFate(ps, s, key, len, update)
  {
    hide Wf, Cells, SameBody, Rank, SplitFate, Lens, DecodeCells;
    SameLeaf(ps, s, t);
  }

  lemma SameLeaf(ps: PageSize, s: Bytes, t: Bytes)
    requires SameBody(s, t) && IsLeaf(ps, s)
    ensures IsLeaf(ps, t) && Cells(Local(ps), t) == Cells(Local(ps), s)
    ensures Count(t) == Count(s) && Start(t) == Start(s)
  {
    SameBodyBytes(s, t);
    LeafHeader(ps, s);
    SameBodyWf(Local(ps), s, t);
    hide Wf, Cells;
  }

  lemma LeafHeader(ps: PageSize, s: Bytes)
    requires IsLeaf(ps, s)
    ensures |s| >= LEAF_HEADER_LEN + CHECKSUM_LEN
  {
  }

  /** The edited page of an update has room exactly when the leaf does. */
  lemma ReplaceIsInsert(ps: PageSize, s: Bytes, i: nat, t: Bytes, len: nat)
    requires IsLeaf(ps, s) && IsLeaf(ps, t) && i < |Cells(Local(ps), s)|
    requires Cells(Local(ps), t) == SeqRemove(Cells(Local(ps), s), i) && Start(t) == Start(s)
    ensures i <= Count(t)
    ensures FateOf(ps, t, i, len) == ReplaceFate(ps, s, i, len)
  {
    hide Wf, Cells, SplitFate;
    CellsCount(ps, s);
    CellsCount(ps, t);
    var cells := Cells(Local(ps), s);
    assert SeqInsert<nat>(Lens(SeqRemove(cells, i)), i, len) == Lens(cells)[i := len];
  }

  // ------------------------------------------------------------------
  // The fate of a row in the committed tree.
  // ------------------------------------------------------------------

  /** What becomes of the cell of `row`, wherever `key` belongs. */
  ghost function StoreFate(e: Engine, key: i64, row: Row, update: bool): Fate {
    var ps, p, root := e.meta.pageSize, Committed(e), e.meta.root;
    if root == EMPTY_TREE_ROOT then Goes
    else if exists h: nat :: TreeOk(ps, p, root, KEY_MIN, KEY_END, h) then
      var h: nat :| TreeOk(ps, p, root, KEY_MIN, KEY_END, h);
      var leaf := LeafFor(p, root, h, key);
      if leaf in e.committed then LeafFate(ps, e.committed[leaf], key, RowCellLen(ps, row), update) else Aborts
    else Aborts
  }

  lemma StoreFateIs(e: Engine, key: i64, row: Row, update: bool, h: nat)
    requires e.meta.root != EMPTY_TREE_ROOT
    requires TreeOk(e.meta.pageSize, Committed(e), e.meta.root, KEY_MIN, KEY_END, h)
    ensures var leaf := LeafFor(Committed(e), e.meta.root, h, key);
      leaf in e.committed ==>
        StoreFate(e, key, row, update)
        == LeafFate(e.meta.pageSize, e.committed[leaf], key, RowCellLen(e.meta.pageSize, row), update)
  {
    hide TreeOk, LeafFor, LeafFate, Decoded, RowCellLen;
    var ps, p, root := e.meta.pageSize, Committed(e), e.meta.root;
    var h': nat :| TreeOk(ps, p, root, KEY_MIN, KEY_END, h')
      && StoreFate(e, key, row, update)
      == if LeafFor(p, root, h', key) in e.committed
         then LeafFate(ps, e.committed[LeafFor(p, root, h', key)], key, RowCellLen(ps, row), update) else Aborts;
    HeightUnique(ps, p, root, KEY_MIN, KEY_END, h, KEY_MIN, KEY_END, h');
  }

  /** Exactly when storing `row` does what it should: its length fits the cell's
      `u32`, and its leaf has room or splits into halves that fit. The code
      checks neither. */
  ghost predicate Admits(e: Engine, key: i64, row: Row, update: bool) {
    EncodeRow(row).Ok? ==> |EncodeRow(row).value| <= U32_MAX && StoreFate(e, key, row, update).Keeps()
  }

  // ------------------------------------------------------------------
  // The pages and the height a call ends with.
  // ------------------------------------------------------------------

  ghost predicate HasHeight(e: Engine, h: nat) {
    TreeOk(e.meta.pageSize, Committed(e), e.meta.root, KEY_MIN, KEY_END, h)
  }

  /** The height of the committed tree. */
  ghost function TreeHeight(e: Engine): nat {
    if h: nat :| HasHeight(e, h) then h else 0
  }

  lemma TreeHeightIs(e: Engine, h: nat)
    requires HasHeight(e, h)
    ensures TreeHeight(e) == h
  {
    hide TreeOk;
    HeightUnique(e.meta.pageSize, Committed(e), e.meta.root, KEY_MIN, KEY_END, h, KEY_MIN, KEY_END, TreeHeight(e));
  }

  function RowSpill(ps: PageSize, row: Row): nat {
    if EncodeRow(row).Ok? then SpillPages(ps, |EncodeRow(row).value|) else 0
  }

  /** Page ids a successful store takes: its overflow chain, then the copied path,
      one page a level but two where a page splits, and a root over a split one. */
  ghost function StorePages(e: Engine, key: i64, row: Row, update: bool): nat {
    var ps, root, split := e.meta.pageSize, e.meta.root, !StoreFate(e, key, row, update).Goes?;
    var copied := if root == EMPTY_TREE_ROOT then 1 else PathPages(ps, Committed(e), root, TreeHeight(e), key, split);
    RowSpill(ps, row) + copied
  }

  /** The height of the tree a successful store leaves. */
  ghost function StoreHeight(e: Engine, key: i64, row: Row, update: bool): nat {
    var ps, root, split := e.meta.pageSize, e.meta.root, !StoreFate(e, key, row, update).Goes?;
    if root == EMPTY_TREE_ROOT then 0
    else if Grows(ps, Committed(e), root, TreeHeight(e), key, split) then TreeHeight(e) + 1
    else TreeHeight(e)
  }

  /** A cell that goes into its leaf keeps the height and costs its overflow pages
      and one page a level. */
  lemma PlainStore(e: Engine, key: i64, row: Row, update: bool)
    requires e.meta.root != EMPTY_TREE_ROOT && Sane(e) && StoreFate(e, key, row, update).Goes?
    ensures StorePages(e, key, row, update) == RowSpill(e.meta.pageSize, row) + TreeHeight(e) + 1
    ensures StoreHeight(e, key, row, update) == TreeHeight(e)
  {
    hide TreeOk, StoreFate, Copies, SplitsUp;
    var h: nat :| TreeOk(e.meta.pageSize, Committed(e), e.meta.root, KEY_MIN, KEY_END, h);
    TreeHeightIs(e, h);
    PlainCopies(e.meta.pageSize, Committed(e), e.meta.root, KEY_MIN, KEY_END, h, key);
  }
}
