/** `get` and `scan` (`btree/mod.rs`). */
module TreeRead {
  import opened Errors
  import opened Codec
  import opened Page
  import opened Slotted
  import opened PageModel
  import opened Nodes
  import opened RowCodec
  import opened Pool
  import opened Tree
  import opened TreeOps
  import opened RowMap
  import opened OverflowChains
  import opened Mutate
  import opened LeafOps
  import opened Recovery
  import Disk

  // ------------------------------------------------------------------
  // The committed tree, seen through the pool.
  // ------------------------------------------------------------------

  /** The committed rows are the rows of the live page map under the root. */
  lemma LiveTree(pool: BufferPool) returns (h: nat)
    requires pool.Valid() && Sane(Snap(pool)) && pool.pager.rootPageId != EMPTY_TREE_ROOT
    ensures TreeOk(pool.pager.pageSize, Committed(Snap(pool)), pool.pager.rootPageId, KEY_MIN, KEY_END, h)
    ensures Extends(Committed(Snap(pool)), Decoded(pool.pager.pageSize, pool.view))
    ensures TreeOk(pool.pager.pageSize, Decoded(pool.pager.pageSize, pool.view), pool.pager.rootPageId, KEY_MIN, KEY_END, h)
    ensures Contents(pool.pager.pageSize, Decoded(pool.pager.pageSize, pool.view), pool.pager.rootPageId, h)
         == StoredRows(Snap(pool))
    ensures Ascending(StoredRows(Snap(pool)))
  {
    hide TreeOk, Contents, Decoded, BufferPool.Inv, Rows;
    pool.ValidIds();
    var ps, root := pool.pager.pageSize, pool.pager.rootPageId;
    var p, q := Committed(Snap(pool)), Decoded(ps, pool.view);
    h :| TreeOk(ps, p, root, KEY_MIN, KEY_END, h);
    DecodedExtends(ps, pool.committed, pool.view);
    RowsAre(ps, p, root, h);
    TreeExtends(ps, p, q, root, KEY_MIN, KEY_END, h);
    RowsAscending(ps, p, root);
  }

  lemma NoRows(e: Engine)
    requires e.meta.root == EMPTY_TREE_ROOT
    ensures Sane(e) && StoredRows(e) == []
  {
  }

  /** A page of a tree is present, and a leaf or an interior page. */
  lemma TreePage(ps: PageSize, view: Disk.Pages, id: nat, lo: int, hi: int, h: nat)
    requires TreeOk(ps, Decoded(ps, view), id, lo, hi, h)
    ensures id in view && id in Decoded(ps, view)
    ensures Decoded(ps, view)[id].Leaf? ==> h == 0 && LeafOk(ps, Decoded(ps, view), Decoded(ps, view)[id].cells, lo, hi, id)
    ensures !Decoded(ps, view)[id].Leaf? ==>
      && Decoded(ps, view)[id].Interior? && h > 0
      && NodeOk(ps, Decoded(ps, view), Decoded(ps, view)[id].keys, Decoded(ps, view)[id].children, lo, hi, h - 1, id)
  {
    hide NodeOk, LeafOk, DecodePage;
    DecodedKeys(ps, view);
  }

  /** After a commit of the newest page as root, the file ends where that page
      does: no page is missing and nothing follows it. */
  lemma FileIsExact(pool: BufferPool)
    requires pool.Valid() && Sane(Snap(pool)) && pool.pager.rootPageId != EMPTY_TREE_ROOT
    requires pool.pager.rootPageId + 1 == pool.pager.pageCount == pool.nextPageId
    requires pool.initialLen <= 8192 + (pool.pager.pageCount - 2) * pool.pager.pageSize
    ensures |pool.pager.file.data| == 8192 + (pool.pager.pageCount - 2) * pool.pager.pageSize
  {
    hide TreeOk, Contents, Decoded, BufferPool.Inv, Rows, FileFits, Disk.PlacedAt;
    var ps, root, data := pool.pager.pageSize, pool.pager.rootPageId, pool.pager.file.data;
    var h := LiveTree(pool);
    TreePage(ps, pool.committed, root, KEY_MIN, KEY_END, h);
    FileHolds(pool);
    ExactLength(pool.pager.hash, ps, data, pool.initialLen, root, pool.committed[root]);
  }

  lemma ExactLength(h: Hash, ps: PageSize, data: Bytes, initialLen: nat, root: nat, page: Bytes)
    requires Disk.PlacedAt(h, ps, data, root, page) && FileFits(data, initialLen, ps, root + 1)
    requires initialLen <= 8192 + (root + 1 - 2) * ps
    ensures |data| == 8192 + (root + 1 - 2) * ps
  {
    hide Sealed, SameBody;
    assert (root + 1 - 2) * ps == (root - 2) * ps + ps;
  }

  lemma FileHolds(pool: BufferPool)
    requires pool.Valid()
    ensures FileFits(pool.pager.file.data, pool.initialLen, pool.pager.pageSize, pool.nextPageId)
    ensures forall id | id in pool.committed ::
              Disk.PlacedAt(pool.pager.hash, pool.pager.pageSize, pool.pager.file.data, id, pool.committed[id])
  {
    hide FileFits, AllQuiet, ViewOk, CacheOk, Ordered, Extends, Disk.Stores, Disk.Quiet, Disk.IdsIn, Disk.Coherent, Disk.PlacedAt;
    var e := Snap(pool);
    ValidSettles(pool);
    SettledNow(e, |e.trace| - 1);
    QuietStores(e.hash, pool.pager.file.State(), e.slot, e.meta, e.committed);
    AllPlaced(e.hash, e.meta.pageSize, pool.pager.file.data, e.committed, e.meta.pageCount);
  }

  // ------------------------------------------------------------------
  // Reading one row.
  // ------------------------------------------------------------------

  lemma CellIsOk(ps: PageSize, p: PageMap, cells: seq<Cell>, lo: int, hi: int, bound: nat, i: nat)
    requires LeafOk(ps, p, cells, lo, hi, bound) && i < |cells|
    ensures CellOk(ps, p, cells[i], bound) && LeafEntries(ps, p, cells)[i] == EntryOf(ps, p, cells[i])
    ensures LeafEntries(ps, p, cells)[i].key == cells[i].key
    ensures PayloadOk(ps, p, cells[i], bound)
    ensures DecodeRow(Payload(ps, p, cells[i])) == Ok(LeafEntries(ps, p, cells)[i].row)
  {
    hide PayloadOk, Payload, DecodeRow;
  }

  /** `leaf_cell_at`, `reassemble`, `Row::decode`: the stored row comes back. */
  method RowAt(pool: BufferPool, buf: Bytes, index: nat, ghost lo: int, ghost hi: int, ghost bound: nat)
    returns (r: Result<(i64, Row)>)
    requires pool.Valid() && IsLeaf(pool.pager.pageSize, buf)
    requires LeafOk(pool.pager.pageSize, Decoded(pool.pager.pageSize, pool.view), LeafCells(pool.pager.pageSize, buf),
                    lo, hi, bound)
    requires index < |LeafCells(pool.pager.pageSize, buf)|
    modifies pool, pool.pager.file
    ensures pool.Valid() && pool.Steady()
    ensures var ps, p := pool.pager.pageSize, Decoded(pool.pager.pageSize, pool.view);
      var e := LeafEntries(ps, p, LeafCells(ps, buf))[index]; r == Ok((e.key, e.row))
  {
    hide BufferPool.Inv, Decoded, IsLeaf, Wf, Cells, LeafOk, DecodeCells, LeafEntries, PayloadOk, Payload, DecodeRow,
      LeafCellAt, CellOk;
    var ps := pool.pager.pageSize;
    CellsCount(ps, buf);
    LeafReaders(ps, buf, index);
    CellIsOk(ps, Decoded(ps, pool.view), LeafCells(ps, buf), lo, hi, bound, index);
    var cell := LeafCellAt(buf, index, MaxLocal(ps));
    var full := Reassemble(pool, cell.value);
    assert full.Ok?;
    var row := Decode(full.value);
    return Ok((cell.value.key, row.value));
  }

  // ------------------------------------------------------------------
  // `get`.
  // ------------------------------------------------------------------

  function Lookup(m: map<i64, Row>, key: i64): Option<Row> {
    if key in m then Some(m[key]) else None
  }

  lemma KeysApart(ps: PageSize, p: PageMap, cells: seq<Cell>, key: i64, found: Search)
    requires SearchIs(cells, key, found) && found.Missing?
    ensures forall j | 0 <= j < |cells| :: LeafEntries(ps, p, cells)[j].key != key
  {
    hide DecodeRow, Payload;
  }

  /** Searching the leaf `key` is routed to decides for the whole tree. */
  lemma LeafDecides(ps: PageSize, p: PageMap, root: nat, h: nat, key: i64, cells: seq<Cell>, found: Search)
    requires TreeOk(ps, p, root, KEY_MIN, KEY_END, h)
    requires var leaf := LeafFor(p, root, h, key); leaf in p && p[leaf] == Leaf(cells)
    requires SearchIs(cells, key, found)
    ensures found.Missing? ==> key !in MapOf(Contents(ps, p, root, h))
    ensures found.Found? ==>
      && found.index < |cells|
      && key in MapOf(Contents(ps, p, root, h))
      && LeafEntries(ps, p, cells)[found.index].key == key
      && MapOf(Contents(ps, p, root, h))[key] == LeafEntries(ps, p, cells)[found.index].row
  {
    hide TreeOk, Contents, Before, After, LeafFor, MapOf, AllBelow, AllAbove, DecodeRow, Payload, Ascending;
    AroundLeaf(ps, p, root, KEY_MIN, KEY_END, h, key);
    TreeAscending(ps, p, root, KEY_MIN, KEY_END, h);
    var b, l, a := Before(ps, p, root, h, key), LeafEntries(ps, p, cells), After(ps, p, root, h, key);
    if found.Found? {
      FoundRow(b, l, a, found.index);
    } else {
      KeysApart(ps, p, cells, key, found);
      MissingRow(b, l, a, key);
    }
  }

  /** One step of routing stays on the way to `key`'s leaf. */
  lemma RouteStep(ps: PageSize, p: PageMap, id: nat, lo: int, hi: int, h: nat, key: i64)
    requires h > 0 && id in p && p[id].Interior?
    requires NodeOk(ps, p, p[id].keys, p[id].children, lo, hi, h - 1, id) && lo <= key < hi
    ensures var keys, children := p[id].keys, p[id].children; var i := Route(keys, key);
      && i < |children| && Lower(keys, lo, i) <= key < Upper(keys, hi, i)
      && TreeOk(ps, p, children[i], Lower(keys, lo, i), Upper(keys, hi, i), h - 1)
      && LeafFor(p, children[i], h - 1, key) == LeafFor(p, id, h, key)
  {
    hide NodeOk, TreeOk;
    NodeCounts(ps, p, p[id].keys, p[id].children, lo, hi, h - 1, id);
    ChildOk(ps, p, p[id].keys, p[id].children, lo, hi, h - 1, id, Route(p[id].keys, key));
    RouteInRange(p[id].keys, lo, hi, key);
  }

  /** Nothing was committed, no page id taken, no row changed. */
  ghost predicate ReadOnly(e: Engine, e': Engine)
    requires Sane(e)
  {
    SameCommit(e, e') && e'.nextPageId == e.nextPageId && Changes(e, e', StoredRows(e))
  }

  /** Reading, like anything else short of a commit, changes nothing. */
  lemma SteadySteps(e: Engine, pool: BufferPool)
    requires pool.Valid() && SameCommit(e, Snap(pool))
    ensures Moves(e, Snap(pool))
    ensures Sane(e) ==> Changes(e, Snap(pool), StoredRows(e))
  {
    hide Changes, Moves, Sound, Rows, Decoded, Settled;
    ValidSettles(pool);
    NothingCommitted(e, Snap(pool));
  }

  /** The row stored under `key`, whatever is cached, evicted or rewritten. */
  method Get(pool: BufferPool, key: i64) returns (r: Result<Option<Row>>)
    requires pool.Valid() && Sane(Snap(pool))
    modifies pool, pool.pager.file
    ensures pool.Valid()
    ensures r == Ok(Lookup(MapOf(old(StoredRows(Snap(pool)))), key))
    ensures ReadOnly(old(Snap(pool)), Snap(pool))
  {
    hide BufferPool.Inv, Sound, Rows, MapOf, Changes, Decoded;
    ghost var e := Snap(pool);
    var root := pool.pager.rootPageId;
    if root == EMPTY_TREE_ROOT {
      NoRows(e);
      SteadySteps(e, pool);
      assert MapOf([]) == map[] by { EmptyMap(); }
      return Ok(None);
    }
    ghost var h := LiveTree(pool);
    r := GetFrom(pool, root, key, h);
    SteadySteps(e, pool);
  }

  lemma EmptyMap()
    ensures MapOf([]) == map[]
  {
  }

  /** The descent of `get`. */
  method GetFrom(pool: BufferPool, root: nat, key: i64, ghost h: nat) returns (r: Result<Option<Row>>)
    requires pool.Valid()
    requires TreeOk(pool.pager.pageSize, Decoded(pool.pager.pageSize, pool.view), root, KEY_MIN, KEY_END, h)
    modifies pool, pool.pager.file
    ensures pool.Valid() && pool.Steady()
    ensures var ps := pool.pager.pageSize;
      r == Ok(Lookup(MapOf(Contents(ps, Decoded(ps, pool.view), root, h)), key))
  {
    hide BufferPool.Inv, Decoded, TreeOk, NodeOk, LeafOk, Contents, MapOf, LeafFor, DecodePage, IsLeaf, IsInterior, Wf,
      InteriorValue, SearchIs, LeafEntries, DecodeCells, Cells;
    var ps := pool.pager.pageSize;
    ghost var p := Decoded(ps, pool.view);
    ghost var lo, hi, left := KEY_MIN, KEY_END, h;
    var current := root;
    while true
      invariant pool.Valid() && pool.Steady()
      invariant TreeOk(ps, p, current, lo, hi, left) && lo <= key < hi
      invariant LeafFor(p, current, left, key) == LeafFor(p, root, h, key)
      decreases left
    {
      TreePage(ps, pool.view, current, lo, hi, left);
      var got := pool.Get(current);
      assert got.Ok?;
      var buf := got.value;
      BufferIsPage(ps, pool.view, current, buf);
      PageTypes(ps, buf);
      if buf[0] == TYPE_LEAF {
        LeafForLeaf(p, current, left, key);
        var searched := LeafSearch(buf, key, ps);
        SortedLeaf(ps, p, LeafCells(ps, buf), lo, hi, current);
        LeafDecides(ps, p, root, h, key, LeafCells(ps, buf), searched.value);
        if searched.value.Missing? {
          return Ok(None);
        }
        var row := RowAt(pool, buf, searched.value.index, lo, hi, current);
        return Ok(Some(row.value.1));
      }
      RouteStep(ps, p, current, lo, hi, left, key);
      var child := InteriorFindChildForKey(buf, key);
      ghost var keys, i := p[current].keys, Route(p[current].keys, key);
      lo, hi, left := Lower(keys, lo, i), Upper(keys, hi, i), left - 1;
      current := child.value;
    }
  }

  lemma SortedLeaf(ps: PageSize, p: PageMap, cells: seq<Cell>, lo: int, hi: int, bound: nat)
    requires LeafOk(ps, p, cells, lo, hi, bound)
    ensures SortedCells(cells)
  {
  }

  // ------------------------------------------------------------------
  // `scan`.
  // ------------------------------------------------------------------

  /** Every row in ascending key order: the one listing of the stored map. */
  method Scan(pool: BufferPool) returns (r: Result<seq<(i64, Row)>>)
    requires pool.Valid() && Sane(Snap(pool))
    modifies pool, pool.pager.file
    ensures pool.Valid()
    ensures r == Ok(Listing(old(StoredRows(Snap(pool))))) && Ascending(old(StoredRows(Snap(pool))))
    ensures ReadOnly(old(Snap(pool)), Snap(pool))
  {
    hide BufferPool.Inv, Sound, Rows, Changes, Decoded, Listing;
    ghost var e := Snap(pool);
    var root := pool.pager.rootPageId;
    assert [] == Listing([]) by { EmptyListing(); }
    if root == EMPTY_TREE_ROOT {
      NoRows(e);
      SteadySteps(e, pool);
      return Ok([]);
    }
    ghost var h := LiveTree(pool);
    r := ScanNode(pool, root, [], KEY_MIN, KEY_END, h);
    assert [] + Listing(StoredRows(e)) == Listing(StoredRows(e));
    SteadySteps(e, pool);
  }

  lemma EmptyListing()
    ensures Listing([]) == []
  {
  }

  lemma ListingConcat(a: seq<Entry>, b: seq<Entry>)
    ensures Listing(a + b) == Listing(a) + Listing(b)
  {
  }

  /** `scan_node`: append the rows below page `id`. */
  method ScanNode(pool: BufferPool, id: nat, out: seq<(i64, Row)>, ghost lo: int, ghost hi: int, ghost h: nat)
    returns (r: Result<seq<(i64, Row)>>)
    requires pool.Valid()
    requires TreeOk(pool.pager.pageSize, Decoded(pool.pager.pageSize, pool.view), id, lo, hi, h)
    modifies pool, pool.pager.file
    ensures pool.Valid() && pool.Steady()
    ensures var ps := pool.pager.pageSize; r == Ok(out + Listing(Contents(ps, Decoded(ps, pool.view), id, h)))
    decreases h
  {
    hide BufferPool.Inv, Decoded, TreeOk, NodeOk, LeafOk, Contents, Flat, Listing, DecodePage, IsLeaf, IsInterior, Wf,
      InteriorValue, LeafEntries, DecodeCells, Cells;
    var ps := pool.pager.pageSize;
    ghost var p := Decoded(ps, pool.view);
    TreePage(ps, pool.view, id, lo, hi, h);
    var got := pool.Get(id);
    assert got.Ok?;
    var buf := got.value;
    BufferIsPage(ps, pool.view, id, buf);
    PageTypes(ps, buf);
    if buf[0] == TYPE_LEAF {
      r := ScanLeaf(pool, buf, out, lo, hi, id);
      ContentsOfLeaf(ps, p, id, LeafCells(ps, buf), h);
      return;
    }
    var entries := InteriorEntries(buf);
    var children := entries.value.1;
    var rows := out;
    ContentsOfNode(ps, p, id, lo, hi, h);
    EmptyListing();
    for i := 0 to |children|
      invariant pool.Valid() && pool.Steady()
      invariant rows == out + Listing(Flat(ps, p, children[..i], h - 1))
    {
      ChildOk(ps, p, p[id].keys, children, lo, hi, h - 1, id, i);
      FlatNext(ps, p, children, i, h - 1);
      ListingConcat(Flat(ps, p, children[..i], h - 1), Contents(ps, p, children[i], h - 1));
      var more := ScanNode(pool, children[i], rows, Lower(p[id].keys, lo, i), Upper(p[id].keys, hi, i), h - 1);
      rows := more.value;
    }
    assert children[..|children|] == children;
    return Ok(rows);
  }

  lemma ContentsOfLeaf(ps: PageSize, p: PageMap, id: nat, cells: seq<Cell>, h: nat)
    requires id in p && p[id] == Leaf(cells)
    ensures Contents(ps, p, id, h) == LeafEntries(ps, p, cells)
  {
    hide LeafEntries;
  }

  lemma ContentsOfNode(ps: PageSize, p: PageMap, id: nat, lo: int, hi: int, h: nat)
    requires id in p && p[id].Interior? && h > 0
    ensures Contents(ps, p, id, h) == Flat(ps, p, p[id].children, h - 1)
    ensures Flat(ps, p, p[id].children[..0], h - 1) == []
  {
  }

  lemma FlatNext(ps: PageSize, p: PageMap, ids: seq<nat>, i: nat, h: nat)
    requires i < |ids|
    ensures Flat(ps, p, ids[..i + 1], h) == Flat(ps, p, ids[..i], h) + Contents(ps, p, ids[i], h)
  {
    hide Contents;
    assert ids[..i + 1][..i] == ids[..i];
  }

  method ScanLeaf(pool: BufferPool, buf: Bytes, out: seq<(i64, Row)>, ghost lo: int, ghost hi: int, ghost bound: nat)
    returns (r: Result<seq<(i64, Row)>>)
    requires pool.Valid() && IsLeaf(pool.pager.pageSize, buf)
    requires LeafOk(pool.pager.pageSize, Decoded(pool.pager.pageSize, pool.view), LeafCells(pool.pager.pageSize, buf),
                    lo, hi, bound)
    modifies pool, pool.pager.file
    ensures pool.Valid() && pool.Steady()
    ensures var ps := pool.pager.pageSize;
      r == Ok(out + Listing(LeafEntries(ps, Decoded(ps, pool.view), LeafCells(ps, buf))))
  {
    hide BufferPool.Inv, Decoded, IsLeaf, Wf, Cells, LeafOk, DecodeCells, LeafEntries;
    var ps := pool.pager.pageSize;
    ghost var es := LeafEntries(ps, Decoded(ps, pool.view), LeafCells(ps, buf));
    CellsCount(ps, buf);
    LeafCount(ps, buf);
    var n := NumCells(buf);
    var rows := out;
    for i := 0 to n.value
      invariant pool.Valid() && pool.Steady()
      invariant rows == out + Listing(es)[..i]
    {
      var row := RowAt(pool, buf, i, lo, hi, bound);
      rows := rows + [row.value];
      assert Listing(es)[..i + 1] == Listing(es)[..i] + [(es[i].key, es[i].row)];
    }
    assert Listing(es)[..n.value] == Listing(es);
    return Ok(rows);
  }

  lemma LeafCount(ps: PageSize, buf: Bytes)
    requires IsLeaf(ps, buf)
    ensures NumCells(buf) == Ok(|LeafCells(ps, buf)|)
  {
    CellsCount(ps, buf);
    hide Spans;
  }
}
