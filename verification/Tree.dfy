/** The copy-on-write B+tree as a value: which page graphs are trees, the rows
    they hold in order, and what the copying operations preserve. */
module Tree {
  import opened Codec
  import opened Page
  import opened Slotted
  import opened PageModel
  import opened Nodes
  import opened RowCodec
  import Disk
  import opened Pool

  type PageMap = map<nat, PageValue>

  const KEY_MIN: int := I64_MIN
  const KEY_END: int := I64_MAX + 1

  /** A stored row; `cost` is what its cell and pointer take of a leaf. */
  datatype Entry = Entry(key: i64, row: Row, cost: nat)

  /** The pages a view of raw buffers stands for. */
  function Decoded(ps: PageSize, view: Disk.Pages): PageMap {
    map id | id in view :: DecodePage(ps, view[id])
  }

  lemma DecodedKeys(ps: PageSize, view: Disk.Pages)
    ensures Decoded(ps, view).Keys == view.Keys
  {
    hide DecodePage;
  }

  lemma DecodedExtends(ps: PageSize, v: Disk.Pages, w: Disk.Pages)
    requires Extends(v, w)
    ensures Extends(Decoded(ps, v), Decoded(ps, w))
  {
  }

  // ------------------------------------------------------------------
  // Overflow chains and rows.
  // ------------------------------------------------------------------

  /** A chain that holds `need` bytes, every link to a smaller page id. */
  predicate ChainOk(ps: PageSize, p: PageMap, cur: nat, need: nat)
    decreases need
  {
    need == 0
    || (&& cur in p && p[cur].Overflow? && p[cur].next < cur && |p[cur].data| == ChunkCap(ps)
        && ChainOk(ps, p, p[cur].next, need - Min(need, ChunkCap(ps))))
  }

  function ChainData(ps: PageSize, p: PageMap, cur: nat, need: nat): (d: Bytes)
    requires ChainOk(ps, p, cur, need)
    ensures |d| == need
    decreases need
  {
    if need == 0 then []
    else
      var take := Min(need, ChunkCap(ps));
      p[cur].data[..take] + ChainData(ps, p, p[cur].next, need - take)
  }

  lemma {:induction false} ChainExtends(ps: PageSize, p: PageMap, q: PageMap, cur: nat, need: nat)
    requires Extends(p, q) && ChainOk(ps, p, cur, need)
    ensures ChainOk(ps, q, cur, need) && ChainData(ps, q, cur, need) == ChainData(ps, p, cur, need)
    decreases need
  {
    if need > 0 {
      ChainExtends(ps, p, q, p[cur].next, need - Min(need, ChunkCap(ps)));
    }
  }

  /** The payload of a cell: local bytes, then the chain. */
  function Payload(ps: PageSize, p: PageMap, c: Cell): Bytes {
    if c.overflow == 0 then c.local
    else
      var need := if c.payloadLen > MaxLocal(ps) then c.payloadLen - MaxLocal(ps) else 0;
      c.local + (if ChainOk(ps, p, c.overflow, need) then ChainData(ps, p, c.overflow, need) else [])
  }

  predicate PayloadOk(ps: PageSize, p: PageMap, c: Cell, bound: nat) {
    && |c.local| == Min(c.payloadLen, MaxLocal(ps))
    && (c.overflow == 0 ==> c.payloadLen <= MaxLocal(ps))
    && (c.overflow != 0 ==>
          c.payloadLen > MaxLocal(ps) && c.overflow < bound
          && ChainOk(ps, p, c.overflow, c.payloadLen - MaxLocal(ps)))
  }

  predicate CellOk(ps: PageSize, p: PageMap, c: Cell, bound: nat) {
    PayloadOk(ps, p, c, bound) && DecodeRow(Payload(ps, p, c)).Ok?
  }

  function EntryOf(ps: PageSize, p: PageMap, c: Cell): Entry {
    var row := DecodeRow(Payload(ps, p, c));
    Entry(c.key, if row.Ok? then row.value else Row([]), LEAF_CELL_FIXED_LEN + |c.local| + POINTER_LEN)
  }

  lemma CellExtends(ps: PageSize, p: PageMap, q: PageMap, c: Cell, bound: nat, bound': nat)
    requires Extends(p, q) && CellOk(ps, p, c, bound) && bound <= bound'
    ensures CellOk(ps, q, c, bound') && EntryOf(ps, q, c) == EntryOf(ps, p, c)
  {
    hide DecodeRow, ChainOk, ChainData;
    if c.overflow != 0 {
      ChainExtends(ps, p, q, c.overflow, c.payloadLen - MaxLocal(ps));
    }
  }

  // ------------------------------------------------------------------
  // Trees.
  // ------------------------------------------------------------------

  function LeafEntries(ps: PageSize, p: PageMap, cells: seq<Cell>): (es: seq<Entry>)
    ensures |es| == |cells|
  {
    seq(|cells|, i requires 0 <= i < |cells| => EntryOf(ps, p, cells[i]))
  }

  /** The rows below page `id` of a tree of height `h`, in order. */
  function Contents(ps: PageSize, p: PageMap, id: nat, h: nat): seq<Entry>
    decreases h, 0
  {
    if id !in p then []
    else
      match p[id]
      case Leaf(cells) => LeafEntries(ps, p, cells)
      case Interior(_, children) => if h == 0 then [] else Flat(ps, p, children, h - 1)
      case _ => []
  }

  function Flat(ps: PageSize, p: PageMap, ids: seq<nat>, h: nat): seq<Entry>
    decreases h, |ids| + 1
  {
    if |ids| == 0 then []
    else Flat(ps, p, ids[..|ids| - 1], h) + Contents(ps, p, ids[|ids| - 1], h)
  }

  /** Child `i` of a node covers the keys from here ... */
  function Lower(keys: seq<i64>, lo: int, i: nat): int
    requires i <= |keys|
  {
    if i == 0 then lo else keys[i - 1]
  }

  /** ... to here, excluded. */
  function Upper(keys: seq<i64>, hi: int, i: nat): int
    requires i <= |keys|
  {
    if i == |keys| then hi else keys[i]
  }

  predicate Separators(keys: seq<i64>, lo: int, hi: int) {
    && (forall i | 0 <= i < |keys| :: lo <= keys[i] <= hi)
    && (forall i, j | 0 <= i < j < |keys| :: keys[i] <= keys[j])
  }

  predicate Distinct(ids: seq<nat>) {
    forall i, j | 0 <= i < j < |ids| :: ids[i] != ids[j]
  }

  predicate LeafOk(ps: PageSize, p: PageMap, cells: seq<Cell>, lo: int, hi: int, bound: nat) {
    && SortedCells(cells)
    && forall i | 0 <= i < |cells| :: lo <= cells[i].key < hi && CellOk(ps, p, cells[i], bound)
  }

  /** An interior node: non-decreasing separators, distinct children with
      smaller ids, each a tree over its own half-open key range. */
  predicate NodeOk(ps: PageSize, p: PageMap, keys: seq<i64>, children: seq<nat>, lo: int, hi: int, h: nat, bound: nat)
    decreases h, 1
  {
    && |keys| >= 1 && |children| == |keys| + 1
    && lo <= hi && Separators(keys, lo, hi) && Distinct(children)
    && (forall i | 0 <= i < |children| :: children[i] < bound)
    && forall i | 0 <= i < |children| :: TreeOk(ps, p, children[i], Lower(keys, lo, i), Upper(keys, hi, i), h)
  }

  /** Page `id` is the root of a tree with all leaves at depth `h` and all keys
      in `[lo, hi)`. */
  predicate TreeOk(ps: PageSize, p: PageMap, id: nat, lo: int, hi: int, h: nat)
    decreases h, 0
  {
    && id in p && id >= FIRST_DATA_PAGE_ID
    && match p[id]
       case Leaf(cells) => h == 0 && LeafOk(ps, p, cells, lo, hi, id)
       case Interior(keys, children) => h > 0 && NodeOk(ps, p, keys, children, lo, hi, h - 1, id)
       case _ => false
  }

  lemma {:induction false} FlatConcat(ps: PageSize, p: PageMap, a: seq<nat>, b: seq<nat>, h: nat)
    ensures Flat(ps, p, a + b, h) == Flat(ps, p, a, h) + Flat(ps, p, b, h)
    decreases |b|
  {
    hide Contents;
    if |b| == 0 {
      assert a + b == a;
    } else {
      var n := |b| - 1;
      FlatConcat(ps, p, a, b[..n], h);
      assert (a + b)[..|a + b| - 1] == a + b[..n];
    }
  }

  // ------------------------------------------------------------------
  // Persistence: adding pages changes nothing below an existing root.
  // ------------------------------------------------------------------

  lemma LeafExtends(ps: PageSize, p: PageMap, q: PageMap, cells: seq<Cell>, lo: int, hi: int, bound: nat, bound': nat)
    requires Extends(p, q) && LeafOk(ps, p, cells, lo, hi, bound) && bound <= bound'
    ensures LeafOk(ps, q, cells, lo, hi, bound') && LeafEntries(ps, q, cells) == LeafEntries(ps, p, cells)
  {
    hide CellOk, EntryOf;
    forall i | 0 <= i < |cells|
      ensures CellOk(ps, q, cells[i], bound') && EntryOf(ps, q, cells[i]) == EntryOf(ps, p, cells[i])
    {
      CellExtends(ps, p, q, cells[i], bound, bound');
    }
  }

  lemma {:induction false} FlatExtends(ps: PageSize, p: PageMap, q: PageMap, ids: seq<nat>, h: nat)
    requires forall i | 0 <= i < |ids| :: Contents(ps, q, ids[i], h) == Contents(ps, p, ids[i], h)
    ensures Flat(ps, q, ids, h) == Flat(ps, p, ids, h)
    decreases |ids|
  {
    if |ids| > 0 {
      FlatExtends(ps, p, q, ids[..|ids| - 1], h);
    }
  }

  lemma {:induction false} NodeExtends(ps: PageSize, p: PageMap, q: PageMap, keys: seq<i64>, children: seq<nat>,
                                       lo: int, hi: int, h: nat, bound: nat)
    requires Extends(p, q) && NodeOk(ps, p, keys, children, lo, hi, h, bound)
    ensures NodeOk(ps, q, keys, children, lo, hi, h, bound) && Flat(ps, q, children, h) == Flat(ps, p, children, h)
    decreases h, 1
  {
    forall i | 0 <= i < |children|
      ensures TreeOk(ps, q, children[i], Lower(keys, lo, i), Upper(keys, hi, i), h)
      ensures Contents(ps, q, children[i], h) == Contents(ps, p, children[i], h)
    {
      TreeExtends(ps, p, q, children[i], Lower(keys, lo, i), Upper(keys, hi, i), h);
    }
    FlatExtends(ps, p, q, children, h);
  }

  /** A root still denotes the same rows after anything later was added. */
  lemma {:induction false} TreeExtends(ps: PageSize, p: PageMap, q: PageMap, id: nat, lo: int, hi: int, h: nat)
    requires Extends(p, q) && TreeOk(ps, p, id, lo, hi, h)
    ensures TreeOk(ps, q, id, lo, hi, h) && Contents(ps, q, id, h) == Contents(ps, p, id, h)
    decreases h, 0
  {
    assert q[id] == p[id];
    match p[id]
    case Leaf(cells) => LeafExtends(ps, p, q, cells, lo, hi, id, id);
    case Interior(keys, children) => NodeExtends(ps, p, q, keys, children, lo, hi, h - 1, id);
  }

  // ------------------------------------------------------------------
  // The search-tree order.
  // ------------------------------------------------------------------

  predicate Ascending(es: seq<Entry>) {
    forall i, j | 0 <= i < j < |es| :: es[i].key < es[j].key
  }

  predicate Within(es: seq<Entry>, lo: int, hi: int) {
    forall i | 0 <= i < |es| :: lo <= es[i].key < hi
  }

  lemma AscendingJoin(a: seq<Entry>, b: seq<Entry>, lo: int, mid: int, hi: int)
    requires Ascending(a) && Within(a, lo, mid) && Ascending(b) && Within(b, mid, hi) && lo <= mid <= hi
    ensures Ascending(a + b) && Within(a + b, lo, hi)
  {
  }

  lemma {:induction false} FlatAscending(ps: PageSize, p: PageMap, keys: seq<i64>, children: seq<nat>,
                                         lo: int, hi: int, h: nat, bound: nat, n: nat)
    requires NodeOk(ps, p, keys, children, lo, hi, h, bound) && n < |children|
    ensures Ascending(Flat(ps, p, children[..n + 1], h)) && Within(Flat(ps, p, children[..n + 1], h), lo, Upper(keys, hi, n))
    ensures lo <= Upper(keys, hi, n)
    decreases h, n + 1
  {
    var last := children[n];
    assert children[..n + 1][..n] == children[..n];
    TreeAscending(ps, p, last, Lower(keys, lo, n), Upper(keys, hi, n), h);
    if n == 0 {
      assert Flat(ps, p, children[..0], h) == [];
      assert Flat(ps, p, children[..1], h) == Contents(ps, p, last, h);
    } else {
      FlatAscending(ps, p, keys, children, lo, hi, h, bound, n - 1);
      AscendingJoin(Flat(ps, p, children[..n], h), Contents(ps, p, last, h), lo, keys[n - 1], Upper(keys, hi, n));
    }
  }

  /** The rows of a tree are in strictly ascending key order, inside its range. */
  lemma {:induction false} TreeAscending(ps: PageSize, p: PageMap, id: nat, lo: int, hi: int, h: nat)
    requires TreeOk(ps, p, id, lo, hi, h)
    ensures Ascending(Contents(ps, p, id, h)) && Within(Contents(ps, p, id, h), lo, hi)
    decreases h, 0
  {
    hide CellOk;
    match p[id]
    case Leaf(cells) =>
    case Interior(keys, children) =>
      var n := |children| - 1;
      FlatAscending(ps, p, keys, children, lo, hi, h - 1, id, n);
      assert children[..n + 1] == children;
  }

  // ------------------------------------------------------------------
  // The rows of a whole tree.
  // ------------------------------------------------------------------

  /** All leaves of a tree are at one depth, so its height is determined. */
  lemma {:induction false} HeightUnique(ps: PageSize, p: PageMap, id: nat, lo: int, hi: int, h: nat, lo': int, hi': int, h': nat)
    requires TreeOk(ps, p, id, lo, hi, h) && TreeOk(ps, p, id, lo', hi', h')
    ensures h == h'
    decreases h
  {
    hide LeafOk, Separators, Distinct;
    if p[id].Interior? {
      var keys, children := p[id].keys, p[id].children;
      assert NodeOk(ps, p, keys, children, lo, hi, h - 1, id) && NodeOk(ps, p, keys, children, lo', hi', h' - 1, id);
      HeightUnique(ps, p, children[0], Lower(keys, lo, 0), Upper(keys, hi, 0), h - 1,
                   Lower(keys, lo', 0), Upper(keys, hi', 0), h' - 1);
    }
  }

  /** `root` is the empty-tree sentinel or the root of a tree. */
  ghost predicate Sound(ps: PageSize, p: PageMap, root: nat) {
    root == EMPTY_TREE_ROOT || exists h: nat :: TreeOk(ps, p, root, KEY_MIN, KEY_END, h)
  }

  /** The rows stored under `root`, in order. */
  ghost function Rows(ps: PageSize, p: PageMap, root: nat): seq<Entry>
    requires Sound(ps, p, root)
  {
    if root == EMPTY_TREE_ROOT then []
    else
      var h: nat :| TreeOk(ps, p, root, KEY_MIN, KEY_END, h);
      Contents(ps, p, root, h)
  }

  lemma RowsAre(ps: PageSize, p: PageMap, root: nat, h: nat)
    requires root != EMPTY_TREE_ROOT && TreeOk(ps, p, root, KEY_MIN, KEY_END, h)
    ensures Sound(ps, p, root) && Rows(ps, p, root) == Contents(ps, p, root, h)
  {
    hide TreeOk, Contents;
    var h': nat :| TreeOk(ps, p, root, KEY_MIN, KEY_END, h') && Rows(ps, p, root) == Contents(ps, p, root, h');
    HeightUnique(ps, p, root, KEY_MIN, KEY_END, h, KEY_MIN, KEY_END, h');
  }

  lemma RowsExtend(ps: PageSize, p: PageMap, q: PageMap, root: nat)
    requires Extends(p, q) && Sound(ps, p, root)
    ensures Sound(ps, q, root) && Rows(ps, q, root) == Rows(ps, p, root)
  {
    hide TreeOk, Contents;
    if root != EMPTY_TREE_ROOT {
      var h: nat :| TreeOk(ps, p, root, KEY_MIN, KEY_END, h);
      RowsAre(ps, p, root, h);
      TreeExtends(ps, p, q, root, KEY_MIN, KEY_END, h);
      RowsAre(ps, q, root, h);
    }
  }

  /** The rows of a tree are in strictly ascending key order. */
  lemma RowsAscending(ps: PageSize, p: PageMap, root: nat)
    requires Sound(ps, p, root)
    ensures Ascending(Rows(ps, p, root))
  {
    hide TreeOk, Contents;
    if root != EMPTY_TREE_ROOT {
      var h: nat :| TreeOk(ps, p, root, KEY_MIN, KEY_END, h);
      RowsAre(ps, p, root, h);
      TreeAscending(ps, p, root, KEY_MIN, KEY_END, h);
    }
  }
}
