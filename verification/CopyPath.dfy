/** Copying the path from a leaf to the root (`insert`, `update` and `delete`
    in `btree/mod.rs` share it). */
module CopyPath {
  import opened Errors
  import opened Codec
  import opened Page
  import opened PageModel
  import opened Nodes
  import opened Builder
  import opened Pool
  import opened Tree
  import opened TreeOps
  import opened LeafOps
  import opened Mutate
  import Disk

  // ------------------------------------------------------------------
  // Finding the leaf.
  // ------------------------------------------------------------------

  /** A path to `key`'s leaf in `view`, the leaf's buffer and what was found. */
  ghost predicate Located(ps: PageSize, view: Disk.Pages, root: nat, h: nat, key: i64,
                          path: seq<nat>, los: seq<int>, his: seq<int>, buf: Bytes, found: Search) {
    && PathOk(ps, Decoded(ps, view), path, los, his, h, key)
    && |path| == |los| == |his| == h + 1 && path[0] == root && los[0] == KEY_MIN && his[0] == KEY_END
    && path[h] == LeafFor(Decoded(ps, view), root, h, key)
    && path[h] in view && SameBody(buf, view[path[h]]) && IsLeaf(ps, buf)
    && Decoded(ps, view)[path[h]] == Leaf(LeafCells(ps, buf))
    && LeafOk(ps, Decoded(ps, view), LeafCells(ps, buf), los[h], his[h], path[h])
    && los[h] <= key < his[h]
    && SearchIs(LeafCells(ps, buf), key, found)
  }

  method LocateLeaf(pool: BufferPool, root: nat, key: i64, ghost h: nat)
    returns (path: seq<nat>, buf: Bytes, found: Search, ghost los: seq<int>, ghost his: seq<int>)
    requires pool.Valid()
    requires TreeOk(pool.pager.pageSize, Decoded(pool.pager.pageSize, pool.view), root, KEY_MIN, KEY_END, h)
    modifies pool, pool.pager.file
    ensures pool.Valid() && pool.Steady()
    ensures Located(pool.pager.pageSize, pool.view, root, h, key, path, los, his, buf, found)
  {
    hide TreeOk, BufferPool.Inv, DecodePage, PathOk, LeafFor, IsLeaf, Decoded, CellOk, SearchIs;
    var ps := pool.pager.pageSize;
    ghost var p := Decoded(ps, pool.view);
    path, los, his := DescendPath(pool, root, key, h);
    PathEnd(ps, p, path, los, his, h, key);
    var leafId := path[|path| - 1];
    DecodedKeys(ps, pool.view);
    var got := pool.Get(leafId);
    assert got.Ok?;
    buf := got.value;
    BufferIsPage(ps, pool.view, leafId, buf);
    var searched := LeafSearch(buf, key, ps);
    assert searched.Ok?;
    found := searched.value;
  }

  /** The tree in `p` under `root`, of height `h`, has rows `es`. */
  ghost predicate HoldsAt(ps: PageSize, p: PageMap, root: nat, h: nat, es: seq<Entry>) {
    TreeOk(ps, p, root, KEY_MIN, KEY_END, h) && Contents(ps, p, root, h) == es
  }

  // ------------------------------------------------------------------
  // Copying the path upwards.
  // ------------------------------------------------------------------

  /** Rows of the subtree at `id` with `es` in place of the leaf `key` routes to. */
  function Replacing(ps: PageSize, p: PageMap, id: nat, h: nat, key: i64, es: seq<Entry>): seq<Entry> {
    Before(ps, p, id, h, key) + es + After(ps, p, id, h, key)
  }

  /** The ancestor at position `j - 1`, and the slot its path child came from. */
  function SpotAt(p: PageMap, path: seq<nat>, los: seq<int>, his: seq<int>, h: nat, key: i64, j: nat): Spot
    requires 0 < j < |path| == |los| == |his| <= h + 1 && path[j - 1] in p && p[path[j - 1]].Interior?
  {
    var node := p[path[j - 1]];
    Spot(node.keys, node.children, Route(node.keys, key), los[j - 1], his[j - 1], h - j)
  }

  lemma PathSpot(ps: PageSize, p: PageMap, path: seq<nat>, los: seq<int>, his: seq<int>, h: nat, key: i64, j: nat)
    requires PathOk(ps, p, path, los, his, h, key) && 0 < j < |path|
    ensures |path| == |los| == |his| <= h + 1 && path[j - 1] in p && p[path[j - 1]].Interior?
    ensures var at := SpotAt(p, path, los, his, h, key, j);
      && SpotOk(ps, p, path[j - 1], at) && at.i <= |at.keys| && at.i < |at.children| && at.children[at.i] == path[j]
      && ChildLo(at) == los[j] && ChildHi(at) == his[j]
  {
    hide NodeOk;
    assert PathAt(ps, p, path, los, his, h, key, j - 1);
    var node := p[path[j - 1]];
    NodeCounts(ps, p, node.keys, node.children, los[j - 1], his[j - 1], h - j, path[j - 1]);
  }

  /** One level up, the rows around the leaf gather the siblings' rows. */
  lemma ReplacingAbove(ps: PageSize, p: PageMap, id: nat, at: Spot, key: i64, es: seq<Entry>)
    requires SpotOk(ps, p, id, at) && at.i == Route(at.keys, key)
    ensures Around(ps, p, at, Replacing(ps, p, at.children[at.i], at.h, key, es))
         == Replacing(ps, p, id, at.h + 1, key, es)
  {
    hide NodeOk, Flat;
    var c := at.children[at.i];
    Regroup(Flat(ps, p, at.children[..at.i], at.h), Before(ps, p, c, at.h, key), es, After(ps, p, c, at.h, key),
            Flat(ps, p, at.children[at.i + 1..], at.h));
  }

  /** One ancestor copied: what held of its child's result holds of its own. */
  lemma LevelUp(ps: PageSize, p: PageMap, q: PageMap, q': PageMap, path: seq<nat>, los: seq<int>, his: seq<int>,
                h: nat, key: i64, j: nat, r: NodeResult, r': NodeResult, es: seq<Entry>)
    requires PathOk(ps, p, path, los, his, h, key) && 0 < j < |path|
    requires |path| == |los| == |his| <= h + 1 && path[j - 1] in p && p[path[j - 1]].Interior?
    requires Extends(p, q)
    requires var at := SpotAt(p, path, los, his, h, key, j);
      && at.i < |at.children| && at.i <= |at.keys|
      && Propagated(ps, q, q', at, r, r', Replacing(ps, p, path[j], h - j, key, es))
    ensures ResultOk(ps, q, r, los[j], his[j], h - j, Replacing(ps, p, path[j], h - j, key, es))
        ==> ResultOk(ps, q', r', los[j - 1], his[j - 1], h - (j - 1), Replacing(ps, p, path[j - 1], h - (j - 1), key, es))
  {
    hide SpotOk, PathOk, Around, Replacing, ResultOk, ChildLo, ChildHi;
    var at := SpotAt(p, path, los, his, h, key, j);
    PathSpot(ps, p, path, los, his, h, key, j);
    ReplacingAbove(ps, p, path[j - 1], at, key, es);
    AroundExtends(ps, p, q, path[j - 1], at, Replacing(ps, p, path[j], h - j, key, es));
  }

  lemma AtLeafLevel(ps: PageSize, p: PageMap, id: nat, key: i64, es: seq<Entry>)
    ensures Replacing(ps, p, id, 0, key, es) == es
  {
  }

  lemma PathIds(ps: PageSize, view: Disk.Pages, bound: nat, path: seq<nat>, los: seq<int>, his: seq<int>, h: nat,
                key: i64, j: nat)
    requires PathOk(ps, Decoded(ps, view), path, los, his, h, key) && j < |path| && Disk.IdsIn(view, bound)
    ensures path[j] < bound
  {
    hide DecodePage, NodeOk, LeafOk;
    assert PathAt(ps, Decoded(ps, view), path, los, his, h, key, j);
    DecodedKeys(ps, view);
  }

  // ------------------------------------------------------------------
  // How many pages a path copy takes.
  // ------------------------------------------------------------------

  /** On `key`'s path below `id` every interior page is full: if the leaf splits,
      so does page `id`. */
  predicate SplitsUp(ps: PageSize, p: PageMap, id: nat, h: nat, key: i64)
    decreases h
  {
    if id in p && p[id].Interior? && h > 0 && Route(p[id].keys, key) < |p[id].children|
    then |p[id].keys| >= MaxInteriorEntries(ps) && SplitsUp(ps, p, p[id].children[Route(p[id].keys, key)], h - 1, key)
    else true
  }

  /** Pages that copy `key`'s path from `id` down: two where a page splits. */
  function Copies(ps: PageSize, p: PageMap, id: nat, h: nat, key: i64, split: bool): nat
    decreases h
  {
    (if split && SplitsUp(ps, p, id, h, key) then 2 else 1)
    + if id in p && p[id].Interior? && h > 0 && Route(p[id].keys, key) < |p[id].children|
      then Copies(ps, p, p[id].children[Route(p[id].keys, key)], h - 1, key, split) else 0
  }

  /** A new root is needed when the old one splits. */
  predicate Grows(ps: PageSize, p: PageMap, root: nat, h: nat, key: i64, split: bool) {
    split && SplitsUp(ps, p, root, h, key)
  }

  /** Pages that a changed leaf costs: its path, and a new root over a split one. */
  function PathPages(ps: PageSize, p: PageMap, root: nat, h: nat, key: i64, split: bool): nat {
    Copies(ps, p, root, h, key, split) + if Grows(ps, p, root, h, key, split) then 1 else 0
  }

  /** A path without splits takes one page for every level. */
  lemma {:induction false} PlainCopies(ps: PageSize, p: PageMap, id: nat, lo: int, hi: int, h: nat, key: i64)
    requires TreeOk(ps, p, id, lo, hi, h)
    ensures Copies(ps, p, id, h, key, false) == h + 1
    decreases h
  {
    hide NodeOk, LeafOk, SplitsUp;
    if h > 0 {
      var keys, children := p[id].keys, p[id].children;
      var i := Route(keys, key);
      NodeCounts(ps, p, keys, children, lo, hi, h - 1, id);
      ChildOk(ps, p, keys, children, lo, hi, h - 1, id, i);
      PlainCopies(ps, p, children[i], Lower(keys, lo, i), Upper(keys, hi, i), h - 1, key);
    }
  }

  /** The count does not change when pages are added. */
  lemma {:induction false} CopiesExtend(ps: PageSize, p: PageMap, q: PageMap, id: nat, lo: int, hi: int, h: nat, key: i64, split: bool)
    requires TreeOk(ps, p, id, lo, hi, h) && Extends(p, q)
    ensures SplitsUp(ps, q, id, h, key) == SplitsUp(ps, p, id, h, key)
    ensures Copies(ps, q, id, h, key, split) == Copies(ps, p, id, h, key, split)
    decreases h
  {
    hide NodeOk, LeafOk, MaxInteriorEntries;
    if h > 0 {
      var keys, children := p[id].keys, p[id].children;
      var i := Route(keys, key);
      NodeCounts(ps, p, keys, children, lo, hi, h - 1, id);
      ChildOk(ps, p, keys, children, lo, hi, h - 1, id, i);
      CopiesExtend(ps, p, q, children[i], Lower(keys, lo, i), Upper(keys, hi, i), h - 1, key, split);
    }
  }

  lemma CopiesAbove(ps: PageSize, p: PageMap, id: nat, at: Spot, key: i64, split: bool)
    requires SpotOk(ps, p, id, at) && at.i == Route(at.keys, key)
    ensures at.i < |at.children|
    ensures SplitsUp(ps, p, id, at.h + 1, key)
       <==> |at.keys| >= MaxInteriorEntries(ps) && SplitsUp(ps, p, at.children[at.i], at.h, key)
    ensures Copies(ps, p, id, at.h + 1, key, split)
         == Copies(ps, p, at.children[at.i], at.h, key, split)
          + if split && SplitsUp(ps, p, id, at.h + 1, key) then 2 else 1
  {
    hide NodeOk, MaxInteriorEntries;
  }

  lemma CopiesLeaf(ps: PageSize, p: PageMap, id: nat, key: i64, split: bool)
    ensures SplitsUp(ps, p, id, 0, key) && Copies(ps, p, id, 0, key, split) == if split then 2 else 1
  {
  }

  /** The newest page is the result's, or its right half. */
  predicate Last(r: NodeResult, next: nat) {
    match r
    case Replaced(id) => id + 1 == next
    case Split(_, right, _) => right + 1 == next
  }

  lemma NewestFacts(r: NodeResult, base: nat, next: nat)
    requires Newest(r, base, next)
    ensures Last(r, next) && FreshResult(r, base, next) && next == base + if r.Split? then 2 else 1
  {
  }

  /** How far the copy has come: `result` stands for position `j` of the path. */
  ghost predicate LevelOk(ps: PageSize, p: PageMap, path: seq<nat>, los: seq<int>, his: seq<int>, h: nat, key: i64,
                          base: nat, start: nat, split: bool, bad: bool, good: bool, es: seq<Entry>,
                          j: nat, q: PageMap, next: nat, result: NodeResult)
    requires j < |path| == |los| == |his| == h + 1
  {
    && FreshResult(result, base, next) && Last(result, next)
    && (result.Split? <==> split && SplitsUp(ps, p, path[j], h - j, key))
    && next == start + Copies(ps, p, path[j], h - j, key, split)
    && (bad ==> Spoiled(ps, q, result))
    && (good ==> ResultOk(ps, q, result, los[j], his[j], h - j, Replacing(ps, p, path[j], h - j, key, es)))
  }

  /** Copy the ancestor at position `j - 1`. */
  method CopyLevel(pool: BufferPool, path: seq<nat>, j: nat, result: NodeResult, ghost v0: Disk.Pages, ghost base: nat,
                   ghost start: nat, ghost los: seq<int>, ghost his: seq<int>, ghost h: nat, ghost key: i64,
                   ghost split: bool, ghost bad: bool, ghost good: bool, ghost es: seq<Entry>)
    returns (r: Result<NodeResult>)
    requires pool.Valid() && 0 < j < |path| == |los| == |his| == h + 1
    requires PathOk(pool.pager.pageSize, Decoded(pool.pager.pageSize, v0), path, los, his, h, key)
    requires Extends(v0, pool.view) && Disk.IdsIn(v0, base)
    requires LevelOk(pool.pager.pageSize, Decoded(pool.pager.pageSize, v0), path, los, his, h, key, base, start, split,
                     bad, good, es, j, Decoded(pool.pager.pageSize, pool.view), pool.nextPageId, result)
    requires base <= pool.nextPageId
    modifies pool, pool.pager.file
    ensures pool.Valid() && pool.Grown()
    ensures r.Ok? ==>
      LevelOk(pool.pager.pageSize, Decoded(pool.pager.pageSize, v0), path, los, his, h, key, base, start, split, bad,
              good, es, j - 1, Decoded(pool.pager.pageSize, pool.view), pool.nextPageId, r.value)
    ensures r.Err? ==> r.error == ArithmeticOverflow && pool.nextPageId == U32_MAX
  {
    hide BufferPool.Inv, DecodePage, Decoded, PathOk, ResultOk, Replacing, SpotOk, TreeOk, Contents, Propagated, Disk.IdsIn,
      Spoiled, IsTree, SplitsUp, Copies, MaxInteriorEntries;
    var ps := pool.pager.pageSize;
    ghost var p, q := Decoded(ps, v0), Decoded(ps, pool.view);
    PathSpot(ps, p, path, los, his, h, key, j);
    PathIds(ps, v0, base, path, los, his, h, key, j - 1);
    ghost var at := SpotAt(p, path, los, his, h, key, j);
    ghost var rows, next := Replacing(ps, p, path[j], h - j, key, es), pool.nextPageId;
    DecodedExtends(ps, v0, pool.view);
    AroundExtends(ps, p, q, path[j - 1], at, rows);
    CopiesAbove(ps, p, path[j - 1], at, key, split);
    r := ApplyResultToInterior(pool, path[j - 1], path[j], result, at, rows);
    if r.Ok? {
      NewestFacts(r.value, next, pool.nextPageId);
      LevelUp(ps, p, q, Decoded(ps, pool.view), path, los, his, h, key, j, result, r.value, es);
    }
  }

  /** Copy every ancestor of the leaf, bottom up. */
  method CopyAncestors(pool: BufferPool, path: seq<nat>, leafResult: NodeResult, ghost v0: Disk.Pages, ghost base: nat,
                       ghost start: nat, ghost los: seq<int>, ghost his: seq<int>, ghost h: nat, ghost key: i64,
                       ghost split: bool, ghost bad: bool, ghost good: bool, ghost es: seq<Entry>)
    returns (r: Result<NodeResult>)
    requires pool.Valid() && |path| == |los| == |his| == h + 1
    requires PathOk(pool.pager.pageSize, Decoded(pool.pager.pageSize, v0), path, los, his, h, key)
    requires Extends(v0, pool.view) && Disk.IdsIn(v0, base) && base <= pool.nextPageId
    requires LevelOk(pool.pager.pageSize, Decoded(pool.pager.pageSize, v0), path, los, his, h, key, base, start, split,
                     bad, good, es, h, Decoded(pool.pager.pageSize, pool.view), pool.nextPageId, leafResult)
    modifies pool, pool.pager.file
    ensures pool.Valid() && pool.Grown()
    ensures r.Ok? ==>
      LevelOk(pool.pager.pageSize, Decoded(pool.pager.pageSize, v0), path, los, his, h, key, base, start, split, bad,
              good, es, 0, Decoded(pool.pager.pageSize, pool.view), pool.nextPageId, r.value)
    ensures r.Err? ==> r.error == ArithmeticOverflow && pool.nextPageId == U32_MAX
  {
    hide BufferPool.Inv, Decoded, PathOk, LevelOk, Disk.IdsIn;
    var result, j := leafResult, |path| - 1;
    while j > 0
      invariant 0 <= j < |path| && pool.Valid() && pool.Grown() && Extends(v0, pool.view) && base <= pool.nextPageId
      invariant LevelOk(pool.pager.pageSize, Decoded(pool.pager.pageSize, v0), path, los, his, h, key, base, start, split,
                        bad, good, es, j, Decoded(pool.pager.pageSize, pool.view), pool.nextPageId, result)
    {
      result :- CopyLevel(pool, path, j, result, v0, base, start, los, his, h, key, split, bad, good, es);
      j := j - 1;
    }
    return Ok(result);
  }

  lemma LeafLevel(ps: PageSize, p: PageMap, path: seq<nat>, los: seq<int>, his: seq<int>, h: nat, key: i64,
                  base: nat, start: nat, split: bool, bad: bool, good: bool, es: seq<Entry>, q: PageMap, next: nat,
                  result: NodeResult)
    requires |path| == |los| == |his| == h + 1 && base <= start && Newest(result, start, next) && split == result.Split?
    requires good ==> ResultOk(ps, q, result, los[h], his[h], 0, es)
    requires bad ==> Spoiled(ps, q, result)
    ensures LevelOk(ps, p, path, los, his, h, key, base, start, split, bad, good, es, h, q, next, result)
  {
    hide ResultOk, Spoiled, Replacing, SplitsUp, Copies;
    AtLeafLevel(ps, p, path[h], key, es);
    CopiesLeaf(ps, p, path[h], key, split);
  }

  lemma RootLevel(ps: PageSize, p: PageMap, path: seq<nat>, los: seq<int>, his: seq<int>, h: nat, key: i64,
                  base: nat, start: nat, split: bool, bad: bool, good: bool, es: seq<Entry>, q: PageMap, next: nat,
                  result: NodeResult)
    requires |path| == |los| == |his| == h + 1 && los[0] == KEY_MIN && his[0] == KEY_END && FIRST_DATA_PAGE_ID <= base
    requires LevelOk(ps, p, path, los, his, h, key, base, start, split, bad, good, es, 0, q, next, result)
    ensures FreshResult(result, FIRST_DATA_PAGE_ID, next) && Last(result, next)
    ensures result.Split? <==> Grows(ps, p, path[0], h, key, split)
    ensures start + PathPages(ps, p, path[0], h, key, split) == next + if result.Split? then 1 else 0
    ensures good ==> ResultOk(ps, q, result, KEY_MIN, KEY_END, h, Replacing(ps, p, path[0], h, key, es))
    ensures bad ==> Spoiled(ps, q, result)
  {
    hide ResultOk, Spoiled, Replacing, SplitsUp, Copies;
  }

  /** Copy the ancestors of the leaf, then make the new root.
      `v0` is the view the path was found in, `es` the rows of the new leaf. */
  method CopyToRoot(pool: BufferPool, path: seq<nat>, leafResult: NodeResult, ghost v0: Disk.Pages, ghost base: nat,
                    ghost start: nat, ghost los: seq<int>, ghost his: seq<int>, ghost h: nat, ghost key: i64,
                    ghost es: seq<Entry>) returns (r: Result<u32>)
    requires pool.Valid()
    requires PathOk(pool.pager.pageSize, Decoded(pool.pager.pageSize, v0), path, los, his, h, key)
    requires |path| == |los| == |his| == h + 1 && los[0] == KEY_MIN && his[0] == KEY_END
    requires Extends(v0, pool.view) && Disk.IdsIn(v0, base) && FIRST_DATA_PAGE_ID <= base
    requires base <= start && Newest(leafResult, start, pool.nextPageId)
    modifies pool, pool.pager.file
    ensures pool.Valid() && pool.Grown()
    ensures r.Ok? ==> FIRST_DATA_PAGE_ID <= r.value < pool.nextPageId
    ensures r.Ok? ==>
      var ps := pool.pager.pageSize;
      var p, split := Decoded(ps, v0), leafResult.Split?;
      && r.value + 1 == pool.nextPageId && pool.nextPageId == start + PathPages(ps, p, path[0], h, key, split)
      && (ResultOk(ps, Decoded(ps, old(pool.view)), leafResult, los[h], his[h], 0, es) ==>
            HoldsAt(ps, Decoded(ps, pool.view), r.value, if Grows(ps, p, path[0], h, key, split) then h + 1 else h,
                    Replacing(ps, p, path[0], h, key, es)))
    ensures r.Ok? && Spoiled(pool.pager.pageSize, Decoded(pool.pager.pageSize, old(pool.view)), leafResult) ==>
      !IsTree(pool.pager.pageSize, Decoded(pool.pager.pageSize, pool.view), r.value)
    ensures r.Err? ==> r.error == ArithmeticOverflow && pool.nextPageId == U32_MAX
  {
    hide BufferPool.Inv, Decoded, PathOk, ResultOk, Replacing, TreeOk, Contents, Disk.IdsIn, Spoiled, IsTree, LevelOk,
      PathPages, Grows, FreshResult;
    var ps := pool.pager.pageSize;
    ghost var p := Decoded(ps, v0);
    ghost var good := ResultOk(ps, Decoded(ps, pool.view), leafResult, los[h], his[h], 0, es);
    ghost var bad := Spoiled(ps, Decoded(ps, pool.view), leafResult);
    ghost var split := leafResult.Split?;
    LeafLevel(ps, p, path, los, his, h, key, base, start, split, bad, good, es, Decoded(ps, pool.view), pool.nextPageId,
              leafResult);
    var result :- CopyAncestors(pool, path, leafResult, v0, base, start, los, his, h, key, split, bad, good, es);
    RootLevel(ps, p, path, los, his, h, key, base, start, split, bad, good, es, Decoded(ps, pool.view), pool.nextPageId,
              result);
    r := FinalizeRoot(pool, result, h, Replacing(ps, p, path[0], h, key, es));
  }
}
