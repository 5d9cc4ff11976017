/** Path copying (`btree/mutate.rs`): descending to a leaf, propagating a
    replaced or split child through its ancestors, and the new root. */
module Mutate {
  import opened Errors
  import opened Codec
  import opened Page
  import opened Slotted
  import opened PageModel
  import opened Nodes
  import opened Builder
  import opened Pool
  import opened Tree
  import opened TreeOps
  import Disk

  // ------------------------------------------------------------------
  // Pages as tree nodes.
  // ------------------------------------------------------------------

  /** A buffer that reads as page `id` is that page. */
  lemma BufferIsPage(ps: PageSize, view: Disk.Pages, id: nat, buf: Bytes)
    requires id in view && SameBody(buf, view[id])
    ensures DecodePage(ps, buf) == Decoded(ps, view)[id]
    ensures Decoded(ps, view)[id].Leaf? ==> IsLeaf(ps, buf) && LeafValue(ps, buf) == Decoded(ps, view)[id]
    ensures Decoded(ps, view)[id].Interior? ==>
      IsInterior(ps, buf) && Wf(InteriorKind, buf) && InteriorValue(buf) == Decoded(ps, view)[id]
  {
    SameBodySamePage(ps, view[id], buf);
    hide IsLeaf, SameBody, Wf;
  }

  lemma PageAdded(ps: PageSize, view: Disk.Pages, id: nat, buf: Bytes)
    requires id !in view
    ensures Extends(Decoded(ps, view), Decoded(ps, view[id := buf]))
    ensures id in Decoded(ps, view[id := buf]) && Decoded(ps, view[id := buf])[id] == DecodePage(ps, buf)
  {
    hide DecodePage;
  }

  lemma InteriorDecodes(ps: PageSize, buf: Bytes)
    requires IsInterior(ps, buf)
    ensures DecodePage(ps, buf) == InteriorValue(buf)
    ensures |InteriorValue(buf).keys| <= MaxInteriorEntries(ps)
  {
    WfFits(InteriorKind, buf);
    var cells := Cells(InteriorKind, buf);
    InteriorSize(cells, ps, buf);
  }

  lemma InteriorSize(cells: seq<Bytes>, ps: PageSize, buf: Bytes)
    requires Wf(InteriorKind, buf) && cells == Cells(InteriorKind, buf) && |buf| == ps
    requires Fits(INTERIOR_HEADER_LEN, ps, cells)
    ensures |cells| <= MaxInteriorEntries(ps)
  {
    forall i | 0 <= i < |cells|
      ensures |cells[i]| == 12
    {
      CellsAreWf(InteriorKind, buf, i);
    }
    FixedTotal(cells);
  }

  lemma NodeIsTree(ps: PageSize, p: PageMap, id: nat, keys: seq<i64>, children: seq<nat>, lo: int, hi: int, h: nat)
    requires id in p && p[id] == Interior(keys, children) && id >= FIRST_DATA_PAGE_ID
    requires NodeOk(ps, p, keys, children, lo, hi, h, id)
    ensures TreeOk(ps, p, id, lo, hi, h + 1) && Contents(ps, p, id, h + 1) == Flat(ps, p, children, h)
  {
    hide NodeOk, Flat;
  }

  // ------------------------------------------------------------------
  // Descending.
  // ------------------------------------------------------------------

  /** Position `j` of the path covers `key`, and leads to position `j + 1`. */
  predicate PathAt(ps: PageSize, p: PageMap, path: seq<nat>, los: seq<int>, his: seq<int>, h: nat, key: i64, j: nat)
    requires |path| == |los| == |his| && j < |path| <= h + 1
  {
    && TreeOk(ps, p, path[j], los[j], his[j], h - j)
    && los[j] <= key < his[j]
    && (j + 1 < |path| ==>
          && p[path[j]].Interior?
          && var keys, children := p[path[j]].keys, p[path[j]].children;
             var i := Route(keys, key);
             && i < |children| && path[j + 1] == children[i]
             && los[j + 1] == Lower(keys, los[j], i) && his[j + 1] == Upper(keys, his[j], i))
  }

  predicate PathOk(ps: PageSize, p: PageMap, path: seq<nat>, los: seq<int>, his: seq<int>, h: nat, key: i64) {
    && 0 < |path| == |los| == |his| <= h + 1
    && forall j | 0 <= j < |path| :: PathAt(ps, p, path, los, his, h, key, j)
  }

  lemma PathStarts(ps: PageSize, p: PageMap, root: nat, h: nat, key: i64)
    requires TreeOk(ps, p, root, KEY_MIN, KEY_END, h)
    ensures PathOk(ps, p, [root], [KEY_MIN], [KEY_END], h, key)
  {
    hide TreeOk;
  }

  lemma PathGrows(ps: PageSize, p: PageMap, path: seq<nat>, los: seq<int>, his: seq<int>, h: nat, key: i64)
    requires PathOk(ps, p, path, los, his, h, key)
    requires path[|path| - 1] in p && p[path[|path| - 1]].Interior?
    ensures |path| <= h
    ensures var node := p[path[|path| - 1]];
      var i := Route(node.keys, key);
      && i < |node.children|
      && node.children[i] in p
      && PathOk(ps, p, path + [node.children[i]], los + [Lower(node.keys, los[|path| - 1], i)],
                his + [Upper(node.keys, his[|path| - 1], i)], h, key)
      && LeafFor(p, path[|path| - 1], h + 1 - |path|, key) == LeafFor(p, node.children[i], h - |path|, key)
  {
    hide NodeOk, LeafOk;
    var k := |path| - 1;
    assert PathAt(ps, p, path, los, his, h, key, k);
    var node := p[path[k]];
    var i := Route(node.keys, key);
    NodeCounts(ps, p, node.keys, node.children, los[k], his[k], h - k - 1, path[k]);
    ChildOk(ps, p, node.keys, node.children, los[k], his[k], h - k - 1, path[k], i);
    RouteInRange(node.keys, los[k], his[k], key);
    hide TreeOk;
    var path', los', his' := path + [node.children[i]], los + [Lower(node.keys, los[k], i)], his + [Upper(node.keys, his[k], i)];
    forall j | 0 <= j < |path'|
      ensures PathAt(ps, p, path', los', his', h, key, j)
    {
      if j <= k {
        assert PathAt(ps, p, path, los, his, h, key, j);
      }
    }
  }

  lemma PathEnd(ps: PageSize, p: PageMap, path: seq<nat>, los: seq<int>, his: seq<int>, h: nat, key: i64)
    requires PathOk(ps, p, path, los, his, h, key)
    ensures |los| == |path| && |his| == |path|
    ensures var last := path[|path| - 1]; last in p && (p[last].Leaf? || p[last].Interior?)
    ensures p[path[|path| - 1]].Leaf? ==>
      |path| == h + 1 && LeafOk(ps, p, p[path[h]].cells, los[h], his[h], path[h]) && los[h] <= key < his[h]
  {
    hide NodeOk, LeafOk;
    assert PathAt(ps, p, path, los, his, h, key, |path| - 1);
  }

  /** The page ids from the root to the leaf `key` is routed to. */
  method DescendPath(pool: BufferPool, root: nat, key: i64, ghost h: nat)
    returns (path: seq<nat>, ghost los: seq<int>, ghost his: seq<int>)
    requires pool.Valid()
    requires TreeOk(pool.pager.pageSize, Decoded(pool.pager.pageSize, pool.view), root, KEY_MIN, KEY_END, h)
    modifies pool, pool.pager.file
    ensures pool.Valid() && pool.Steady()
    ensures var p := Decoded(pool.pager.pageSize, pool.view);
      && PathOk(pool.pager.pageSize, p, path, los, his, h, key)
      && path[0] == root && los[0] == KEY_MIN && his[0] == KEY_END
      && path[|path| - 1] == LeafFor(p, root, h, key)
      && path[|path| - 1] in p && p[path[|path| - 1]].Leaf?
  {
    hide TreeOk, BufferPool.Inv, DecodePage, PathOk, LeafFor, IsLeaf, IsInterior, Wf, Decoded, InteriorValue;
    var ps := pool.pager.pageSize;
    ghost var p := Decoded(ps, pool.view);
    path, los, his := [root], [KEY_MIN], [KEY_END];
    var current := root;
    DecodedKeys(ps, pool.view);
    PathStarts(ps, p, root, h, key);
    while true
      invariant pool.Valid() && pool.Steady()
      invariant PathOk(ps, p, path, los, his, h, key) && |path| > 0
      invariant |los| == |his| == |path| && los[0] == KEY_MIN && his[0] == KEY_END
      invariant path[0] == root && path[|path| - 1] == current
      invariant |path| <= h + 1 && LeafFor(p, current, h + 1 - |path|, key) == LeafFor(p, root, h, key)
      decreases h + 1 - |path|
    {
      PathEnd(ps, p, path, los, his, h, key);
      var got := pool.Get(current);
      assert got.Ok?;
      var buf := got.value;
      BufferIsPage(ps, pool.view, current, buf);
      PageTypes(ps, buf);
      if buf[0] == TYPE_LEAF {
        LeafForLeaf(p, current, h + 1 - |path|, key);
        return;
      }
      PathGrows(ps, p, path, los, his, h, key);
      var child := InteriorFindChildForKey(buf, key);
      ghost var i := Route(p[current].keys, key);
      los := los + [Lower(p[current].keys, los[|path| - 1], i)];
      his := his + [Upper(p[current].keys, his[|path| - 1], i)];
      current := child.value;
      path := path + [current];
    }
  }

  lemma PageTypes(ps: PageSize, buf: Bytes)
    requires DecodePage(ps, buf).Leaf? || DecodePage(ps, buf).Interior?
    ensures |buf| > 0
    ensures DecodePage(ps, buf).Leaf? <==> buf[0] == TYPE_LEAF
    ensures DecodePage(ps, buf).Interior? <==> buf[0] == TYPE_INTERIOR
  {
  }

  lemma LeafForLeaf(p: PageMap, id: nat, h: nat, key: i64)
    requires id in p && p[id].Leaf?
    ensures LeafFor(p, id, h, key) == id
  {
  }

  // ------------------------------------------------------------------
  // Propagating a copied child through one ancestor.
  // ------------------------------------------------------------------

  /** An ancestor on the path: its node, its range and the child slot taken. */
  datatype Spot = Spot(keys: seq<i64>, children: seq<nat>, i: nat, lo: int, hi: int, h: nat)

  predicate SpotOk(ps: PageSize, p: PageMap, id: nat, at: Spot) {
    && id in p && p[id] == Interior(at.keys, at.children)
    && NodeOk(ps, p, at.keys, at.children, at.lo, at.hi, at.h, id)
    && at.i < |at.children|
  }

  function ChildLo(at: Spot): int
    requires at.i <= |at.keys|
  {
    Lower(at.keys, at.lo, at.i)
  }

  function ChildHi(at: Spot): int
    requires at.i <= |at.keys|
  {
    Upper(at.keys, at.hi, at.i)
  }

  /** Rows of the ancestor with `es` in place of the child's. */
  function Around(ps: PageSize, p: PageMap, at: Spot, es: seq<Entry>): seq<Entry>
    requires at.i < |at.children|
  {
    Flat(ps, p, at.children[..at.i], at.h) + es + Flat(ps, p, at.children[at.i + 1..], at.h)
  }

  lemma AroundExtends(ps: PageSize, p: PageMap, q: PageMap, id: nat, at: Spot, es: seq<Entry>)
    requires Extends(p, q) && SpotOk(ps, p, id, at)
    ensures SpotOk(ps, q, id, at) && Around(ps, q, at, es) == Around(ps, p, at, es)
  {
    hide TreeOk, Contents, Flat, Separators, Distinct;
    NodeExtends(ps, p, q, at.keys, at.children, at.lo, at.hi, at.h, id);
    forall j | 0 <= j < |at.children|
      ensures Contents(ps, q, at.children[j], at.h) == Contents(ps, p, at.children[j], at.h)
    {
      TreeExtends(ps, p, q, at.children[j], Lower(at.keys, at.lo, j), Upper(at.keys, at.hi, j), at.h);
    }
    FlatExtends(ps, p, q, at.children[..at.i], at.h);
    FlatExtends(ps, p, q, at.children[at.i + 1..], at.h);
  }

  lemma SpotCounts(ps: PageSize, p: PageMap, id: nat, at: Spot)
    requires SpotOk(ps, p, id, at)
    ensures |at.children| == |at.keys| + 1 && at.i <= |at.keys| && Distinct(at.children)
    ensures forall j | 0 <= j < |at.children| :: at.children[j] < id
  {
    hide TreeOk;
  }

  /** What propagation promises: if the child result was right, so is this. */
  predicate Propagated(ps: PageSize, p: PageMap, q: PageMap, at: Spot, r: NodeResult, r': NodeResult, es: seq<Entry>)
    requires at.i < |at.children| && at.i <= |at.keys|
  {
    ResultOk(ps, p, r, ChildLo(at), ChildHi(at), at.h, es)
    ==> ResultOk(ps, q, r', at.lo, at.hi, at.h + 1, Around(ps, p, at, es))
  }

  /** The page with the child repointed, put under a fresh id, is a tree. */
  lemma ReplacedPropagates(ps: PageSize, p: PageMap, q: PageMap, id: nat, at: Spot, child: u32, newId: u32, es: seq<Entry>)
    requires SpotOk(ps, p, id, at) && Extends(p, q) && at.i <= |at.keys|
    requires newId in q && q[newId] == Interior(at.keys, at.children[at.i := child])
    requires id <= child < newId && FIRST_DATA_PAGE_ID <= newId
    ensures Propagated(ps, p, q, at, Replaced(child), Replaced(newId), es)
  {
    hide TreeOk, NodeOk, Contents, Flat;
    if ResultOk(ps, p, Replaced(child), ChildLo(at), ChildHi(at), at.h, es) {
      AroundExtends(ps, p, q, id, at, es);
      TreeExtends(ps, p, q, child, ChildLo(at), ChildHi(at), at.h);
      ReplaceChild(ps, q, at.keys, at.children, at.lo, at.hi, at.h, id, at.i, child, newId);
      NodeIsTree(ps, q, newId, at.keys, at.children[at.i := child], at.lo, at.hi, at.h);
    }
  }

  /** The page with the split spliced in, put under a fresh id, is a tree. */
  lemma SplicedPropagates(ps: PageSize, p: PageMap, q: PageMap, id: nat, at: Spot, left: u32, right: u32,
                          separator: i64, newId: u32, es: seq<Entry>)
    requires SpotOk(ps, p, id, at) && Extends(p, q) && at.i <= |at.keys|
    requires newId in q
    requires q[newId] == Interior(SeqInsert(at.keys, at.i, separator), SplicedChildren(at.children, at.i, left, right))
    requires id <= left < newId && id <= right < newId && FIRST_DATA_PAGE_ID <= newId
    ensures Propagated(ps, p, q, at, Split(left, right, separator), Replaced(newId), es)
  {
    hide TreeOk, NodeOk, Contents, Flat;
    if ResultOk(ps, p, Split(left, right, separator), ChildLo(at), ChildHi(at), at.h, es) {
      AroundExtends(ps, p, q, id, at, es);
      ResultExtends(ps, p, q, Split(left, right, separator), ChildLo(at), ChildHi(at), at.h, es);
      SplitChild(ps, q, at.keys, at.children, at.lo, at.hi, at.h, id, at.i, left, right, separator, newId);
      NodeIsTree(ps, q, newId, SeqInsert(at.keys, at.i, separator), SplicedChildren(at.children, at.i, left, right),
                 at.lo, at.hi, at.h);
    }
  }

  /** The two halves of the spliced page, put under fresh ids, are trees. */
  lemma HalvedPropagates(ps: PageSize, p: PageMap, q: PageMap, id: nat, at: Spot, left: u32, right: u32,
                         separator: i64, keys: seq<i64>, children: seq<nat>, mid: nat, l: u32, r: u32, es: seq<Entry>)
    requires SpotOk(ps, p, id, at) && Extends(p, q) && at.i <= |at.keys|
    requires keys == SeqInsert(at.keys, at.i, separator) && children == SplicedChildren(at.children, at.i, left, right)
    requires 1 <= mid < |keys| - 1 && |children| == |keys| + 1
    requires l in q && q[l] == Interior(keys[..mid], children[..mid + 1])
    requires r in q && q[r] == Interior(keys[mid + 1..], children[mid + 1..])
    requires id <= left < l && id <= right < l && l < r && FIRST_DATA_PAGE_ID <= l
    ensures Propagated(ps, p, q, at, Split(left, right, separator), Split(l, r, keys[mid]), es)
  {
    hide TreeOk, NodeOk, Contents, Flat;
    if ResultOk(ps, p, Split(left, right, separator), ChildLo(at), ChildHi(at), at.h, es) {
      AroundExtends(ps, p, q, id, at, es);
      ResultExtends(ps, p, q, Split(left, right, separator), ChildLo(at), ChildHi(at), at.h, es);
      SplitChild(ps, q, at.keys, at.children, at.lo, at.hi, at.h, id, at.i, left, right, separator, l);
      HalveNode(ps, q, keys, children, at.lo, at.hi, at.h, l, mid);
      NodeIsTree(ps, q, l, keys[..mid], children[..mid + 1], at.lo, keys[mid], at.h);
      NodeBound(ps, q, keys[mid + 1..], children[mid + 1..], keys[mid], at.hi, at.h, l, r);
      NodeIsTree(ps, q, r, keys[mid + 1..], children[mid + 1..], keys[mid], at.hi, at.h);
    }
  }

  lemma ReplacedSpoils(ps: PageSize, p: PageMap, q: PageMap, at: Spot, child: u32, newId: u32)
    requires Extends(p, q) && at.i < |at.children| && newId in q
    requires q[newId] == Interior(at.keys, at.children[at.i := child])
    ensures Spoiled(ps, p, Replaced(child)) ==> Spoiled(ps, q, Replaced(newId))
  {
    hide Spoiled, Extends;
    assert at.children[at.i := child][at.i] == child;
    assert newId in ResultIds(Replaced(newId)) && IsChild(q, newId, child);
    if Spoiled(ps, p, Replaced(child)) {
      SpoilsUp(ps, p, q, Replaced(child), Replaced(newId));
    }
  }

  lemma SplicedSpoils(ps: PageSize, p: PageMap, q: PageMap, at: Spot, left: u32, right: u32, separator: i64, newId: u32)
    requires Extends(p, q) && at.i < |at.children| && at.i <= |at.keys| && newId in q
    requires q[newId] == Interior(SeqInsert(at.keys, at.i, separator), SplicedChildren(at.children, at.i, left, right))
    ensures Spoiled(ps, p, Split(left, right, separator)) ==> Spoiled(ps, q, Replaced(newId))
  {
    hide Spoiled, Extends;
    var cs := SplicedChildren(at.children, at.i, left, right);
    assert cs[at.i] == left && cs[at.i + 1] == right;
    assert newId in ResultIds(Replaced(newId)) && IsChild(q, newId, left) && IsChild(q, newId, right);
    if Spoiled(ps, p, Split(left, right, separator)) {
      SpoilsUp(ps, p, q, Split(left, right, separator), Replaced(newId));
    }
  }

  lemma InOneHalf(ids: seq<nat>, i: nat, mid: nat)
    requires i < |ids| && mid <= |ids|
    ensures ids[i] in ids[..mid] || ids[i] in ids[mid..]
  {
    if i < mid {
      assert ids[..mid][i] == ids[i];
    } else {
      assert ids[mid..][i - mid] == ids[i];
    }
  }

  lemma HalvedSpoils(ps: PageSize, p: PageMap, q: PageMap, at: Spot, left: u32, right: u32, separator: i64,
                     children: seq<nat>, mid: nat, r: NodeResult)
    requires Extends(p, q) && at.i < |at.children| && mid < |children|
    requires children == SplicedChildren(at.children, at.i, left, right)
    requires r.Split? && r.left in q && r.right in q && q[r.left].Interior? && q[r.right].Interior?
    requires q[r.left].children == children[..mid + 1] && q[r.right].children == children[mid + 1..]
    ensures Spoiled(ps, p, Split(left, right, separator)) ==> Spoiled(ps, q, r)
  {
    hide Spoiled, Extends;
    assert children[at.i] == left && children[at.i + 1] == right;
    assert r.left in ResultIds(r) && r.right in ResultIds(r);
    forall x | x in ResultIds(Split(left, right, separator))
      ensures exists y | y in ResultIds(r) :: IsChild(q, y, x)
    {
      InOneHalf(children, if x == left then at.i else at.i + 1, mid + 1);
      assert IsChild(q, r.left, x) || IsChild(q, r.right, x);
    }
    if Spoiled(ps, p, Split(left, right, separator)) {
      SpoilsUp(ps, p, q, Split(left, right, separator), r);
    }
  }

  lemma NodeBound(ps: PageSize, q: PageMap, keys: seq<i64>, children: seq<nat>, lo: int, hi: int, h: nat,
                  bound: nat, bound': nat)
    requires NodeOk(ps, q, keys, children, lo, hi, h, bound) && bound <= bound'
    ensures NodeOk(ps, q, keys, children, lo, hi, h, bound')
  {
    hide TreeOk, Separators, Distinct;
  }

  /** `children.iter().position(..).unwrap_or(len - 1)`. */
  function Position(children: seq<nat>, id: nat): (i: nat)
    requires |children| > 0
    ensures i < |children|
  {
    if |children| == 1 || children[0] == id then 0 else 1 + Position(children[1..], id)
  }

  /** With distinct children the lookup hits the intended slot. */
  lemma {:induction false} PositionIs(children: seq<nat>, i: nat)
    requires i < |children| && Distinct(children)
    ensures Position(children, children[i]) == i
  {
    if i > 0 {
      assert children[0] != children[i];
      PositionIs(children[1..], i - 1);
    }
  }

  lemma SlotIsUnique(children: seq<nat>, i: nat, slot: ChildSlot)
    requires i < |children| && Distinct(children) && SlotIs(children, children[i], slot)
    ensures (slot.CellSlot? && slot.index == i && i < |children| - 1) || (slot.Rightmost? && i == |children| - 1)
  {
  }

  method SpliceSplitIntoEntries(keys: seq<i64>, children: seq<nat>, oldChildId: nat, separator: i64,
                                left: nat, right: nat) returns (ks: seq<i64>, cs: seq<nat>)
    requires |children| == |keys| + 1
    ensures ks == SeqInsert(keys, Position(children, oldChildId), separator)
    ensures cs == SplicedChildren(children, Position(children, oldChildId), left, right)
  {
    var position := Position(children, oldChildId);
    ks := SeqInsert(keys, position, separator);
    cs := SeqInsert(children, position, left);
    cs := cs[position + 1 := right];
  }

  method SplitInteriorEntries(pool: BufferPool, keys: seq<i64>, children: seq<nat>) returns (r: Result<NodeResult>)
    requires pool.Valid()
    requires |children| == |keys| + 1 && |keys| == MaxInteriorEntries(pool.pager.pageSize) + 1
    requires forall i | 0 <= i < |children| :: children[i] <= U32_MAX
    modifies pool, pool.pager.file
    ensures pool.Valid() && pool.Grown()
    ensures r.Ok? ==>
      var p, mid := Decoded(pool.pager.pageSize, pool.view), |keys| / 2;
      && 1 <= mid < |keys| - 1
      && r.value.Split? && r.value.separator == keys[mid]
      && Newest(r.value, old(pool.nextPageId), pool.nextPageId)
      && r.value.left in p && p[r.value.left] == Interior(keys[..mid], children[..mid + 1])
      && r.value.right in p && p[r.value.right] == Interior(keys[mid + 1..], children[mid + 1..])
    ensures r.Err? ==> r.error == ArithmeticOverflow && pool.nextPageId == U32_MAX
  {
    hide BufferPool.Inv, DecodePage, IsInterior, InteriorValue, BuiltInterior, Decoded;
    var ps := pool.pager.pageSize;
    var mid := |keys| / 2;
    ghost var lt := BuiltInteriorRefines(ps, keys[..mid], children[..mid + 1]);
    ghost var rt := BuiltInteriorRefines(ps, keys[mid + 1..], children[mid + 1..]);
    var leftBuf := BuildInteriorPage(ps, keys[..mid], children[..mid + 1]);
    var rightBuf := BuildInteriorPage(ps, keys[mid + 1..], children[mid + 1..]);
    InteriorDecodes(ps, lt);
    InteriorDecodes(ps, rt);
    ghost var v0 := pool.view;
    var leftId :- pool.PutFresh(leftBuf.value);
    ghost var v1 := pool.view;
    PageAdded(ps, v0, leftId, lt);
    var rightId :- pool.PutFresh(rightBuf.value);
    PageAdded(ps, v1, rightId, rt);
    return Ok(Split(leftId, rightId, keys[mid]));
  }

  method ApplyResultToInterior(pool: BufferPool, ancestorId: nat, oldChildId: nat, result: NodeResult,
                               ghost at: Spot, ghost es: seq<Entry>) returns (r: Result<NodeResult>)
    requires pool.Valid()
    requires SpotOk(pool.pager.pageSize, Decoded(pool.pager.pageSize, pool.view), ancestorId, at)
    requires at.i <= |at.keys| && at.children[at.i] == oldChildId
    requires FreshResult(result, ancestorId, pool.nextPageId)
    modifies pool, pool.pager.file
    ensures pool.Valid() && pool.Grown()
    ensures r.Ok? ==>
      && Newest(r.value, old(pool.nextPageId), pool.nextPageId)
      && (r.value.Split? <==> result.Split? && |at.keys| >= MaxInteriorEntries(pool.pager.pageSize))
      && Propagated(pool.pager.pageSize, Decoded(pool.pager.pageSize, old(pool.view)),
                    Decoded(pool.pager.pageSize, pool.view), at, result, r.value, es)
      && (Spoiled(pool.pager.pageSize, Decoded(pool.pager.pageSize, old(pool.view)), result)
          ==> Spoiled(pool.pager.pageSize, Decoded(pool.pager.pageSize, pool.view), r.value))
    ensures r.Err? ==> r.error == ArithmeticOverflow && pool.nextPageId == U32_MAX
  {
    match result
    case Replaced(newChild) =>
      r := RepointChild(pool, ancestorId, oldChildId, newChild, at, es);
    case Split(left, right, separator) =>
      r := SpliceChild(pool, ancestorId, oldChildId, left, right, separator, at, es);
  }

  /** The `Replaced` arm: clone the page and repoint one child in place. */
  method RepointChild(pool: BufferPool, ancestorId: nat, oldChildId: nat, newChild: u32,
                      ghost at: Spot, ghost es: seq<Entry>) returns (r: Result<NodeResult>)
    requires pool.Valid()
    requires SpotOk(pool.pager.pageSize, Decoded(pool.pager.pageSize, pool.view), ancestorId, at)
    requires at.i <= |at.keys| && at.children[at.i] == oldChildId
    requires ancestorId <= newChild < pool.nextPageId
    modifies pool, pool.pager.file
    ensures pool.Valid() && pool.Grown()
    ensures r.Ok? ==>
      && Newest(r.value, old(pool.nextPageId), pool.nextPageId)
      && r.value.Replaced?
      && Propagated(pool.pager.pageSize, Decoded(pool.pager.pageSize, old(pool.view)),
                    Decoded(pool.pager.pageSize, pool.view), at, Replaced(newChild), r.value, es)
      && (Spoiled(pool.pager.pageSize, Decoded(pool.pager.pageSize, old(pool.view)), Replaced(newChild))
          ==> Spoiled(pool.pager.pageSize, Decoded(pool.pager.pageSize, pool.view), r.value))
    ensures r.Err? ==> r.error == ArithmeticOverflow && pool.nextPageId == U32_MAX
  {
    hide BufferPool.Inv, DecodePage, IsInterior, InteriorValue, Decoded, Wf, SpotOk, Propagated, Spoiled, ChildSet, Written;
    var ps := pool.pager.pageSize;
    ghost var v0 := pool.view;
    DecodedKeys(ps, v0);
    pool.ValidIds();
    SpotPage(ps, Decoded(ps, v0), ancestorId, at);
    var got := pool.Get(ancestorId);
    assert got.Ok?;
    BufferIsPage(ps, v0, ancestorId, got.value);
    var buf := NewCopy(got.value);
    ghost var repointed := RepointedPage(ps, got.value, at, newChild);
    var slot := InteriorFindChildSlot(buf[..], oldChildId);
    SlotIsUnique(at.children, at.i, slot.value);
    if slot.value.CellSlot? {
      var _ := InteriorSetChildAt(buf, slot.value.index, newChild);
    } else {
      var _ := InteriorSetRightmost(buf, newChild);
    }
    assert buf[..] == repointed;
    InteriorDecodes(ps, repointed);
    var newId :- pool.PutFresh(buf[..]);
    PageAdded(ps, v0, newId, repointed);
    ReplacedPropagates(ps, Decoded(ps, v0), Decoded(ps, pool.view), ancestorId, at, newChild, newId, es);
    ReplacedSpoils(ps, Decoded(ps, v0), Decoded(ps, pool.view), at, newChild, newId);
    return Ok(Replaced(newId));
  }

  lemma SpotPage(ps: PageSize, p: PageMap, id: nat, at: Spot)
    requires SpotOk(ps, p, id, at)
    ensures id in p && p[id] == Interior(at.keys, at.children)
    ensures |at.children| == |at.keys| + 1 && at.i < |at.children| && Distinct(at.children)
    ensures forall j | 0 <= j < |at.children| :: at.children[j] < id
  {
    SpotCounts(ps, p, id, at);
    hide NodeOk;
  }

  /** The bytes of the repointed page, whichever arm the slot lookup takes. */
  lemma RepointedPage(ps: PageSize, s: Bytes, at: Spot, child: u32) returns (t: Bytes)
    requires IsInterior(ps, s) && Wf(InteriorKind, s) && InteriorValue(s) == Interior(at.keys, at.children)
    requires |at.children| == |at.keys| + 1 && at.i < |at.children|
    ensures at.i < |at.keys| ==> ChildSet(s, at.i, child) == Ok(t)
    ensures at.i == |at.keys| ==> Written(s, 5, ToBE(child, 4)) == Ok(t)
    ensures IsInterior(ps, t) && InteriorValue(t) == Interior(at.keys, at.children[at.i := child])
  {
    hide ToBE;
    assert |at.keys| == Count(s);
    if at.i < |at.keys| {
      t := ChildSetRefines(ps, s, at.i, child);
    } else {
      t := RightmostSetRefines(ps, s, child);
    }
  }

  /** The `Split` arm: splice the split in; rebuild the page or halve it. */
  method SpliceChild(pool: BufferPool, ancestorId: nat, oldChildId: nat, left: u32, right: u32, separator: i64,
                     ghost at: Spot, ghost es: seq<Entry>) returns (r: Result<NodeResult>)
    requires pool.Valid()
    requires SpotOk(pool.pager.pageSize, Decoded(pool.pager.pageSize, pool.view), ancestorId, at)
    requires at.i <= |at.keys| && at.children[at.i] == oldChildId
    requires ancestorId <= left < pool.nextPageId && ancestorId <= right < pool.nextPageId
    modifies pool, pool.pager.file
    ensures pool.Valid() && pool.Grown()
    ensures r.Ok? ==>
      && Newest(r.value, old(pool.nextPageId), pool.nextPageId)
      && (r.value.Split? <==> |at.keys| >= MaxInteriorEntries(pool.pager.pageSize))
      && Propagated(pool.pager.pageSize, Decoded(pool.pager.pageSize, old(pool.view)),
                    Decoded(pool.pager.pageSize, pool.view), at, Split(left, right, separator), r.value, es)
      && (Spoiled(pool.pager.pageSize, Decoded(pool.pager.pageSize, old(pool.view)), Split(left, right, separator))
          ==> Spoiled(pool.pager.pageSize, Decoded(pool.pager.pageSize, pool.view), r.value))
    ensures r.Err? ==> r.error == ArithmeticOverflow && pool.nextPageId == U32_MAX
  {
    hide BufferPool.Inv, DecodePage, IsInterior, InteriorValue, Decoded, Wf, SpotOk, Propagated, Spoiled, BuiltInterior, SeqInsert,
      SplicedChildren, Position, Distinct, MaxInteriorEntries, SameBody;
    var ps := pool.pager.pageSize;
    ghost var v0 := pool.view;
    DecodedKeys(ps, v0);
    pool.ValidIds();
    SpotPage(ps, Decoded(ps, v0), ancestorId, at);
    var got := pool.Get(ancestorId);
    assert got.Ok?;
    BufferIsPage(ps, v0, ancestorId, got.value);
    InteriorDecodes(ps, got.value);
    var entries := InteriorEntries(got.value);
    var keys, children := SpliceSplitIntoEntries(entries.value.0, entries.value.1, oldChildId, separator, left, right);
    PositionIs(at.children, at.i);
    SplicedSizes(at, left, right, separator, ancestorId, pool.nextPageId);
    if |keys| <= MaxInteriorEntries(ps) {
      ghost var page := BuiltInteriorRefines(ps, keys, children);
      var rebuilt := BuildInteriorPage(ps, keys, children);
      InteriorDecodes(ps, page);
      var newId :- pool.PutFresh(rebuilt.value);
      PageAdded(ps, v0, newId, page);
      SplicedPropagates(ps, Decoded(ps, v0), Decoded(ps, pool.view), ancestorId, at, left, right, separator, newId, es);
      SplicedSpoils(ps, Decoded(ps, v0), Decoded(ps, pool.view), at, left, right, separator, newId);
      return Ok(Replaced(newId));
    } else {
      r := SplitInteriorEntries(pool, keys, children);
      if r.Ok? {
        DecodedExtends(ps, v0, pool.view);
        HalvedPropagates(ps, Decoded(ps, v0), Decoded(ps, pool.view), ancestorId, at, left, right, separator,
                         keys, children, |keys| / 2, r.value.left, r.value.right, es);
        HalvedSpoils(ps, Decoded(ps, v0), Decoded(ps, pool.view), at, left, right, separator, children, |keys| / 2, r.value);
      }
    }
  }

  lemma SplicedSizes(at: Spot, left: u32, right: u32, separator: i64, id: nat, next: u32)
    requires |at.children| == |at.keys| + 1 && at.i < |at.children|
    requires forall j | 0 <= j < |at.children| :: at.children[j] < id
    requires id <= left < next
    ensures |SeqInsert(at.keys, at.i, separator)| == |at.keys| + 1
    ensures var cs := SplicedChildren(at.children, at.i, left, right);
      |cs| == |at.keys| + 2 && forall j | 0 <= j < |cs| :: cs[j] <= U32_MAX
  {
  }

  // ------------------------------------------------------------------
  // The new root.
  // ------------------------------------------------------------------

  lemma RootOfSplit(ps: PageSize, p: PageMap, q: PageMap, left: u32, right: u32, separator: i64, id: u32,
                    h: nat, es: seq<Entry>)
    requires Extends(p, q) && id in q && q[id] == Interior([separator], [left, right])
    requires left < id && right < id && FIRST_DATA_PAGE_ID <= id
    requires ResultOk(ps, p, Split(left, right, separator), KEY_MIN, KEY_END, h, es)
    ensures TreeOk(ps, q, id, KEY_MIN, KEY_END, h + 1) && Contents(ps, q, id, h + 1) == es
  {
    hide TreeOk, Contents, Flat;
    ResultExtends(ps, p, q, Split(left, right, separator), KEY_MIN, KEY_END, h, es);
    FlatTwo(ps, q, left, right, h);
    NodeIsTree(ps, q, id, [separator], [left, right], KEY_MIN, KEY_END, h);
  }

  method FinalizeRoot(pool: BufferPool, result: NodeResult, ghost h: nat, ghost es: seq<Entry>)
    returns (r: Result<u32>)
    requires pool.Valid()
    requires FreshResult(result, FIRST_DATA_PAGE_ID, pool.nextPageId)
    modifies pool, pool.pager.file
    ensures pool.Valid() && pool.Grown()
    ensures r.Ok? ==>
      && FIRST_DATA_PAGE_ID <= r.value < pool.nextPageId
      && (match result
          case Replaced(id) => r.value == id && pool.nextPageId == old(pool.nextPageId)
          case Split(_, _, _) => r.value == old(pool.nextPageId) && pool.nextPageId == old(pool.nextPageId) + 1)
      && var ps := pool.pager.pageSize;
         var h' := if result.Replaced? then h else h + 1;
         (ResultOk(ps, Decoded(ps, old(pool.view)), result, KEY_MIN, KEY_END, h, es) ==>
            && TreeOk(ps, Decoded(ps, pool.view), r.value, KEY_MIN, KEY_END, h')
            && Contents(ps, Decoded(ps, pool.view), r.value, h') == es)
         && (Spoiled(ps, Decoded(ps, old(pool.view)), result) ==> !IsTree(ps, Decoded(ps, pool.view), r.value))
    ensures r.Err? ==> r.error == ArithmeticOverflow && pool.nextPageId == U32_MAX
  {
    hide BufferPool.Inv, DecodePage, IsInterior, InteriorValue, Decoded, Wf, TreeOk, Contents, BuiltInterior, Inserted, Spoiled, IsTree;
    pool.ValidIds();
    match result
    case Replaced(id) =>
      SpoiledRoot(pool.pager.pageSize, Decoded(pool.pager.pageSize, pool.view), id);
      return Ok(id);
    case Split(left, right, separator) =>
      var ps := pool.pager.pageSize;
      ghost var v0 := pool.view;
      ghost var page := BuiltInteriorRefines(ps, [separator], [left, right]);
      var rootBuf := BuildRootPage(ps, left, right, separator);
      InteriorDecodes(ps, page);
      var id :- pool.PutFresh(rootBuf.value);
      PageAdded(ps, v0, id, page);
      if ResultOk(ps, Decoded(ps, v0), result, KEY_MIN, KEY_END, h, es) {
        RootOfSplit(ps, Decoded(ps, v0), Decoded(ps, pool.view), left, right, separator, id, h, es);
      }
      RootSpoils(ps, Decoded(ps, v0), Decoded(ps, pool.view), left, right, separator, id);
      return Ok(id);
  }

  lemma SpoiledRoot(ps: PageSize, p: PageMap, id: u32)
    ensures Spoiled(ps, p, Replaced(id)) ==> !IsTree(ps, p, id)
  {
    hide IsTree;
    assert Extends(p, p);
  }

  lemma RootSpoils(ps: PageSize, p: PageMap, q: PageMap, left: u32, right: u32, separator: i64, id: u32)
    requires Extends(p, q) && id in q && q[id] == Interior([separator], [left, right])
    ensures Spoiled(ps, p, Split(left, right, separator)) ==> !IsTree(ps, q, id)
  {
    hide Spoiled, Extends, IsTree;
    assert [left, right][0] == left && [left, right][1] == right;
    assert id in ResultIds(Replaced(id)) && IsChild(q, id, left) && IsChild(q, id, right);
    if Spoiled(ps, p, Split(left, right, separator)) {
      SpoilsUp(ps, p, q, Split(left, right, separator), Replaced(id));
    }
    SpoiledRoot(ps, q, id);
  }

  lemma BuiltOne(s: Bytes, header: nat, cell: Bytes)
    ensures BuiltFrom(s, header, [cell]) == Inserted(s, header, 0, cell)
  {
    hide Inserted;
    assert [cell][..0] == [];
    assert BuiltFrom(s, header, [cell][..0]) == Ok(s);
  }

  /** The bytes of a root over a split: one separator, two children. */
  method BuildRootPage(ps: PageSize, left: u32, right: u32, separator: i64) returns (r: Result<Bytes>)
    ensures r == BuiltInterior(ps, [separator], [left, right])
    ensures r.Ok? ==> |r.value| == ps
  {
    hide Inserted;
    var buf := NewZeros(ps);
    var _ := InitInterior(buf, right);
    ghost var s := buf[..];
    var cell := BuildInteriorCell(separator, left);
    ghost var cells := InteriorCells([separator], [left, right]);
    assert cells == [cell];
    BuiltOne(s, INTERIOR_HEADER_LEN, cell);
    var _ :- InsertCellAt(buf, INTERIOR_HEADER_LEN, 0, cell);
    return Ok(buf[..]);
  }

  /** What collapsing a root of this kind gives. */
  function Collapsed(v: PageValue, root: nat): nat {
    if v.Interior? && v.keys == [] && |v.children| > 0 then v.children[0] else root
  }

  /** A root without separators gives way to its only child. */
  method CollapseRootIfNeeded(pool: BufferPool, root: nat) returns (r: Result<nat>)
    requires pool.Valid()
    modifies pool, pool.pager.file
    ensures pool.Valid() && pool.Steady()
    ensures var p := Decoded(pool.pager.pageSize, pool.view);
      root in p && (p[root].Leaf? || p[root].Interior?) ==> r == Ok(Collapsed(p[root], root))
  {
    hide BufferPool.Inv, DecodePage, IsInterior, InteriorValue, Decoded, Wf;
    var ps := pool.pager.pageSize;
    ghost var p := Decoded(ps, pool.view);
    ghost var good := root in p && (p[root].Leaf? || p[root].Interior?);
    DecodedKeys(ps, pool.view);
    var buf :- pool.Get(root);
    if good {
      BufferIsPage(ps, pool.view, root, buf);
      PageTypes(ps, buf);
    }
    if buf[0] != TYPE_INTERIOR {
      return Ok(root);
    }
    if good {
      InteriorShape(buf);
    }
    var n :- NumCells(buf);
    if n == 0 {
      r := InteriorRightmost(buf);
      return;
    }
    return Ok(root);
  }

  /** In a tree an interior page always has a separator: the collapse on delete
      never applies. */
  lemma RootHasSeparator(ps: PageSize, p: PageMap, root: nat, h: nat)
    requires TreeOk(ps, p, root, KEY_MIN, KEY_END, h)
    ensures root in p && (p[root].Leaf? || p[root].Interior?)
    ensures p[root].Interior? ==> |p[root].keys| >= 1
    ensures Collapsed(p[root], root) == root
  {
    if p[root].Interior? {
      var keys, children := p[root].keys, p[root].children;
      assert NodeOk(ps, p, keys, children, KEY_MIN, KEY_END, h - 1, root);
    }
  }
}
