/** Copying a path: what replacing or splitting a child does to a node, where a
    key's leaf sits among the rows of the whole tree, and rows as a map. */
module TreeOps {
  import opened Codec
  import opened Page
  import opened Slotted
  import opened PageModel
  import opened Nodes
  import opened Pool
  import opened Tree

  /** `NodeResult`: what became of a child on the copied path. */
  datatype NodeResult = Replaced(id: u32) | Split(left: u32, right: u32, separator: i64)

  /** The result holds rows `es` in place of a child that covered `[lo, hi)`. */
  predicate ResultOk(ps: PageSize, p: PageMap, r: NodeResult, lo: int, hi: int, h: nat, es: seq<Entry>) {
    match r
    case Replaced(id) => TreeOk(ps, p, id, lo, hi, h) && Contents(ps, p, id, h) == es
    case Split(left, right, separator) =>
      && left != right && lo <= separator <= hi
      && TreeOk(ps, p, left, lo, separator, h) && TreeOk(ps, p, right, separator, hi, h)
      && Contents(ps, p, left, h) + Contents(ps, p, right, h) == es
  }

  predicate FreshResult(r: NodeResult, base: nat, next: nat) {
    match r
    case Replaced(id) => base <= id < next
    case Split(left, right, _) => base <= left < next && base <= right < next
  }

  /** The result's pages, and only they, took the ids from `base` on. */
  predicate Newest(r: NodeResult, base: nat, next: nat) {
    match r
    case Replaced(id) => id == base && next == base + 1
    case Split(left, right, _) => left == base && right == base + 1 && next == base + 2
  }

  lemma ResultExtends(ps: PageSize, p: PageMap, q: PageMap, r: NodeResult, lo: int, hi: int, h: nat, es: seq<Entry>)
    requires Extends(p, q) && ResultOk(ps, p, r, lo, hi, h, es)
    ensures ResultOk(ps, q, r, lo, hi, h, es)
  {
    hide TreeOk, Contents;
    match r
    case Replaced(id) => TreeExtends(ps, p, q, id, lo, hi, h);
    case Split(left, right, separator) =>
      TreeExtends(ps, p, q, left, lo, separator, h);
      TreeExtends(ps, p, q, right, separator, hi, h);
  }

  // ------------------------------------------------------------------
  // Results that cannot become trees.
  // ------------------------------------------------------------------

  ghost predicate IsTree(ps: PageSize, p: PageMap, id: nat) {
    exists lo, hi, h: nat :: TreeOk(ps, p, id, lo, hi, h)
  }

  function ResultIds(r: NodeResult): seq<nat> {
    match r
    case Replaced(id) => [id]
    case Split(left, right, _) => [left, right]
  }

  /** Some page of the result is no tree, whatever pages are added. */
  ghost predicate Spoiled(ps: PageSize, p: PageMap, r: NodeResult) {
    forall q | Extends(p, q) :: exists id | id in ResultIds(r) :: !IsTree(ps, q, id)
  }

  /** One of the two pages is neither a leaf nor an interior page. */
  predicate Broken(p: PageMap, r: NodeResult) {
    r.Split? && (NoNode(p, r.left) || NoNode(p, r.right))
  }

  predicate NoNode(p: PageMap, id: nat) {
    id in p && !p[id].Leaf? && !p[id].Interior?
  }

  lemma BrokenSpoils(ps: PageSize, p: PageMap, r: NodeResult)
    requires Broken(p, r)
    ensures Spoiled(ps, p, r)
  {
    hide IsTree;
    var id := if NoNode(p, r.left) then r.left else r.right;
    forall q | Extends(p, q)
      ensures id in ResultIds(r) && !IsTree(ps, q, id)
    {
      NoNodeNoTree(ps, q, id);
    }
  }

  lemma NoNodeNoTree(ps: PageSize, p: PageMap, id: nat)
    requires NoNode(p, id)
    ensures !IsTree(ps, p, id)
  {
    hide NodeOk, LeafOk;
  }

  lemma ChildIsTree(ps: PageSize, q: PageMap, id: nat, child: nat)
    requires IsTree(ps, q, id) && IsChild(q, id, child)
    ensures IsTree(ps, q, child)
  {
    hide TreeOk;
    var lo, hi, h: nat :| TreeOk(ps, q, id, lo, hi, h);
    var keys, children := q[id].keys, q[id].children;
    InteriorTree(ps, q, id, lo, hi, h);
    var i :| 0 <= i < |children| && children[i] == child;
    ChildOk(ps, q, keys, children, lo, hi, h - 1, id, i);
  }

  predicate IsChild(p: PageMap, id: nat, child: nat) {
    id in p && p[id].Interior? && child in p[id].children
  }

  /** A node over a spoiled result is spoiled too. */
  lemma SpoilsUp(ps: PageSize, p: PageMap, q: PageMap, r: NodeResult, r': NodeResult)
    requires Extends(p, q) && Spoiled(ps, p, r)
    requires forall x | x in ResultIds(r) :: exists y | y in ResultIds(r') :: IsChild(q, y, x)
    ensures Spoiled(ps, q, r')
  {
    hide IsTree, ResultIds, Extends;
    forall t | Extends(q, t)
      ensures exists id | id in ResultIds(r') :: !IsTree(ps, t, id)
    {
      ExtendsChains(p, q, t);
      var x :| x in ResultIds(r) && !IsTree(ps, t, x);
      var y :| y in ResultIds(r') && IsChild(q, y, x);
      ChildStays(q, t, y, x);
      if IsTree(ps, t, y) {
        ChildIsTree(ps, t, y, x);
      }
    }
  }

  lemma ChildStays(q: PageMap, t: PageMap, id: nat, child: nat)
    requires Extends(q, t) && IsChild(q, id, child)
    ensures IsChild(t, id, child)
  {
  }

  lemma ExtendsChains(p: PageMap, q: PageMap, t: PageMap)
    requires Extends(p, q) && Extends(q, t)
    ensures Extends(p, t)
  {
  }

  lemma InteriorTree(ps: PageSize, q: PageMap, id: nat, lo: int, hi: int, h: nat)
    requires TreeOk(ps, q, id, lo, hi, h) && id in q && q[id].Interior?
    ensures h > 0 && NodeOk(ps, q, q[id].keys, q[id].children, lo, hi, h - 1, id)
  {
    hide NodeOk;
  }

  // ------------------------------------------------------------------
  // Replacing and splitting a child.
  // ------------------------------------------------------------------

  lemma FlatSplit(ps: PageSize, p: PageMap, a: seq<nat>, mid: seq<nat>, b: seq<nat>, h: nat)
    ensures Flat(ps, p, a + mid + b, h) == Flat(ps, p, a, h) + Flat(ps, p, mid, h) + Flat(ps, p, b, h)
  {
    FlatConcat(ps, p, a + mid, b, h);
    FlatConcat(ps, p, a, mid, h);
  }

  lemma FlatOne(ps: PageSize, p: PageMap, id: nat, h: nat)
    ensures Flat(ps, p, [id], h) == Contents(ps, p, id, h)
  {
    assert [id][..0] == [];
  }

  lemma FlatTwo(ps: PageSize, p: PageMap, a: nat, b: nat, h: nat)
    ensures Flat(ps, p, [a, b], h) == Contents(ps, p, a, h) + Contents(ps, p, b, h)
  {
    assert [a, b] == [a] + [b];
    FlatConcat(ps, p, [a], [b], h);
    FlatOne(ps, p, a, h);
    FlatOne(ps, p, b, h);
  }

  /** Repointing one child to a copy keeps the node a search tree. */
  lemma ReplaceChild(ps: PageSize, q: PageMap, keys: seq<i64>, children: seq<nat>, lo: int, hi: int, h: nat,
                     bound: nat, i: nat, id: nat, bound': nat)
    requires NodeOk(ps, q, keys, children, lo, hi, h, bound) && i < |children|
    requires TreeOk(ps, q, id, Lower(keys, lo, i), Upper(keys, hi, i), h)
    requires bound <= id < bound'
    ensures NodeOk(ps, q, keys, children[i := id], lo, hi, h, bound')
    ensures Flat(ps, q, children[i := id], h)
         == Flat(ps, q, children[..i], h) + Contents(ps, q, id, h) + Flat(ps, q, children[i + 1..], h)
  {
    hide TreeOk, Contents, Separators;
    assert children[i := id] == children[..i] + [id] + children[i + 1..];
    FlatSplit(ps, q, children[..i], [id], children[i + 1..], h);
    FlatOne(ps, q, id, h);
    hide Flat;
  }

  function SplicedChildren(children: seq<nat>, i: nat, left: nat, right: nat): (r: seq<nat>)
    requires i < |children|
    ensures |r| == |children| + 1
  {
    children[..i] + [left, right] + children[i + 1..]
  }

  lemma SplicedSeparators(keys: seq<i64>, lo: int, hi: int, i: nat, separator: i64)
    requires i <= |keys| && Separators(keys, lo, hi)
    requires Lower(keys, lo, i) <= separator <= Upper(keys, hi, i) && lo <= hi
    ensures Separators(SeqInsert(keys, i, separator), lo, hi)
  {
    var ks := SeqInsert(keys, i, separator);
    forall j | 0 <= j < |ks|
      ensures lo <= ks[j] <= hi
    {
      assert ks[j] == if j < i then keys[j] else if j == i then separator else keys[j - 1];
    }
    forall j, k | 0 <= j < k < |ks|
      ensures ks[j] <= ks[k]
    {
      assert ks[j] == if j < i then keys[j] else if j == i then separator else keys[j - 1];
      assert ks[k] == if k < i then keys[k] else if k == i then separator else keys[k - 1];
    }
  }

  lemma SplicedDistinct(children: seq<nat>, i: nat, left: nat, right: nat, bound: nat)
    requires i < |children| && Distinct(children)
    requires forall j | 0 <= j < |children| :: children[j] < bound
    requires bound <= left && bound <= right && left != right
    ensures Distinct(SplicedChildren(children, i, left, right))
  {
    var cs := SplicedChildren(children, i, left, right);
    forall j, k | 0 <= j < k < |cs|
      ensures cs[j] != cs[k]
    {
      assert cs[j] == if j < i then children[j] else if j == i then left else if j == i + 1 then right else children[j - 1];
      assert cs[k] == if k < i then children[k] else if k == i then left else if k == i + 1 then right else children[k - 1];
    }
  }

  lemma SplicedSubtree(ps: PageSize, q: PageMap, keys: seq<i64>, children: seq<nat>, lo: int, hi: int, h: nat,
                       bound: nat, i: nat, left: nat, right: nat, separator: i64, j: nat)
    requires NodeOk(ps, q, keys, children, lo, hi, h, bound) && i < |children| && j <= |children|
    requires TreeOk(ps, q, left, Lower(keys, lo, i), separator, h)
    requires TreeOk(ps, q, right, separator, Upper(keys, hi, i), h)
    ensures var ks := SeqInsert(keys, i, separator);
      TreeOk(ps, q, SplicedChildren(children, i, left, right)[j], Lower(ks, lo, j), Upper(ks, hi, j), h)
  {
    hide TreeOk, Separators, Distinct;
    var ks, cs := SeqInsert(keys, i, separator), SplicedChildren(children, i, left, right);
    if j < i {
      assert cs[j] == children[j];
    } else if j > i + 1 {
      assert cs[j] == children[j - 1];
      assert Lower(ks, lo, j) == Lower(keys, lo, j - 1) && Upper(ks, hi, j) == Upper(keys, hi, j - 1);
    }
  }

  /** Splicing a split child in keeps the node a search tree. */
  lemma SplitChild(ps: PageSize, q: PageMap, keys: seq<i64>, children: seq<nat>, lo: int, hi: int, h: nat,
                   bound: nat, i: nat, left: nat, right: nat, separator: i64, bound': nat)
    requires NodeOk(ps, q, keys, children, lo, hi, h, bound) && i < |children|
    requires Lower(keys, lo, i) <= separator <= Upper(keys, hi, i)
    requires TreeOk(ps, q, left, Lower(keys, lo, i), separator, h)
    requires TreeOk(ps, q, right, separator, Upper(keys, hi, i), h)
    requires bound <= left < bound' && bound <= right < bound' && left != right
    ensures NodeOk(ps, q, SeqInsert(keys, i, separator), SplicedChildren(children, i, left, right), lo, hi, h, bound')
    ensures Flat(ps, q, SplicedChildren(children, i, left, right), h)
         == Flat(ps, q, children[..i], h) + (Contents(ps, q, left, h) + Contents(ps, q, right, h))
          + Flat(ps, q, children[i + 1..], h)
  {
    hide TreeOk, Contents, Separators, Distinct;
    FlatSplit(ps, q, children[..i], [left, right], children[i + 1..], h);
    FlatTwo(ps, q, left, right, h);
    hide Flat;
    SplicedSeparators(keys, lo, hi, i, separator);
    SplicedDistinct(children, i, left, right, bound);
    var ks, cs := SeqInsert(keys, i, separator), SplicedChildren(children, i, left, right);
    forall j | 0 <= j < |cs|
      ensures TreeOk(ps, q, cs[j], Lower(ks, lo, j), Upper(ks, hi, j), h)
    {
      SplicedSubtree(ps, q, keys, children, lo, hi, h, bound, i, left, right, separator, j);
    }
  }

  lemma HalvedSeparators(keys: seq<i64>, lo: int, hi: int, mid: nat)
    requires Separators(keys, lo, hi) && mid < |keys|
    ensures Separators(keys[..mid], lo, keys[mid]) && Separators(keys[mid + 1..], keys[mid], hi)
    ensures lo <= keys[mid] <= hi
  {
  }

  lemma HalvedDistinct(ids: seq<nat>, mid: nat)
    requires Distinct(ids) && mid <= |ids|
    ensures Distinct(ids[..mid]) && Distinct(ids[mid..])
  {
  }

  /** Halving a node around a promoted separator gives two nodes that together
      hold the same children in the same order. */
  lemma HalveNode(ps: PageSize, q: PageMap, keys: seq<i64>, children: seq<nat>, lo: int, hi: int, h: nat,
                  bound: nat, mid: nat)
    requires NodeOk(ps, q, keys, children, lo, hi, h, bound) && 1 <= mid < |keys| - 1
    ensures NodeOk(ps, q, keys[..mid], children[..mid + 1], lo, keys[mid], h, bound)
    ensures NodeOk(ps, q, keys[mid + 1..], children[mid + 1..], keys[mid], hi, h, bound)
    ensures Flat(ps, q, children[..mid + 1], h) + Flat(ps, q, children[mid + 1..], h) == Flat(ps, q, children, h)
    ensures lo <= keys[mid] <= hi
  {
    hide TreeOk, Contents, Flat, Separators, Distinct;
    assert children == children[..mid + 1] + children[mid + 1..];
    FlatConcat(ps, q, children[..mid + 1], children[mid + 1..], h);
    HalvedSeparators(keys, lo, hi, mid);
    HalvedDistinct(children, mid + 1);
    var lk, lc, rk, rc := keys[..mid], children[..mid + 1], keys[mid + 1..], children[mid + 1..];
    forall j | 0 <= j < |lc|
      ensures TreeOk(ps, q, lc[j], Lower(lk, lo, j), Upper(lk, keys[mid], j), h)
    {
      assert lc[j] == children[j];
      assert Upper(lk, keys[mid], j) == Upper(keys, hi, j) && Lower(lk, lo, j) == Lower(keys, lo, j);
    }
    forall j | 0 <= j < |rc|
      ensures TreeOk(ps, q, rc[j], Lower(rk, keys[mid], j), Upper(rk, hi, j), h)
    {
      assert rc[j] == children[mid + 1 + j];
      assert Lower(rk, keys[mid], j) == Lower(keys, lo, mid + 1 + j);
      assert Upper(rk, hi, j) == Upper(keys, hi, mid + 1 + j);
    }
  }

  // ------------------------------------------------------------------
  // The way down to a key's leaf.
  // ------------------------------------------------------------------

  lemma RouteInRange(keys: seq<i64>, lo: int, hi: int, key: i64)
    requires lo <= key < hi
    ensures Lower(keys, lo, Route(keys, key)) <= key < Upper(keys, hi, Route(keys, key))
  {
  }

  /** The rows before, and after, the leaf that `key` is routed to. */
  function Before(ps: PageSize, p: PageMap, id: nat, h: nat, key: i64): seq<Entry>
    decreases h
  {
    if id in p && p[id].Interior? && h > 0 && Route(p[id].keys, key) < |p[id].children|
    then
      var i := Route(p[id].keys, key);
      Flat(ps, p, p[id].children[..i], h - 1) + Before(ps, p, p[id].children[i], h - 1, key)
    else []
  }

  function After(ps: PageSize, p: PageMap, id: nat, h: nat, key: i64): seq<Entry>
    decreases h
  {
    if id in p && p[id].Interior? && h > 0 && Route(p[id].keys, key) < |p[id].children|
    then
      var i := Route(p[id].keys, key);
      After(ps, p, p[id].children[i], h - 1, key) + Flat(ps, p, p[id].children[i + 1..], h - 1)
    else []
  }

  function LeafFor(p: PageMap, id: nat, h: nat, key: i64): nat
    decreases h
  {
    if id in p && p[id].Interior? && h > 0 && Route(p[id].keys, key) < |p[id].children|
    then LeafFor(p, p[id].children[Route(p[id].keys, key)], h - 1, key)
    else id
  }

  lemma {:induction false} FlatBelow(ps: PageSize, p: PageMap, keys: seq<i64>, children: seq<nat>,
                                     lo: int, hi: int, h: nat, bound: nat, i: nat, key: int)
    requires NodeOk(ps, p, keys, children, lo, hi, h, bound) && i < |children|
    requires i == 0 || keys[i - 1] <= key
    ensures forall e | e in Flat(ps, p, children[..i], h) :: e.key < key
  {
    hide NodeOk, TreeOk;
    if i > 0 {
      NodeCounts(ps, p, keys, children, lo, hi, h, bound);
      FlatAscending(ps, p, keys, children, lo, hi, h, bound, i - 1);
    }
  }

  lemma NodeCounts(ps: PageSize, p: PageMap, keys: seq<i64>, children: seq<nat>, lo: int, hi: int, h: nat, bound: nat)
    requires NodeOk(ps, p, keys, children, lo, hi, h, bound)
    ensures |children| == |keys| + 1
  {
  }

  lemma {:induction false} FlatAbove(ps: PageSize, p: PageMap, keys: seq<i64>, children: seq<nat>,
                                     lo: int, hi: int, h: nat, bound: nat, i: nat, n: nat)
    requires NodeOk(ps, p, keys, children, lo, hi, h, bound) && 0 < i && i + n <= |children|
    ensures forall e | e in Flat(ps, p, children[i..i + n], h) :: keys[i - 1] <= e.key
    decreases n
  {
    hide TreeOk, Contents;
    if n > 0 {
      var j := i + n - 1;
      FlatAbove(ps, p, keys, children, lo, hi, h, bound, i, n - 1);
      assert children[i..i + n][..n - 1] == children[i..j];
      TreeAscending(ps, p, children[j], Lower(keys, lo, j), Upper(keys, hi, j), h);
    }
  }

  lemma ChildOk(ps: PageSize, p: PageMap, keys: seq<i64>, children: seq<nat>, lo: int, hi: int, h: nat, bound: nat,
                i: nat)
    requires NodeOk(ps, p, keys, children, lo, hi, h, bound) && i < |children|
    ensures |children| == |keys| + 1
    ensures TreeOk(ps, p, children[i], Lower(keys, lo, i), Upper(keys, hi, i), h) && children[i] < bound
  {
    hide TreeOk;
  }

  lemma AroundChild(ps: PageSize, p: PageMap, keys: seq<i64>, children: seq<nat>, lo: int, hi: int, h: nat, bound: nat,
                    i: nat, key: i64)
    requires NodeOk(ps, p, keys, children, lo, hi, h, bound) && i == Route(keys, key)
    ensures i < |children|
    ensures Flat(ps, p, children, h)
         == Flat(ps, p, children[..i], h) + Contents(ps, p, children[i], h) + Flat(ps, p, children[i + 1..], h)
    ensures AllBelow(Flat(ps, p, children[..i], h), key) && AllAbove(Flat(ps, p, children[i + 1..], h), key)
  {
    hide TreeOk, Contents, NodeOk, Flat;
    NodeCounts(ps, p, keys, children, lo, hi, h, bound);
    assert children == children[..i] + [children[i]] + children[i + 1..];
    FlatSplit(ps, p, children[..i], [children[i]], children[i + 1..], h);
    FlatOne(ps, p, children[i], h);
    FlatBelow(ps, p, keys, children, lo, hi, h, bound, i, key);
    if i < |keys| {
      FlatAbove(ps, p, keys, children, lo, hi, h, bound, i + 1, |children| - i - 1);
      assert children[i + 1..] == children[i + 1..i + 1 + (|children| - i - 1)];
    } else {
      assert children[i + 1..] == [];
      FlatNone(ps, p, h);
    }
  }

  lemma FlatNone(ps: PageSize, p: PageMap, h: nat)
    ensures Flat(ps, p, [], h) == []
  {
  }

  predicate AllBelow(es: seq<Entry>, key: int) {
    forall e | e in es :: e.key < key
  }

  predicate AllAbove(es: seq<Entry>, key: int) {
    forall e | e in es :: key < e.key
  }

  lemma Joined(a: seq<Entry>, b: seq<Entry>, key: int)
    ensures AllBelow(a, key) && AllBelow(b, key) ==> AllBelow(a + b, key)
    ensures AllAbove(a, key) && AllAbove(b, key) ==> AllAbove(a + b, key)
  {
  }

  lemma Regroup<T>(f: seq<T>, b: seq<T>, l: seq<T>, a: seq<T>, g: seq<T>)
    ensures f + (b + l + a) + g == (f + b) + l + (a + g)
  {
  }

  /** The leaf sits between rows with smaller and rows with larger keys. */
  lemma {:induction false} AroundLeaf(ps: PageSize, p: PageMap, id: nat, lo: int, hi: int, h: nat, key: i64)
    requires TreeOk(ps, p, id, lo, hi, h) && lo <= key < hi
    ensures var leaf := LeafFor(p, id, h, key); leaf in p && p[leaf].Leaf?
    ensures Contents(ps, p, id, h)
         == Before(ps, p, id, h, key) + LeafEntries(ps, p, p[LeafFor(p, id, h, key)].cells) + After(ps, p, id, h, key)
    ensures AllBelow(Before(ps, p, id, h, key), key) && AllAbove(After(ps, p, id, h, key), key)
    decreases h
  {
    hide NodeOk, LeafOk, Flat, Separators, AllBelow, AllAbove, LeafEntries;
    if h > 0 {
      var keys, children := p[id].keys, p[id].children;
      var i := Route(keys, key);
      NodeCounts(ps, p, keys, children, lo, hi, h - 1, id);
      ChildOk(ps, p, keys, children, lo, hi, h - 1, id, i);
      RouteInRange(keys, lo, hi, key);
      var c := children[i];
      AroundLeaf(ps, p, c, Lower(keys, lo, i), Upper(keys, hi, i), h - 1, key);
      AroundChild(ps, p, keys, children, lo, hi, h - 1, id, i, key);
      var b, a := Before(ps, p, c, h - 1, key), After(ps, p, c, h - 1, key);
      var f, g := Flat(ps, p, children[..i], h - 1), Flat(ps, p, children[i + 1..], h - 1);
      Regroup(f, b, LeafEntries(ps, p, p[LeafFor(p, c, h - 1, key)].cells), a, g);
      Joined(f, b, key);
      Joined(a, g, key);
    } else {
      NothingAround(key);
    }
  }

  lemma NothingAround(key: int)
    ensures AllBelow([], key) && AllAbove([], key)
  {
  }

  lemma {:induction false} LeafForExtends(ps: PageSize, p: PageMap, q: PageMap, id: nat, lo: int, hi: int, h: nat, key: i64)
    requires TreeOk(ps, p, id, lo, hi, h) && Extends(p, q)
    ensures LeafFor(q, id, h, key) == LeafFor(p, id, h, key)
    ensures LeafFor(p, id, h, key) in p
    decreases h
  {
    hide NodeOk, LeafOk;
    if h > 0 {
      var keys, children := p[id].keys, p[id].children;
      NodeCounts(ps, p, keys, children, lo, hi, h - 1, id);
      var i := Route(keys, key);
      ChildOk(ps, p, keys, children, lo, hi, h - 1, id, i);
      LeafForExtends(ps, p, q, children[i], Lower(keys, lo, i), Upper(keys, hi, i), h - 1, key);
    }
  }
}
