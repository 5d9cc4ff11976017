/** Page references only ever go to smaller page ids, so the page graph below a
    root has no cycle: descent, scan and chain reads end (`btree/mod.rs`,
    `btree/overflow.rs`). */
module Walks {
  import opened Page
  import opened PageModel
  import opened Tree

  /** A page a reader can be at: a tree page, or a chain page with bytes to go. */
  datatype Place = Node(page: nat, h: nat) | Link(page: nat, need: nat)

  /** The reader's next page: a child, a cell's overflow chain, the next link. */
  predicate Follows(ps: PageSize, p: PageMap, from: Place, to: Place) {
    && from.page in p
    && match from
       case Node(id, h) =>
         (match p[id]
          case Interior(_, children) => h > 0 && to.Node? && to.h == h - 1 && to.page in children
          case Leaf(cells) =>
            exists i ::
              && 0 <= i < |cells| && cells[i].overflow != 0 && cells[i].payloadLen > MaxLocal(ps)
              && to == Link(cells[i].overflow, cells[i].payloadLen - MaxLocal(ps))
          case _ => false)
       case Link(id, need) =>
         p[id].Overflow? && need > ChunkCap(ps) && to == Link(p[id].next, need - ChunkCap(ps))
  }

  ghost predicate Sure(ps: PageSize, p: PageMap, at: Place) {
    match at
    case Node(id, h) => exists lo, hi :: TreeOk(ps, p, id, lo, hi, h)
    case Link(id, need) => need > 0 && ChainOk(ps, p, id, need)
  }

  lemma ChildStep(ps: PageSize, p: PageMap, id: nat, lo: int, hi: int, h: nat, child: nat)
    requires TreeOk(ps, p, id, lo, hi, h) && p[id].Interior? && child in p[id].children
    ensures h > 0 && child < id && Sure(ps, p, Node(child, h - 1))
  {
    hide Separators, Distinct, LeafOk;
    var keys, children := p[id].keys, p[id].children;
    assert NodeOk(ps, p, keys, children, lo, hi, h - 1, id);
    var i :| 0 <= i < |children| && children[i] == child;
    assert TreeOk(ps, p, child, Lower(keys, lo, i), Upper(keys, hi, i), h - 1);
  }

  lemma CellStep(ps: PageSize, p: PageMap, id: nat, lo: int, hi: int, h: nat, i: nat)
    requires TreeOk(ps, p, id, lo, hi, h) && p[id].Leaf? && i < |p[id].cells| && p[id].cells[i].overflow != 0
    requires p[id].cells[i].payloadLen > MaxLocal(ps)
    ensures p[id].cells[i].overflow < id
    ensures ChainOk(ps, p, p[id].cells[i].overflow, p[id].cells[i].payloadLen - MaxLocal(ps))
  {
    hide NodeOk, ChainOk;
    assert CellOk(ps, p, p[id].cells[i], id);
  }

  lemma StepDescends(ps: PageSize, p: PageMap, from: Place, to: Place)
    requires Sure(ps, p, from) && Follows(ps, p, from, to)
    ensures Sure(ps, p, to) && to.page < from.page
  {
    hide TreeOk;
    match from {
      case Node(id, h) =>
        var lo, hi :| TreeOk(ps, p, id, lo, hi, h);
        if p[id].Interior? {
          ChildStep(ps, p, id, lo, hi, h, to.page);
        } else {
          var cells := p[id].cells;
          var i :| 0 <= i < |cells| && cells[i].overflow != 0 && cells[i].payloadLen > MaxLocal(ps)
            && to == Link(cells[i].overflow, cells[i].payloadLen - MaxLocal(ps));
          CellStep(ps, p, id, lo, hi, h, i);
        }
      case Link(id, need) =>
    }
  }

  ghost predicate IsWalk(ps: PageSize, p: PageMap, walk: seq<Place>) {
    forall i, j | 0 <= i < |walk| && j == i + 1 && j < |walk| :: Follows(ps, p, walk[i], walk[j])
  }

  /** Along any walk from the root of a tree the page ids strictly decrease: no
      page is met twice, and every page met is there. */
  lemma {:induction false} WalkDescends(ps: PageSize, p: PageMap, root: nat, lo: int, hi: int, h: nat,
                                        walk: seq<Place>, n: nat)
    requires TreeOk(ps, p, root, lo, hi, h) && IsWalk(ps, p, walk) && n < |walk| && walk[0] == Node(root, h)
    ensures Sure(ps, p, walk[n]) && walk[n].page in p
    ensures forall i | 0 <= i < n :: walk[n].page < walk[i].page
  {
    hide Follows, TreeOk;
    if n > 0 {
      WalkDescends(ps, p, root, lo, hi, h, walk, n - 1);
      StepDescends(ps, p, walk[n - 1], walk[n]);
    }
    SureIsThere(ps, p, walk[n]);
  }

  lemma SureIsThere(ps: PageSize, p: PageMap, at: Place)
    requires Sure(ps, p, at)
    ensures at.page in p
  {
    hide NodeOk, LeafOk;
  }
}
