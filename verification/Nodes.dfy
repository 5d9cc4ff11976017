/** Searching, editing and building leaf and interior pages
    (`btree/layout.rs`, and the page builders of `btree/mutate.rs`). */
module Nodes {
  import opened Errors
  import opened Codec
  import opened Page
  import opened Slotted
  import opened PageModel

  // ------------------------------------------------------------------
  // Searching a leaf.
  // ------------------------------------------------------------------

  datatype Search = Found(index: nat) | Missing(index: nat)

  predicate SortedCells(cells: seq<Cell>) {
    forall i, j | 0 <= i < j < |cells| :: cells[i].key < cells[j].key
  }

  /** Where `key` is, or where it would keep the cells sorted. */
  predicate SearchIs(cells: seq<Cell>, key: i64, found: Search) {
    match found
    case Found(i) => i < |cells| && cells[i].key == key
    case Missing(i) =>
      && i <= |cells|
      && (forall j | 0 <= j < i :: cells[j].key < key)
      && (forall j | i <= j < |cells| :: key < cells[j].key)
  }

  method LeafSearch(buf: Bytes, key: i64, ghost ps: PageSize) returns (r: Result<Search>)
    ensures IsLeaf(ps, buf) && SortedCells(LeafValue(ps, buf).cells)
            ==> r.Ok? && SearchIs(LeafValue(ps, buf).cells, key, r.value)
  {
    hide Wf, Cells, DecodeCells, LeafKeyAt;
    ghost var cells := if IsLeaf(ps, buf) then LeafValue(ps, buf).cells else [];
    ghost var good := IsLeaf(ps, buf) && SortedCells(cells);
    var n :- NumCells(buf);
    var lo: nat, hi: nat := 0, n;
    while lo < hi
      invariant lo <= hi <= n
      invariant good ==> |cells| == n
      invariant good ==> forall j | 0 <= j < lo :: cells[j].key < key
      invariant good ==> forall j | hi <= j < n :: key < cells[j].key
    {
      var mid := lo + (hi - lo) / 2;
      if good {
        LeafReaders(ps, buf, mid);
        assert LeafKeyAt(buf, mid) == Ok(cells[mid].key);
      }
      var midKey :- LeafKeyAt(buf, mid);
      if midKey == key {
        return Ok(Found(mid));
      } else if midKey < key {
        lo := mid + 1;
      } else {
        hi := mid;
      }
    }
    return Ok(Missing(lo));
  }

  // ------------------------------------------------------------------
  // Routing through an interior page.
  // ------------------------------------------------------------------

  /** The child slot `key` belongs to: the first separator above it, or last. */
  function Route(keys: seq<i64>, key: i64): (i: nat)
    ensures i <= |keys|
    ensures forall j | 0 <= j < i :: keys[j] <= key
    ensures i < |keys| ==> key < keys[i]
  {
    if |keys| == 0 || key < keys[0] then 0 else 1 + Route(keys[1..], key)
  }

  lemma RouteIs(keys: seq<i64>, key: i64, i: nat)
    requires i <= |keys| && forall j | 0 <= j < i :: keys[j] <= key
    requires i < |keys| ==> key < keys[i]
    ensures Route(keys, key) == i
  {
  }

  /** An interior page has one child more than it has keys. */
  lemma InteriorShape(s: Bytes)
    requires Wf(InteriorKind, s)
    ensures |s| >= 17 && InteriorValue(s).Interior? && NumCells(s) == Ok(|InteriorValue(s).keys|)
    ensures Count(s) == |InteriorValue(s).keys| && |InteriorValue(s).children| == |InteriorValue(s).keys| + 1
    ensures InteriorRightmost(s) == Ok(InteriorValue(s).children[|InteriorValue(s).keys|])
  {
    hide Spans, Cells;
  }

  method InteriorFindChildForKey(buf: Bytes, key: i64) returns (r: Result<nat>)
    ensures Wf(InteriorKind, buf)
            ==> r == Ok(InteriorValue(buf).children[Route(InteriorValue(buf).keys, key)])
  {
    hide Wf, Cells, NumCells, InteriorKeyAt, InteriorChildAt, InteriorRightmost, InteriorValue, Route;
    ghost var good := Wf(InteriorKind, buf);
    if good {
      InteriorShape(buf);
    }
    ghost var keys := if good then InteriorValue(buf).keys else [];
    var n :- NumCells(buf);
    for i := 0 to n
      invariant good ==> |keys| == n
      invariant forall j | 0 <= j < i && j < |keys| :: keys[j] <= key
    {
      if good {
        InteriorReaders(buf, i);
      }
      var k :- InteriorKeyAt(buf, i);
      if key < k {
        if good {
          RouteIs(keys, key, i);
        }
        r := InteriorChildAt(buf, i);
        return;
      }
    }
    if good {
      RouteIs(keys, key, n);
    }
    r := InteriorRightmost(buf);
  }

  datatype ChildSlot = CellSlot(index: nat) | Rightmost

  /** The first cell referring to `childId`, or the rightmost child. */
  predicate SlotIs(children: seq<nat>, childId: nat, slot: ChildSlot)
    requires |children| > 0
  {
    match slot
    case CellSlot(at) =>
      at < |children| - 1 && children[at] == childId && forall j | 0 <= j < at :: children[j] != childId
    case Rightmost =>
      forall j | 0 <= j < |children| - 1 :: children[j] != childId
  }

  method InteriorFindChildSlot(buf: Bytes, childId: nat) returns (r: Result<ChildSlot>)
    ensures Wf(InteriorKind, buf) ==> r.Ok? && SlotIs(InteriorValue(buf).children, childId, r.value)
  {
    var n :- NumCells(buf);
    for i := 0 to n
      invariant Wf(InteriorKind, buf) ==> n == |InteriorValue(buf).keys|
      invariant Wf(InteriorKind, buf) ==> forall j | 0 <= j < i :: InteriorValue(buf).children[j] != childId
    {
      if Wf(InteriorKind, buf) {
        InteriorReaders(buf, i);
      }
      var c :- InteriorChildAt(buf, i);
      if c == childId {
        return Ok(CellSlot(i));
      }
    }
    return Ok(Rightmost);
  }

  method InteriorEntries(buf: Bytes) returns (r: Result<(seq<i64>, seq<nat>)>)
    ensures Wf(InteriorKind, buf) ==> r == Ok((InteriorValue(buf).keys, InteriorValue(buf).children))
  {
    var n :- NumCells(buf);
    var keys: seq<i64> := [];
    var children: seq<nat> := [];
    for i := 0 to n
      invariant Wf(InteriorKind, buf) ==> n == |InteriorValue(buf).keys|
      invariant Wf(InteriorKind, buf) ==> keys == InteriorValue(buf).keys[..i]
      invariant Wf(InteriorKind, buf) ==> children == InteriorValue(buf).children[..i]
    {
      if Wf(InteriorKind, buf) {
        InteriorReaders(buf, i);
      }
      var k :- InteriorKeyAt(buf, i);
      var c :- InteriorChildAt(buf, i);
      keys := keys + [k];
      children := children + [c];
    }
    var last :- InteriorRightmost(buf);
    if Wf(InteriorKind, buf) {
      assert InteriorValue(buf).keys == InteriorValue(buf).keys[..n];
      assert InteriorValue(buf).children == InteriorValue(buf).children[..n] + [last];
    }
    return Ok((keys, children + [last]));
  }

  // ------------------------------------------------------------------
  // Repointing a child in place.
  // ------------------------------------------------------------------

  function ChildSet(s: Bytes, index: nat, child: nat): Result<Bytes>
    requires child <= U32_MAX
  {
    var offset :- PointerAt(s, INTERIOR_HEADER_LEN, index);
    Written(s, offset + 8, ToBE(child, 4))
  }

  method InteriorSetChildAt(buf: array<byte>, index: nat, child: nat) returns (r: Result<Unit>)
    requires child <= U32_MAX
    modifies buf
    ensures match ChildSet(old(buf[..]), index, child)
            case Ok(after) => r.Ok? && buf[..] == after
            case Err(e) => r == Err(e)
  {
    var offset :- PointerAt(buf[..], INTERIOR_HEADER_LEN, index);
    r := WriteBytes(buf, offset + 8, ToBE(child, 4));
  }

  method InteriorSetRightmost(buf: array<byte>, child: nat) returns (r: Result<Unit>)
    requires child <= U32_MAX
    modifies buf
    ensures match Written(old(buf[..]), 5, ToBE(child, 4))
            case Ok(after) => r.Ok? && buf[..] == after
            case Err(e) => r == Err(e)
  {
    r := WriteBytes(buf, 5, ToBE(child, 4));
  }

  /** Interior cells have a fixed length, so well-formedness is a matter of
      header and pointers. */
  lemma InteriorWfFollowsHeader(s: Bytes, t: Bytes)
    requires Wf(InteriorKind, s) && |t| == |s|
    requires Count(t) == Count(s) && Start(t) == Start(s)
    requires Offsets(INTERIOR_HEADER_LEN, t) == Offsets(INTERIOR_HEADER_LEN, s)
    ensures Wf(InteriorKind, t)
  {
    var offs := Offsets(INTERIOR_HEADER_LEN, s);
    assert forall i | 0 <= i < |offs| :: CellIn(InteriorKind, s, offs[i]);
    assert forall i, j | 0 <= i < j < |offs| :: Apart(InteriorKind, s, offs[i], offs[j]);
  }

  lemma SpliceAbovePointers(s: Bytes, at: nat, bytes: Bytes)
    requires |s| >= INTERIOR_HEADER_LEN && INTERIOR_HEADER_LEN + 2 * Count(s) <= at && at + |bytes| <= |s|
    ensures var t := Splice(s, at, bytes);
      && Count(t) == Count(s) && Start(t) == Start(s) && t[0] == s[0] && U32(t, 5) == U32(s, 5)
      && Offsets(INTERIOR_HEADER_LEN, t) == Offsets(INTERIOR_HEADER_LEN, s)
  {
    var t := Splice(s, at, bytes);
    assert t[5..9] == s[5..9];
    forall i | 0 <= i < Count(s)
      ensures U16(t, INTERIOR_HEADER_LEN + 2 * i) == U16(s, INTERIOR_HEADER_LEN + 2 * i)
    {
    }
  }

  lemma CellFields(c: Bytes, d: Bytes, child: nat)
    requires |c| == |d| == 12 && child <= U32_MAX && c[0..8] == d[0..8] && c[8..12] == ToBE(child, 4)
    ensures KeyOf(c) == KeyOf(d) && ChildOf(c) == child
  {
    hide ToBE, FromBE;
    NumberAt(c, 8, ToBE(child, 4));
    U32RoundTrip(child);
  }

  lemma ChildWrite(s: Bytes, off: nat, child: nat, t: Bytes, o: nat)
    requires child <= U32_MAX && off + 12 <= |s| && t == Splice(s, off + 8, ToBE(child, 4))
    requires o + 12 <= off || off + 12 <= o || o == off
    requires o + 12 <= |s|
    ensures KeyOf(t[o..o + 12]) == KeyOf(s[o..o + 12])
    ensures ChildOf(t[o..o + 12]) == if o == off then child else ChildOf(s[o..o + 12])
  {
    hide Splice, ToBE, FromBE;
    if o == off {
      SpliceElsewhere(s, off + 8, ToBE(child, 4), off, off + 8);
      SpliceReadsBack(s, off + 8, ToBE(child, 4));
      SliceOfSlice(t, o, o + 12, 0, 8);
      SliceOfSlice(s, o, o + 12, 0, 8);
      SliceOfSlice(t, o, o + 12, 8, 12);
      CellFields(t[o..o + 12], s[o..o + 12], child);
    } else {
      SpliceElsewhere(s, off + 8, ToBE(child, 4), o, o + 12);
    }
  }

  /** Cells are apart, so writing one child touches one cell. */
  lemma ChildSetCell(s: Bytes, t: Bytes, index: nat, child: nat, j: nat)
    requires Wf(InteriorKind, s) && index < Count(s) && child <= U32_MAX && j < Count(s)
    requires Wf(InteriorKind, t) && Offsets(INTERIOR_HEADER_LEN, t) == Offsets(INTERIOR_HEADER_LEN, s)
    requires Offsets(INTERIOR_HEADER_LEN, s)[index] + 12 <= |s|
    requires t == Splice(s, Offsets(INTERIOR_HEADER_LEN, s)[index] + 8, ToBE(child, 4))
    ensures KeyOf(Cells(InteriorKind, t)[j]) == KeyOf(Cells(InteriorKind, s)[j])
    ensures ChildOf(Cells(InteriorKind, t)[j]) == if j == index then child else ChildOf(Cells(InteriorKind, s)[j])
  {
    var offs := Offsets(INTERIOR_HEADER_LEN, s);
    assert CellIn(InteriorKind, s, offs[j]);
    if j < index {
      assert Apart(InteriorKind, s, offs[j], offs[index]);
    } else if index < j {
      assert Apart(InteriorKind, s, offs[index], offs[j]);
    }
    ChildWrite(s, offs[index], child, t, offs[j]);
  }

  /** Repointing one cell's child leaves every key and every other child. */
  lemma ChildSetRefines(ps: PageSize, s: Bytes, index: nat, child: nat) returns (t: Bytes)
    requires IsInterior(ps, s) && index < Count(s) && child <= U32_MAX
    ensures ChildSet(s, index, child) == Ok(t)
    ensures IsInterior(ps, t)
    ensures InteriorValue(t)
         == Interior(InteriorValue(s).keys, InteriorValue(s).children[index := child])
  {
    var off := InteriorOffset(s, index);
    t := Splice(s, off + 8, ToBE(child, 4));
    SpliceAbovePointers(s, off + 8, ToBE(child, 4));
    InteriorWfFollowsHeader(s, t);
    forall j | 0 <= j < Count(s)
      ensures KeyOf(Cells(InteriorKind, t)[j]) == KeyOf(Cells(InteriorKind, s)[j])
      ensures ChildOf(Cells(InteriorKind, t)[j]) == if j == index then child else ChildOf(Cells(InteriorKind, s)[j])
    {
      ChildSetCell(s, t, index, child, j);
    }
    assert KeysOf(Cells(InteriorKind, t)) == KeysOf(Cells(InteriorKind, s));
    assert ChildrenOf(Cells(InteriorKind, t)) == ChildrenOf(Cells(InteriorKind, s))[index := child];
  }

  lemma RightmostWrite(s: Bytes, child: nat, t: Bytes)
    requires Wf(InteriorKind, s) && child <= U32_MAX && t == Splice(s, 5, ToBE(child, 4))
    ensures t[0] == s[0] && Count(t) == Count(s) && Start(t) == Start(s) && U32(t, 5) == child
    ensures Offsets(INTERIOR_HEADER_LEN, t) == Offsets(INTERIOR_HEADER_LEN, s) && t[Start(s)..] == s[Start(s)..]
  {
    hide ToBE, FromBE, Spans;
    SpliceReadsBack(s, 5, ToBE(child, 4));
    NumberAt(t, 5, ToBE(child, 4));
    U32RoundTrip(child);
    SpliceElsewhere(s, 5, ToBE(child, 4), Start(s), |s|);
    forall i | 0 <= i < Count(s)
      ensures U16(t, INTERIOR_HEADER_LEN + 2 * i) == U16(s, INTERIOR_HEADER_LEN + 2 * i)
    {
    }
  }

  lemma RightmostSetRefines(ps: PageSize, s: Bytes, child: nat) returns (t: Bytes)
    requires IsInterior(ps, s) && child <= U32_MAX
    ensures Written(s, 5, ToBE(child, 4)) == Ok(t)
    ensures IsInterior(ps, t)
    ensures InteriorValue(t)
         == Interior(InteriorValue(s).keys, InteriorValue(s).children[Count(s) := child])
  {
    t := Splice(s, 5, ToBE(child, 4));
    RightmostWrite(s, child, t);
    hide Splice, ToBE, FromBE, Spans, U32, U16, Start, Count;
    SpansKept(InteriorKind, s, t, Offsets(INTERIOR_HEADER_LEN, s), Start(s));
  }
}
