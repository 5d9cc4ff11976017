/** Building whole pages cell by cell (`leaf_split_with_new_cell` in
    `btree/mod.rs`, `build_interior_page` in `btree/mutate.rs`), and exactly
    when the cells fit. */
module Builder {
  import opened Errors
  import opened Codec
  import opened Page
  import opened Slotted
  import opened PageModel

  function Sum(lens: seq<nat>): nat
  {
    if |lens| == 0 then 0 else Sum(lens[..|lens| - 1]) + lens[|lens| - 1]
  }

  function Lens(cells: seq<Bytes>): (l: seq<nat>)
    ensures |l| == |cells|
  {
    seq(|cells|, i requires 0 <= i < |cells| => |cells[i]|)
  }

  function TotalLen(cells: seq<Bytes>): nat { Sum(Lens(cells)) }

  lemma LensParts(cells: seq<Bytes>, mid: nat)
    requires mid <= |cells|
    ensures Lens(cells)[..mid] == Lens(cells[..mid]) && Lens(cells)[mid..] == Lens(cells[mid..])
  {
  }

  lemma TotalStep(cells: seq<Bytes>)
    requires |cells| > 0
    ensures TotalLen(cells) == TotalLen(cells[..|cells| - 1]) + |cells[|cells| - 1]|
  {
    var n := |cells| - 1;
    assert Lens(cells)[..n] == Lens(cells[..n]);
  }

  lemma NoTotal()
    ensures TotalLen([]) == 0
  {
  }

  /** Cells, pointers and header together fit one page of `size` bytes. */
  predicate Fits(header: nat, size: nat, cells: seq<Bytes>)
    requires size >= CHECKSUM_LEN
  {
    header + 2 * |cells| + TotalLen(cells) <= UsableU16(size)
  }

  /** The buffer after inserting `cells` in order into `s`. */
  function BuiltFrom(s: Bytes, header: nat, cells: seq<Bytes>): Result<Bytes>
  {
    if |cells| == 0 then Ok(s)
    else
      var before :- BuiltFrom(s, header, cells[..|cells| - 1]);
      Inserted(before, header, |cells| - 1, cells[|cells| - 1])
  }

  lemma {:induction false} BuiltRefines(k: Kind, s: Bytes, cells: seq<Bytes>) returns (t: Bytes)
    requires Wf(k, s) && Count(s) == 0 && Start(s) == UsableU16(|s|)
    requires forall i | 0 <= i < |cells| :: WfCell(k, cells[i])
    requires Fits(k.Header(), |s|, cells)
    ensures BuiltFrom(s, k.Header(), cells) == Ok(t)
    ensures |t| == |s| && Wf(k, t) && Cells(k, t) == cells
    ensures Start(t) == UsableU16(|s|) - TotalLen(cells)
    ensures t[0] == s[0] && t[5..k.Header()] == s[5..k.Header()]
  {
    hide Inserted, Wf, Cells, TotalLen;
    if |cells| == 0 {
      t := s;
      NoTotal();
      assert Cells(k, s) == cells;
    } else {
      var n := |cells| - 1;
      TotalStep(cells);
      var before := BuiltRefines(k, s, cells[..n]);
      t := InsertedRefines(k, before, n, cells[n]);
      assert SeqInsert(cells[..n], n, cells[n]) == cells;
    }
  }

  /** Appending one cell, room or none: what the edit says of the page is exact
      even where it overruns the pointer array. */
  lemma AppendOutcome(s: Bytes, header: nat, cell: Bytes)
    requires 5 <= header <= |s| && Start(s) <= |s| && Count(s) < U16_MAX && |cell| <= U16_MAX
    ensures var r := Inserted(s, header, Count(s), cell);
      && (r.Ok? <==> |cell| <= Start(s) && header + 2 * Count(s) + 2 <= |s|)
      && (r.Ok? ==> |r.value| == |s| && Count(r.value) == Count(s) + 1 && Start(r.value) == Start(s) - |cell|)
  {
    hide Splice;
  }

  /** Building never looks at room: it aborts exactly when the cells alone do not
      go into the content area, and counts them in any case. */
  lemma {:induction false} BuiltOutcome(s: Bytes, header: nat, cells: seq<Bytes>)
    requires 5 <= header <= |s| && Start(s) <= |s| && Count(s) == 0 && |cells| <= U16_MAX
    requires header + 2 * |cells| <= |s| && forall i | 0 <= i < |cells| :: |cells[i]| <= U16_MAX
    ensures var r := BuiltFrom(s, header, cells);
      && (r.Ok? <==> TotalLen(cells) <= Start(s))
      && (r.Ok? ==>
            |r.value| == |s| && Count(r.value) == |cells| && Start(r.value) == Start(s) - TotalLen(cells))
  {
    hide Inserted, TotalLen, Count, Start;
    if |cells| == 0 {
      NoTotal();
    } else {
      var n := |cells| - 1;
      TotalStep(cells);
      BuiltOutcome(s, header, cells[..n]);
      var before := BuiltFrom(s, header, cells[..n]);
      if before.Ok? {
        AppendOutcome(before.value, header, cells[n]);
      }
    }
  }

  // ------------------------------------------------------------------
  // Leaf pages.
  // ------------------------------------------------------------------

  function BuiltLeaf(ps: PageSize, cells: seq<Bytes>): Result<Bytes>
  {
    BuiltFrom(Initialised(Zeros(ps), TYPE_LEAF), LEAF_HEADER_LEN, cells)
  }

  method BuildLeafPage(ps: PageSize, cells: seq<Bytes>) returns (r: Result<Bytes>)
    ensures r == BuiltLeaf(ps, cells)
    ensures match r case Ok(page) => |page| == ps case Err(e) => e.OutOfRoom()
  {
    hide Inserted;
    var buf := NewZeros(ps);
    var _ := InitSlotted(buf, TYPE_LEAF);
    ghost var s := buf[..];
    for i := 0 to |cells|
      invariant BuiltFrom(s, LEAF_HEADER_LEN, cells[..i]) == Ok(buf[..])
      invariant BuiltFrom(s, LEAF_HEADER_LEN, cells).Err? || i <= |cells|
    {
      assert cells[..i + 1][..i] == cells[..i];
      BuiltPrefixErr(s, LEAF_HEADER_LEN, cells, i + 1);
      var _ :- InsertCellAt(buf, LEAF_HEADER_LEN, i, cells[i]);
    }
    assert cells[..|cells|] == cells;
    return Ok(buf[..]);
  }

  /** An error on the way is the error of the whole build. */
  lemma {:induction false} BuiltPrefixErr(s: Bytes, header: nat, cells: seq<Bytes>, i: nat)
    requires i <= |cells|
    ensures BuiltFrom(s, header, cells[..i]).Err?
            ==> BuiltFrom(s, header, cells) == BuiltFrom(s, header, cells[..i])
    decreases |cells| - i
  {
    if i == |cells| {
      assert cells[..i] == cells;
    } else {
      BuiltPrefixErr(s, header, cells, i + 1);
      assert cells[..i + 1][..i] == cells[..i];
    }
  }

  lemma BuiltLeafRefines(ps: PageSize, cells: seq<Bytes>) returns (t: Bytes)
    requires forall i | 0 <= i < |cells| :: WfCell(Local(ps), cells[i])
    requires Fits(LEAF_HEADER_LEN, ps, cells)
    ensures BuiltLeaf(ps, cells) == Ok(t)
    ensures IsLeaf(ps, t) && Cells(Local(ps), t) == cells && Start(t) == UsableU16(ps) - TotalLen(cells)
  {
    InitialisedIsEmpty(Local(ps), Zeros(ps), TYPE_LEAF);
    t := BuiltRefines(Local(ps), Initialised(Zeros(ps), TYPE_LEAF), cells);
  }

  // ------------------------------------------------------------------
  // No page holds more than fits.
  // ------------------------------------------------------------------

  /** The byte positions intervals of lengths `lens` at `offs` occupy. */
  function Footprint(offs: seq<nat>, lens: seq<nat>): set<nat>
    requires |offs| == |lens|
  {
    if |offs| == 0 then {}
    else
      var n := |offs| - 1;
      Footprint(offs[..n], lens[..n]) + Span(offs[n], lens[n])
  }

  predicate AllApart(offs: seq<nat>, lens: seq<nat>)
    requires |offs| == |lens|
  {
    forall i, j | 0 <= i < j < |offs| :: offs[i] + lens[i] <= offs[j] || offs[j] + lens[j] <= offs[i]
  }

  predicate Occupied(offs: seq<nat>, lens: seq<nat>, i: nat, p: nat)
    requires |offs| == |lens|
  {
    i < |offs| && offs[i] <= p < offs[i] + lens[i]
  }

  /** The positions of one more interval: it meets none of the others. */
  lemma LastApart(offs: seq<nat>, lens: seq<nat>, p: nat)
    requires |offs| == |lens| && AllApart(offs, lens) && |offs| > 0
    ensures var n := |offs| - 1;
      && (p in Span(offs[n], lens[n]) ==> Occupied(offs, lens, n, p))
      && (forall i: nat | Occupied(offs[..n], lens[..n], i, p) :: Occupied(offs, lens, i, p) && p !in Span(offs[n], lens[n]))
  {
  }

  lemma {:induction false} FootprintSize(offs: seq<nat>, lens: seq<nat>)
    requires |offs| == |lens| && AllApart(offs, lens)
    ensures |Footprint(offs, lens)| == Sum(lens)
    ensures forall p | p in Footprint(offs, lens) :: exists i: nat :: Occupied(offs, lens, i, p)
  {
    if |offs| > 0 {
      var n := |offs| - 1;
      FootprintSize(offs[..n], lens[..n]);
      var rest, last := Footprint(offs[..n], lens[..n]), Span(offs[n], lens[n]);
      hide Occupied, AllApart;
      forall p | p in rest
        ensures p !in last && exists i: nat :: Occupied(offs, lens, i, p)
      {
        LastApart(offs, lens, p);
        var i: nat :| Occupied(offs[..n], lens[..n], i, p);
      }
      forall p | p in last
        ensures exists i: nat :: Occupied(offs, lens, i, p)
      {
        LastApart(offs, lens, p);
      }
      assert rest !! last;
    }
  }

  /** Intervals that do not overlap cannot be longer than the space they share. */
  lemma IntervalBudget(offs: seq<nat>, lens: seq<nat>, lo: nat, hi: nat)
    requires |offs| == |lens| && AllApart(offs, lens) && lo <= hi
    requires forall i | 0 <= i < |offs| :: lo <= offs[i] && offs[i] + lens[i] <= hi
    ensures Sum(lens) <= hi - lo
  {
    FootprintSize(offs, lens);
    forall p | p in Footprint(offs, lens)
      ensures p in Span(lo, hi - lo)
    {
      var i: nat :| Occupied(offs, lens, i, p);
    }
    SubsetSize(Footprint(offs, lens), Span(lo, hi - lo));
  }

  lemma SpansBudget(k: Kind, s: Bytes, offs: seq<nat>, lo: nat)
    requires |s| >= CHECKSUM_LEN && Spans(k, s, offs, lo) && lo <= UsableU16(|s|)
    ensures TotalLen(CellsAt(k, s, offs)) <= UsableU16(|s|) - lo
  {
    var lens := Lens(CellsAt(k, s, offs));
    forall i | 0 <= i < |offs|
      ensures lens[i] == CellLen(k, s, offs[i])
    {
      assert CellIn(k, s, offs[i]);
    }
    forall i, j | 0 <= i < j < |offs|
      ensures offs[i] + lens[i] <= offs[j] || offs[j] + lens[j] <= offs[i]
    {
      assert Apart(k, s, offs[i], offs[j]);
    }
    IntervalBudget(offs, lens, lo, UsableU16(|s|));
  }

  lemma {:induction false} SubsetSize(a: set<nat>, b: set<nat>)
    requires a <= b
    ensures |a| <= |b|
    decreases a
  {
    if a != {} {
      var x :| x in a;
      SubsetSize(a - {x}, b - {x});
    }
  }

  /** Whatever a well-formed page holds fits a fresh page. */
  lemma WfFits(k: Kind, s: Bytes)
    requires Wf(k, s)
    ensures Fits(k.Header(), |s|, Cells(k, s))
  {
    SpansBudget(k, s, Offsets(k.Header(), s), Start(s));
  }

  /** Building a leaf page gives back the cells exactly when they fit. */
  lemma BuiltLeafIff(ps: PageSize, cells: seq<Bytes>)
    requires forall i | 0 <= i < |cells| :: WfCell(Local(ps), cells[i])
    ensures (BuiltLeaf(ps, cells).Ok?
             && IsLeaf(ps, BuiltLeaf(ps, cells).value)
             && Cells(Local(ps), BuiltLeaf(ps, cells).value) == cells)
       <==> Fits(LEAF_HEADER_LEN, ps, cells)
  {
    if Fits(LEAF_HEADER_LEN, ps, cells) {
      var t := BuiltLeafRefines(ps, cells);
    } else if BuiltLeaf(ps, cells).Ok? && IsLeaf(ps, BuiltLeaf(ps, cells).value) {
      WfFits(Local(ps), BuiltLeaf(ps, cells).value);
    }
  }

  /** Exactly when building aborts, and that a page built from cells that do not
      fit reads neither as a leaf nor as an interior page. */
  lemma BuiltLeafOutcome(ps: PageSize, cells: seq<Bytes>)
    requires LEAF_HEADER_LEN + 2 * |cells| <= ps && forall i | 0 <= i < |cells| :: |cells[i]| <= U16_MAX
    ensures BuiltLeaf(ps, cells).Ok? <==> TotalLen(cells) <= UsableU16(ps)
    ensures var r := BuiltLeaf(ps, cells);
      r.Ok? ==> |r.value| == ps && (IsLeaf(ps, r.value) || IsInterior(ps, r.value) ==> Fits(LEAF_HEADER_LEN, ps, cells))
  {
    hide BuiltFrom, TotalLen, Initialised;
    InitialisedIsEmpty(Local(ps), Zeros(ps), TYPE_LEAF);
    BuiltOutcome(Initialised(Zeros(ps), TYPE_LEAF), LEAF_HEADER_LEN, cells);
    hide Spans;
  }

  // ------------------------------------------------------------------
  // Interior pages.
  // ------------------------------------------------------------------

  /** `init_interior` on a zeroed page. */
  function InteriorBlank(ps: PageSize, rightmost: nat): Bytes
    requires rightmost <= U32_MAX
  {
    Splice(Initialised(Zeros(ps), TYPE_INTERIOR), 5, ToBE(rightmost, 4))
  }

  method InitInterior(buf: array<byte>, rightmost: nat) returns (r: Result<Unit>)
    requires rightmost <= U32_MAX
    modifies buf
    ensures buf.Length >= 9 ==> r.Ok? && buf[..] == Splice(Initialised(old(buf[..]), TYPE_INTERIOR), 5, ToBE(rightmost, 4))
  {
    var _ :- InitSlotted(buf, TYPE_INTERIOR);
    r := WriteBytes(buf, 5, ToBE(rightmost, 4));
  }

  lemma InteriorBlankIsEmpty(ps: PageSize, rightmost: nat)
    requires rightmost <= U32_MAX
    ensures var s := InteriorBlank(ps, rightmost);
      && IsInterior(ps, s) && Count(s) == 0 && Start(s) == UsableU16(ps) && U32(s, 5) == rightmost
  {
    var z := Initialised(Zeros(ps), TYPE_INTERIOR);
    InitialisedIsEmpty(InteriorKind, Zeros(ps), TYPE_INTERIOR);
    var s := InteriorBlank(ps, rightmost);
    assert Start(s) == Start(z) && Count(s) == Count(z) && s[0] == z[0];
    assert s[5..9] == ToBE(rightmost, 4) == ToBE(rightmost, 4)[0..4];
    U32RoundTrip(rightmost);
  }

  function InteriorCells(keys: seq<i64>, children: seq<nat>): (cells: seq<Bytes>)
    ensures |cells| == |keys|
  {
    seq(|keys|, i requires 0 <= i < |keys| =>
      BuildInteriorCell(keys[i], if i < |children| then children[i] else 0))
  }

  function LastOr0(children: seq<nat>): nat {
    if |children| > 0 then children[|children| - 1] else 0
  }

  function BuiltInterior(ps: PageSize, keys: seq<i64>, children: seq<nat>): Result<Bytes>
    requires LastOr0(children) <= U32_MAX
  {
    BuiltFrom(InteriorBlank(ps, LastOr0(children)), INTERIOR_HEADER_LEN, InteriorCells(keys, children))
  }

  method BuildInteriorPage(ps: PageSize, keys: seq<i64>, children: seq<nat>) returns (r: Result<Bytes>)
    requires LastOr0(children) <= U32_MAX
    ensures r == BuiltInterior(ps, keys, children)
    ensures r.Ok? ==> |r.value| == ps
  {
    hide Inserted, Initialised, ToBE, BuildInteriorCell, Zeros;
    var buf := NewZeros(ps);
    var _ := InitInterior(buf, LastOr0(children));
    ghost var s := buf[..];
    ghost var cells := InteriorCells(keys, children);
    for i := 0 to |keys|
      invariant BuiltFrom(s, INTERIOR_HEADER_LEN, cells[..i]) == Ok(buf[..])
    {
      var child := if i < |children| then children[i] else 0;
      var cell := BuildInteriorCell(keys[i], child);
      assert cell == cells[i];
      assert cells[..i + 1][..i] == cells[..i];
      BuiltPrefixErr(s, INTERIOR_HEADER_LEN, cells, i + 1);
      var _ :- InsertCellAt(buf, INTERIOR_HEADER_LEN, i, cell);
    }
    assert cells[..|keys|] == cells;
    return Ok(buf[..]);
  }

  lemma {:induction false} FixedTotal(cells: seq<Bytes>)
    requires forall i | 0 <= i < |cells| :: |cells[i]| == 12
    ensures TotalLen(cells) == 12 * |cells|
  {
    hide TotalLen;
    if |cells| > 0 {
      FixedTotal(cells[..|cells| - 1]);
      TotalStep(cells);
    } else {
      NoTotal();
    }
  }

  /** `max_interior_entries`. */
  function MaxInteriorEntries(ps: PageSize): nat {
    (ps - 8 - INTERIOR_HEADER_LEN) / (INTERIOR_CELL_LEN + POINTER_LEN)
  }

  /** The five thresholds. */
  lemma InteriorThresholds(ps: PageSize)
    ensures MaxInteriorEntries(ps) ==
      if ps == 4096 then 291 else if ps == 8192 then 583 else if ps == 16384 then 1169
      else if ps == 32768 then 2339 else 4679
  {
  }

  /** The threshold is exact for all five page sizes, also for the largest,
      whose content area is one byte shorter than the formula assumes. */
  lemma InteriorCapacity(ps: PageSize, keys: seq<i64>, children: seq<nat>)
    ensures Fits(INTERIOR_HEADER_LEN, ps, InteriorCells(keys, children)) <==> |keys| <= MaxInteriorEntries(ps)
  {
    hide MaxInteriorEntries, TotalLen;
    FixedTotal(InteriorCells(keys, children));
    InteriorThresholds(ps);
  }

  lemma InteriorCellsDecode(keys: seq<i64>, children: seq<nat>)
    requires |children| == |keys| + 1
    requires forall i | 0 <= i < |children| :: children[i] <= U32_MAX
    ensures var cells := InteriorCells(keys, children);
      && (forall i | 0 <= i < |cells| :: WfCell(InteriorKind, cells[i]))
      && KeysOf(cells) == keys && ChildrenOf(cells) + [LastOr0(children)] == children
  {
    hide BuildInteriorCell, WfCell, KeyOf, ChildOf;
    var cells := InteriorCells(keys, children);
    forall i | 0 <= i < |cells|
      ensures WfCell(InteriorKind, cells[i]) && KeyOf(cells[i]) == keys[i] && ChildOf(cells[i]) == children[i]
    {
      InteriorCellRoundTrip(keys[i], children[i]);
    }
    assert KeysOf(cells) == keys;
    assert ChildrenOf(cells) + [LastOr0(children)] == children;
  }

  lemma BuiltInteriorRefines(ps: PageSize, keys: seq<i64>, children: seq<nat>) returns (t: Bytes)
    requires |children| == |keys| + 1 && |keys| <= MaxInteriorEntries(ps)
    requires forall i | 0 <= i < |children| :: children[i] <= U32_MAX
    ensures BuiltInterior(ps, keys, children) == Ok(t)
    ensures IsInterior(ps, t) && InteriorValue(t) == Interior(keys, children)
  {
    hide Wf, Cells, WfCell, KeysOf, ChildrenOf, InteriorBlank, BuiltFrom, Fits, Start, Count, U32;
    var rightmost := LastOr0(children);
    InteriorBlankIsEmpty(ps, rightmost);
    var s := InteriorBlank(ps, rightmost);
    InteriorCapacity(ps, keys, children);
    InteriorCellsDecode(keys, children);
    t := BuiltRefines(InteriorKind, s, InteriorCells(keys, children));
    SameRightmost(s, t);
  }

  lemma SameRightmost(s: Bytes, t: Bytes)
    requires |s| >= 9 && |t| >= 9 && t[5..9] == s[5..9]
    ensures U32(t, 5) == U32(s, 5)
  {
  }
}
