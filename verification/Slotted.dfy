/** Slotted pages (`btree/layout.rs`): a header, an ascending pointer array,
    free space, and cell content growing down from the checksum trailer.

    The in-place methods are tied to functions on byte sequences that say
    exactly what they leave in the buffer, for every buffer; lemmas then show
    that on a well-formed page those functions are sequence insert and remove. */
module Slotted {
  import opened Errors
  import opened Codec
  import opened Page

  const LEAF_HEADER_LEN: nat := 5
  const INTERIOR_HEADER_LEN: nat := 9
  const LEAF_CELL_FIXED_LEN: nat := 16
  const INTERIOR_CELL_LEN: nat := 12
  const POINTER_LEN: nat := 2

  /** What a page's cells look like: leaf cells describe their own length. */
  datatype Kind = LeafKind(maxLocal: nat) | InteriorKind {
    function Header(): nat {
      if LeafKind? then LEAF_HEADER_LEN else INTERIOR_HEADER_LEN
    }

    function FixedLen(): nat {
      if LeafKind? then LEAF_CELL_FIXED_LEN else INTERIOR_CELL_LEN
    }
  }

  function Min(a: nat, b: nat): nat { if a <= b then a else b }

  function SeqInsert<T>(s: seq<T>, i: nat, x: T): (r: seq<T>)
    requires i <= |s|
  {
    s[..i] + [x] + s[i..]
  }

  function SeqRemove<T>(s: seq<T>, i: nat): (r: seq<T>)
    requires i < |s|
  {
    s[..i] + s[i + 1..]
  }

  // ------------------------------------------------------------------
  // Readers.
  // ------------------------------------------------------------------

  function NumCells(buf: Bytes): Result<nat> { ReadU16(buf, 1) }

  function ContentStart(buf: Bytes): Result<nat> { ReadU16(buf, 3) }

  function PointerAt(buf: Bytes, header: nat, index: nat): Result<nat> {
    ReadU16(buf, header + index * POINTER_LEN)
  }

  /** `free_space`; its `u16` arithmetic aborts where it would overflow. */
  function FreeSpace(buf: Bytes, header: nat): Result<nat> {
    var n :- NumCells(buf);
    var cs :- ContentStart(buf);
    var used := Min(header, U16_MAX) + n * POINTER_LEN;
    if used > U16_MAX then Err(ArithmeticOverflow)
    else Ok(if cs >= used then cs - used else 0)
  }

  // ------------------------------------------------------------------
  // Well-formed pages and the cells they hold.
  // ------------------------------------------------------------------

  function Count(s: Bytes): nat
    requires |s| >= 5
  {
    U16(s, 1)
  }

  function Start(s: Bytes): nat
    requires |s| >= 5
  {
    U16(s, 3)
  }

  /** The first `n` pointers. */
  function Pointers(header: nat, s: Bytes, n: nat): (offs: seq<nat>)
    requires header + 2 * n <= |s|
    ensures |offs| == n
  {
    seq(n, i requires 0 <= i < n => U16(s, header + 2 * i))
  }

  /** The pointer array. */
  function Offsets(header: nat, s: Bytes): (offs: seq<nat>)
    requires |s| >= 5 && header + 2 * Count(s) <= |s|
    ensures |offs| == Count(s)
  {
    Pointers(header, s, Count(s))
  }

  function CellLen(k: Kind, s: Bytes, off: nat): nat
    requires off + k.FixedLen() <= |s|
  {
    match k
    case LeafKind(maxLocal) => LEAF_CELL_FIXED_LEN + Min(U32(s, off + 8), maxLocal)
    case InteriorKind => INTERIOR_CELL_LEN
  }

  /** Where the content area ends: offsets are `u16`, so the largest page gives
      up one byte besides the checksum trailer. */
  function UsableU16(len: nat): (u: nat)
    requires len >= CHECKSUM_LEN
    ensures u <= len - CHECKSUM_LEN && u <= U16_MAX
  {
    Min(len, U16_MAX) - CHECKSUM_LEN
  }

  /** The cell at `off` ends inside the content area. */
  predicate CellIn(k: Kind, s: Bytes, off: nat)
    requires |s| >= CHECKSUM_LEN
  {
    off + k.FixedLen() <= |s| && off + CellLen(k, s, off) <= UsableU16(|s|)
  }

  predicate Apart(k: Kind, s: Bytes, a: nat, b: nat)
    requires |s| >= CHECKSUM_LEN && CellIn(k, s, a) && CellIn(k, s, b)
  {
    a + CellLen(k, s, a) <= b || b + CellLen(k, s, b) <= a
  }

  /** Cells at `offs` lie above `lo` and do not overlap each other. */
  predicate Spans(k: Kind, s: Bytes, offs: seq<nat>, lo: nat)
    requires |s| >= CHECKSUM_LEN
  {
    && (forall i | 0 <= i < |offs| :: lo <= offs[i] && CellIn(k, s, offs[i]))
    && (forall i, j | 0 <= i < j < |offs| :: Apart(k, s, offs[i], offs[j]))
  }

  /** Live cells lie above the pointer array, inside the content area, and
      apart from each other. */
  predicate Wf(k: Kind, s: Bytes)
  {
    && |s| >= k.Header() + CHECKSUM_LEN
    && k.Header() + 2 * Count(s) <= Start(s) <= UsableU16(|s|)
    && Spans(k, s, Offsets(k.Header(), s), Start(s))
  }

  function CellBytes(k: Kind, s: Bytes, off: nat): Bytes
    requires |s| >= CHECKSUM_LEN && CellIn(k, s, off)
  {
    s[off..off + CellLen(k, s, off)]
  }

  function CellsAt(k: Kind, s: Bytes, offs: seq<nat>): (c: seq<Bytes>)
    requires |s| >= CHECKSUM_LEN && forall i | 0 <= i < |offs| :: CellIn(k, s, offs[i])
    ensures |c| == |offs|
  {
    seq(|offs|, i requires 0 <= i < |offs| => CellBytes(k, s, offs[i]))
  }

  /** The sequence of cells a page stands for, in pointer order. */
  function Cells(k: Kind, s: Bytes): (c: seq<Bytes>)
    requires Wf(k, s)
    ensures |c| == Count(s)
  {
    CellsAt(k, s, Offsets(k.Header(), s))
  }

  /** A cell whose own length field agrees with its length. */
  predicate WfCell(k: Kind, c: Bytes) {
    |c| >= k.FixedLen() && |c| == CellLen(k, c, 0)
  }

  lemma CellLenFollowsBytes(k: Kind, s: Bytes, off: nat, t: Bytes, off': nat, len: nat)
    requires len >= k.FixedLen() && off + len <= |s| && off' + len <= |t|
    requires s[off..off + len] == t[off'..off' + len]
    ensures CellLen(k, s, off) == CellLen(k, t, off')
  {
    if k.LeafKind? {
      SliceOfSlice(s, off, off + len, 8, 12);
      SliceOfSlice(t, off', off' + len, 8, 12);
    }
  }

  /** Every cell a well-formed page holds is well-formed itself, so a split
      that copies self-described lengths copies exactly the cell. */
  lemma CellsAreWf(k: Kind, s: Bytes, i: nat)
    requires Wf(k, s) && i < Count(s)
    ensures WfCell(k, Cells(k, s)[i])
  {
    var off := Offsets(k.Header(), s)[i];
    var len := CellLen(k, s, off);
    assert Cells(k, s)[i][0..len] == s[off..off + len];
    CellLenFollowsBytes(k, s, off, Cells(k, s)[i], 0, len);
  }

  /** Cells survive any change below `lo`. */
  lemma SpansKept(k: Kind, s: Bytes, t: Bytes, offs: seq<nat>, lo: nat)
    requires CHECKSUM_LEN <= |s| == |t| && lo <= |s|
    requires Spans(k, s, offs, lo)
    requires t[lo..] == s[lo..]
    ensures Spans(k, t, offs, lo) && CellsAt(k, t, offs) == CellsAt(k, s, offs)
  {
    forall i | 0 <= i < |offs|
      ensures CellIn(k, t, offs[i]) && CellLen(k, t, offs[i]) == CellLen(k, s, offs[i])
      ensures CellBytes(k, t, offs[i]) == CellBytes(k, s, offs[i])
    {
      CellKept(k, s, t, lo, offs[i]);
    }
    assert CellsAt(k, t, offs) == CellsAt(k, s, offs);
  }

  lemma CellKept(k: Kind, s: Bytes, t: Bytes, lo: nat, off: nat)
    requires CHECKSUM_LEN <= |s| == |t| && lo <= off && CellIn(k, s, off)
    requires t[lo..] == s[lo..]
    ensures CellIn(k, t, off) && CellLen(k, t, off) == CellLen(k, s, off)
    ensures CellBytes(k, t, off) == CellBytes(k, s, off)
  {
    var len := CellLen(k, s, off);
    SliceOfSlice(t, lo, |t|, off - lo, off - lo + len);
    SliceOfSlice(s, lo, |s|, off - lo, off - lo + len);
    CellLenFollowsBytes(k, t, off, s, off, len);
  }

  // ------------------------------------------------------------------
  // Header fields.
  // ------------------------------------------------------------------

  /** The buffer with its cell count and content start replaced. */
  function WithHeader(s: Bytes, n: nat, cs: nat): (r: Bytes)
    requires |s| >= 5 && n <= U16_MAX && cs <= U16_MAX
    ensures |r| == |s| && r[0] == s[0] && r[5..] == s[5..]
    ensures Count(r) == n && Start(r) == cs
  {
    s[..1] + U16Bytes(n) + U16Bytes(cs) + s[5..]
  }

  lemma HeaderWrites(s: Bytes, n: nat, cs: nat)
    requires |s| >= 5 && n <= U16_MAX && cs <= U16_MAX
    ensures Splice(Splice(s, 1, U16Bytes(n)), 3, U16Bytes(cs)) == WithHeader(s, n, cs)
  {
  }

  lemma CountWrite(s: Bytes, n: nat)
    requires |s| >= 5 && n <= U16_MAX
    ensures Splice(s, 1, U16Bytes(n)) == WithHeader(s, n, Start(s))
  {
  }

  // ------------------------------------------------------------------
  // Initialising a page.
  // ------------------------------------------------------------------

  function Initialised(s: Bytes, pageType: byte): (r: Bytes)
    requires |s| >= CHECKSUM_LEN
    ensures |r| == |s|
  {
    WithHeader(s[0 := pageType], 0, UsableU16(|s|))
  }

  method InitSlotted(buf: array<byte>, pageType: byte) returns (r: Result<Unit>)
    modifies buf
    ensures r.Ok? <==> buf.Length >= CHECKSUM_LEN
    ensures r.Ok? ==> buf[..] == Initialised(old(buf[..]), pageType)
  {
    if Min(buf.Length, U16_MAX) < CHECKSUM_LEN {
      return Err(ArithmeticOverflow);
    }
    var usable := Min(buf.Length, U16_MAX) - CHECKSUM_LEN;
    ghost var s := buf[..];
    var _ := WriteBytes(buf, 0, [pageType]);
    assert buf[..] == s[0 := pageType];
    var _ := WriteBytes(buf, 1, U16Bytes(0));
    r := WriteBytes(buf, 3, U16Bytes(usable));
    HeaderWrites(s[0 := pageType], 0, usable);
  }

  lemma InitialisedIsEmpty(k: Kind, s: Bytes, pageType: byte)
    requires |s| >= k.Header() + 2 * CHECKSUM_LEN
    ensures var t := Initialised(s, pageType);
      && Wf(k, t) && Cells(k, t) == [] && t[0] == pageType
      && Start(t) == UsableU16(|s|)
      && t[5..] == s[5..]
  {
    assert s[0 := pageType][5..] == s[5..];
  }

  // ------------------------------------------------------------------
  // Inserting a cell.
  // ------------------------------------------------------------------

  /** The pointers `index..n` moved up by one slot. */
  function ShiftedRight(s: Bytes, header: nat, index: nat, n: nat): (r: Bytes)
    requires index <= n && header + 2 * n + 2 <= |s|
    ensures |r| == |s|
  {
    seq(|s|, p requires 0 <= p < |s| =>
      if header + 2 * index + 2 <= p < header + 2 * n + 2 then s[p - 2] else s[p])
  }

  /** What `insert_cell_at` leaves in the buffer, or its error. */
  function Inserted(s: Bytes, header: nat, index: nat, cell: Bytes): (r: Result<Bytes>)
    ensures r.Err? ==> r.error.OutOfRoom()
  {
    var n :- NumCells(s);
    var cs :- ContentStart(s);
    var cellLen := Min(|cell|, U16_MAX);
    if cs < cellLen then Err(ArithmeticOverflow)
    else
      var newCs := cs - cellLen;
      var s1 :- Written(s, newCs, cell);
      if index < n && header + 2 * n + 2 > |s| then Err(BufferBounds)
      else
        var s2 := if index < n then ShiftedRight(s1, header, index, n) else s1;
        Published(s2, header, index, n, newCs)
  }

  function Published(s: Bytes, header: nat, index: nat, n: nat, newCs: nat): (r: Result<Bytes>)
    requires |s| >= 5 && newCs <= U16_MAX
  {
    var s3 :- Written(s, header + 2 * index, U16Bytes(newCs));
    Ok(WithHeader(s3, Min(n + 1, U16_MAX), newCs))
  }

  lemma ShiftRightStep(s: Bytes, header: nat, i: nat, n: nat)
    requires 0 < i <= n && header + 2 * n + 2 <= |s|
    ensures var t := if i < n then ShiftedRight(s, header, i, n) else s;
      ShiftedRight(s, header, i - 1, n)
        == Splice(t, header + 2 * i, U16Bytes(U16(t, header + 2 * (i - 1))))
  {
  }

  /** The pointer-shift loop of `insert_cell_at`. */
  method ShiftPointersRight(buf: array<byte>, header: nat, index: nat, n: nat) returns (r: Result<Unit>)
    modifies buf
    ensures r.Ok? <==> index >= n || header + 2 * n + 2 <= buf.Length
    ensures r.Ok? ==> buf[..] == if index < n then ShiftedRight(old(buf[..]), header, index, n) else old(buf[..])
    ensures r.Err? ==> r.error == BufferBounds
  {
    ghost var s := buf[..];
    var i := n;
    while i > index
      invariant i <= n && (index <= i || i == n)
      invariant i < n ==> header + 2 * n + 2 <= |s|
      invariant buf[..] == if i < n then ShiftedRight(s, header, i, n) else s
    {
      i := i - 1;
      var p :- PointerAt(buf[..], header, i);
      var _ :- WriteBytes(buf, header + (i + 1) * POINTER_LEN, U16Bytes(p));
      ShiftRightStep(s, header, i + 1, n);
    }
    return Ok(Done);
  }

  /** The closing writes of `insert_cell_at`: pointer, cell count, content start. */
  method PublishCell(buf: array<byte>, header: nat, index: nat, n: nat, newCs: nat) returns (r: Result<Unit>)
    requires buf.Length >= 5 && newCs <= U16_MAX
    modifies buf
    ensures match Published(old(buf[..]), header, index, n, newCs)
            case Ok(after) => r.Ok? && buf[..] == after
            case Err(e) => r == Err(e)
  {
    var _ :- WriteBytes(buf, header + index * POINTER_LEN, U16Bytes(newCs));
    ghost var s3 := buf[..];
    var _ := WriteBytes(buf, 1, U16Bytes(Min(n + 1, U16_MAX)));
    r := WriteBytes(buf, 3, U16Bytes(newCs));
    HeaderWrites(s3, Min(n + 1, U16_MAX), newCs);
  }

  method InsertCellAt(buf: array<byte>, header: nat, index: nat, cell: Bytes) returns (r: Result<Unit>)
    modifies buf
    ensures match Inserted(old(buf[..]), header, index, cell)
            case Ok(after) => r.Ok? && buf[..] == after
            case Err(e) => r == Err(e)
  {
    var n :- NumCells(buf[..]);
    var cs :- ContentStart(buf[..]);
    var cellLen := Min(|cell|, U16_MAX);
    if cs < cellLen {
      return Err(ArithmeticOverflow);
    }
    var newCs := cs - cellLen;
    var _ :- WriteBytes(buf, newCs, cell);
    var _ :- ShiftPointersRight(buf, header, index, n);
    r := PublishCell(buf, header, index, n, newCs);
  }

  /** The room `insert_cell_at` counts on. */
  predicate HasRoom(header: nat, s: Bytes, len: nat)
    requires |s| >= 5
  {
    header + 2 * (Count(s) + 1) + len <= Start(s)
  }

  lemma InsertedPointer(header: nat, s: Bytes, index: nat, cell: Bytes, s1: Bytes, s2: Bytes, s3: Bytes, j: nat)
    requires header >= 5 && |s| >= header + CHECKSUM_LEN && Start(s) <= |s| - CHECKSUM_LEN
    requires index <= Count(s) && HasRoom(header, s, |cell|) && j <= Count(s)
    requires s1 == Splice(s, Start(s) - |cell|, cell)
    requires s2 == if index < Count(s) then ShiftedRight(s1, header, index, Count(s)) else s1
    requires s3 == Splice(s2, header + 2 * index, U16Bytes(Start(s) - |cell|))
    ensures U16(s3, header + 2 * j)
         == if j < index then U16(s, header + 2 * j) else if j == index then Start(s) - |cell|
            else U16(s, header + 2 * (j - 1))
  {
  }

  lemma InsertedElsewhere(header: nat, s: Bytes, index: nat, cell: Bytes, s1: Bytes, s2: Bytes, s3: Bytes)
    requires header >= 5 && |s| >= header + CHECKSUM_LEN && Start(s) <= |s| - CHECKSUM_LEN
    requires index <= Count(s) && HasRoom(header, s, |cell|)
    requires s1 == Splice(s, Start(s) - |cell|, cell)
    requires s2 == if index < Count(s) then ShiftedRight(s1, header, index, Count(s)) else s1
    requires s3 == Splice(s2, header + 2 * index, U16Bytes(Start(s) - |cell|))
    ensures s3[0] == s[0] && s3[5..header] == s[5..header] && s3[Start(s)..] == s[Start(s)..]
    ensures s3[Start(s) - |cell|..Start(s)] == cell
  {
    forall p | p == 0 || 5 <= p < header || Start(s) <= p < |s|
      ensures s3[p] == s[p]
    {
    }
    forall p | Start(s) - |cell| <= p < Start(s)
      ensures s3[p] == s1[p] == cell[p - (Start(s) - |cell|)]
    {
    }
  }

  lemma InsertedPointers(header: nat, s: Bytes, index: nat, cell: Bytes, s1: Bytes, s2: Bytes, s3: Bytes)
    requires header >= 5 && |s| >= header + CHECKSUM_LEN && Start(s) <= |s| - CHECKSUM_LEN
    requires index <= Count(s) && HasRoom(header, s, |cell|)
    requires s1 == Splice(s, Start(s) - |cell|, cell)
    requires s2 == if index < Count(s) then ShiftedRight(s1, header, index, Count(s)) else s1
    requires s3 == Splice(s2, header + 2 * index, U16Bytes(Start(s) - |cell|))
    ensures Pointers(header, s3, Count(s) + 1)
         == SeqInsert(Offsets(header, s), index, Start(s) - |cell|)
  {
    hide ShiftedRight, U16, U16Bytes, Start, Count, SeqInsert;
    var was, now := Offsets(header, s), Pointers(header, s3, Count(s) + 1);
    forall j {:trigger now[j]} | 0 <= j <= Count(s)
      ensures now[j] == if j < index then was[j] else if j == index then Start(s) - |cell| else was[j - 1]
    {
      InsertedPointer(header, s, index, cell, s1, s2, s3, j);
    }
    InsertedSeq(was, index, Start(s) - |cell|, now);
  }

  lemma InsertedSeq<T>(was: seq<T>, index: nat, x: T, now: seq<T>)
    requires index <= |was| && |now| == |was| + 1
    requires forall j {:trigger now[j]} | 0 <= j < |now| ::
               now[j] == if j < index then was[j] else if j == index then x else was[j - 1]
    ensures now == SeqInsert(was, index, x)
  {
  }

  lemma InsertedForm(header: nat, s: Bytes, index: nat, cell: Bytes, s1: Bytes, s2: Bytes, s3: Bytes)
    requires header >= 5 && |s| >= header + CHECKSUM_LEN && Start(s) <= |s| - CHECKSUM_LEN
    requires index <= Count(s) && HasRoom(header, s, |cell|)
    requires s1 == Splice(s, Start(s) - |cell|, cell)
    requires s2 == if index < Count(s) then ShiftedRight(s1, header, index, Count(s)) else s1
    requires s3 == Splice(s2, header + 2 * index, U16Bytes(Start(s) - |cell|))
    ensures Inserted(s, header, index, cell) == Ok(WithHeader(s3, Count(s) + 1, Start(s) - |cell|))
  {
  }

  /** Where everything is after an insertion, for any page with room. */
  lemma InsertedGeometry(header: nat, s: Bytes, index: nat, cell: Bytes, s1: Bytes, s2: Bytes, s3: Bytes)
    requires header >= 5 && |s| >= header + CHECKSUM_LEN && Start(s) <= |s| - CHECKSUM_LEN
    requires index <= Count(s) && HasRoom(header, s, |cell|)
    requires s1 == Splice(s, Start(s) - |cell|, cell)
    requires s2 == if index < Count(s) then ShiftedRight(s1, header, index, Count(s)) else s1
    requires s3 == Splice(s2, header + 2 * index, U16Bytes(Start(s) - |cell|))
    ensures var t := WithHeader(s3, Count(s) + 1, Start(s) - |cell|);
      && t[0] == s[0] && t[5..header] == s[5..header] && t[Start(s)..] == s[Start(s)..]
      && t[Start(t)..Start(s)] == cell
      && Offsets(header, t) == SeqInsert(Offsets(header, s), index, Start(t))
  {
    hide ShiftedRight, Splice, Pointers;
    InsertedPointers(header, s, index, cell, s1, s2, s3);
    InsertedElsewhere(header, s, index, cell, s1, s2, s3);
    HeaderOnly(header, s3, Count(s) + 1, Start(s) - |cell|, Start(s));
  }

  lemma HeaderOnly(header: nat, s: Bytes, n: nat, cs: nat, upper: nat)
    requires header >= 5 && |s| >= 5 && n <= U16_MAX && cs <= U16_MAX
    requires header + 2 * n <= cs <= upper <= |s|
    ensures var t := WithHeader(s, n, cs);
      && t[0] == s[0] && t[5..header] == s[5..header] && t[upper..] == s[upper..] && t[cs..upper] == s[cs..upper]
      && Offsets(header, t) == Pointers(header, s, n)
  {
  }

  lemma SpansInsertApart(k: Kind, t: Bytes, offs: seq<nat>, lo: nat, index: nat, off: nat)
    requires |t| >= CHECKSUM_LEN && index <= |offs|
    requires Spans(k, t, offs, lo)
    requires off <= lo && CellIn(k, t, off) && off + CellLen(k, t, off) <= lo
    requires forall i | 0 <= i <= |offs| :: CellIn(k, t, SeqInsert(offs, index, off)[i])
    ensures var o2 := SeqInsert(offs, index, off); forall i, j | 0 <= i < j < |o2| :: Apart(k, t, o2[i], o2[j])
  {
    var o2 := SeqInsert(offs, index, off);
    forall i, j | 0 <= i < j < |o2|
      ensures Apart(k, t, o2[i], o2[j])
    {
      assert o2[i] == if i < index then offs[i] else if i == index then off else offs[i - 1];
      assert o2[j] == if j < index then offs[j] else if j == index then off else offs[j - 1];
    }
  }

  lemma CellsInsert(k: Kind, t: Bytes, offs: seq<nat>, index: nat, off: nat)
    requires |t| >= CHECKSUM_LEN && index <= |offs| && CellIn(k, t, off)
    requires forall i | 0 <= i < |offs| :: CellIn(k, t, offs[i])
    requires forall i | 0 <= i <= |offs| :: CellIn(k, t, SeqInsert(offs, index, off)[i])
    ensures CellsAt(k, t, SeqInsert(offs, index, off)) == SeqInsert(CellsAt(k, t, offs), index, CellBytes(k, t, off))
  {
  }

  lemma SpansInsert(k: Kind, t: Bytes, offs: seq<nat>, lo: nat, index: nat, off: nat)
    requires |t| >= CHECKSUM_LEN && index <= |offs|
    requires Spans(k, t, offs, lo)
    requires off <= lo && CellIn(k, t, off) && off + CellLen(k, t, off) <= lo
    ensures Spans(k, t, SeqInsert(offs, index, off), off)
    ensures CellsAt(k, t, SeqInsert(offs, index, off)) == SeqInsert(CellsAt(k, t, offs), index, CellBytes(k, t, off))
  {
    var o2 := SeqInsert(offs, index, off);
    forall i | 0 <= i < |o2|
      ensures off <= o2[i] && CellIn(k, t, o2[i])
    {
      assert o2[i] == if i < index then offs[i] else if i == index then off else offs[i - 1];
    }
    SpansInsertApart(k, t, offs, lo, index, off);
    CellsInsert(k, t, offs, index, off);
  }

  lemma InsertedIsInsert(k: Kind, s: Bytes, index: nat, cell: Bytes, s1: Bytes, s2: Bytes, s3: Bytes)
    requires Wf(k, s) && index <= Count(s) && WfCell(k, cell) && HasRoom(k.Header(), s, |cell|)
    requires s1 == Splice(s, Start(s) - |cell|, cell)
    requires s2 == if index < Count(s) then ShiftedRight(s1, k.Header(), index, Count(s)) else s1
    requires s3 == Splice(s2, k.Header() + 2 * index, U16Bytes(Start(s) - |cell|))
    ensures var t := WithHeader(s3, Count(s) + 1, Start(s) - |cell|);
      && Wf(k, t) && Cells(k, t) == SeqInsert(Cells(k, s), index, cell)
      && t[0] == s[0] && t[5..k.Header()] == s[5..k.Header()]
  {
    InsertedGeometry(k.Header(), s, index, cell, s1, s2, s3);
    InsertedIsWf(k, s, WithHeader(s3, Count(s) + 1, Start(s) - |cell|), index, cell);
  }

  /** Inserting with room is inserting into the sequence of cells: no other
      cell's bytes change, and the page stays well-formed. */
  lemma InsertedRefines(k: Kind, s: Bytes, index: nat, cell: Bytes) returns (t: Bytes)
    requires Wf(k, s) && index <= Count(s) && WfCell(k, cell) && HasRoom(k.Header(), s, |cell|)
    ensures Inserted(s, k.Header(), index, cell) == Ok(t)
    ensures |t| == |s| && Wf(k, t) && Cells(k, t) == SeqInsert(Cells(k, s), index, cell)
    ensures Start(t) == Start(s) - |cell|
    ensures t[0] == s[0] && t[5..k.Header()] == s[5..k.Header()]
  {
    var s1 := Splice(s, Start(s) - |cell|, cell);
    var s2 := if index < Count(s) then ShiftedRight(s1, k.Header(), index, Count(s)) else s1;
    var s3 := Splice(s2, k.Header() + 2 * index, U16Bytes(Start(s) - |cell|));
    t := WithHeader(s3, Count(s) + 1, Start(s) - |cell|);
    InsertedForm(k.Header(), s, index, cell, s1, s2, s3);
    InsertedIsInsert(k, s, index, cell, s1, s2, s3);
  }

  /** Room is exactly what an insertion needs: without it the new cell ends up
      over the pointer array. */
  lemma RoomNeeded(k: Kind, s: Bytes, index: nat, cell: Bytes, t: Bytes)
    requires Wf(k, s) && index <= Count(s) && WfCell(k, cell) && Inserted(s, k.Header(), index, cell) == Ok(t)
    ensures Wf(k, t) <==> k.Header() + 2 * (Count(s) + 1) + |cell| <= Start(s)
  {
    if HasRoom(k.Header(), s, |cell|) {
      var u := InsertedRefines(k, s, index, cell);
    } else {
      hide Spans, WfCell;
      assert |cell| <= U16_MAX ==> Count(t) == Count(s) + 1 && Start(t) == Start(s) - |cell|;
    }
  }

  lemma InsertedIsWf(k: Kind, s: Bytes, t: Bytes, index: nat, cell: Bytes)
    requires Wf(k, s) && index <= Count(s) && WfCell(k, cell) && HasRoom(k.Header(), s, |cell|)
    requires |t| == |s| && Count(t) == Count(s) + 1 && Start(t) == Start(s) - |cell|
    requires t[Start(s)..] == s[Start(s)..] && t[Start(t)..Start(s)] == cell
    requires Offsets(k.Header(), t) == SeqInsert(Offsets(k.Header(), s), index, Start(t))
    ensures Wf(k, t) && Cells(k, t) == SeqInsert(Cells(k, s), index, cell)
  {
    assert CellLen(k, t, Start(t)) == |cell| by {
      assert cell[0..|cell|] == cell;
      CellLenFollowsBytes(k, t, Start(t), cell, 0, |cell|);
    }
    var offs := Offsets(k.Header(), s);
    SpansKept(k, s, t, offs, Start(s));
    SpansInsert(k, t, offs, Start(s), index, Start(t));
  }

  // ------------------------------------------------------------------
  // Removing a cell.
  // ------------------------------------------------------------------

  /** The pointers `index+1..=upto` moved down by one slot. */
  function ShiftedLeft(s: Bytes, header: nat, index: nat, upto: nat): (r: Bytes)
    requires index <= upto && header + 2 * upto + 2 <= |s|
    ensures |r| == |s|
  {
    seq(|s|, p requires 0 <= p < |s| =>
      if header + 2 * index <= p < header + 2 * upto then s[p + 2] else s[p])
  }

  /** What `remove_cell_at` leaves in the buffer, or its error. */
  function Removed(s: Bytes, header: nat, index: nat): (r: Result<Bytes>)
  {
    var n :- NumCells(s);
    var _ :- PointerAt(s, header, index);
    if index + 1 < n && header + 2 * n > |s| then Err(BufferBounds)
    else
      var s1 := if index + 1 < n then ShiftedLeft(s, header, index, n - 1) else s;
      Written(s1, 1, U16Bytes(if n >= 1 then n - 1 else 0))
  }

  lemma ShiftLeftStep(s: Bytes, header: nat, index: nat, i: nat)
    requires index <= i && header + 2 * i + 4 <= |s|
    ensures var t := ShiftedLeft(s, header, index, i);
      ShiftedLeft(s, header, index, i + 1)
        == Splice(t, header + 2 * i, U16Bytes(U16(t, header + 2 * (i + 1))))
  {
  }

  lemma ShiftLeftNone(s: Bytes, header: nat, index: nat)
    requires header + 2 * index + 2 <= |s|
    ensures ShiftedLeft(s, header, index, index) == s
  {
  }

  /** The pointer-shift loop of `remove_cell_at`. */
  method ShiftPointersLeft(buf: array<byte>, header: nat, index: nat, n: nat) returns (r: Result<Unit>)
    requires header + 2 * index + 2 <= buf.Length
    modifies buf
    ensures r.Ok? <==> index + 1 >= n || header + 2 * n <= buf.Length
    ensures r.Ok? ==> buf[..] == if index + 1 < n then ShiftedLeft(old(buf[..]), header, index, n - 1) else old(buf[..])
    ensures r.Err? ==> r.error == BufferBounds
  {
    hide ShiftedLeft, U16;
    ghost var s := buf[..];
    var i := index;
    ShiftLeftNone(s, header, index);
    while i + 1 < n
      invariant index <= i && (i + 1 <= n || i == index)
      invariant header + 2 * i + 2 <= |s|
      invariant buf[..] == ShiftedLeft(s, header, index, i)
    {
      var p :- PointerAt(buf[..], header, i + 1);
      ShiftLeftStep(s, header, index, i);
      var _ := WriteBytes(buf, header + i * POINTER_LEN, U16Bytes(p));
      i := i + 1;
    }
    return Ok(Done);
  }

  method RemoveCellAt(buf: array<byte>, header: nat, index: nat) returns (r: Result<nat>)
    modifies buf
    ensures match Removed(old(buf[..]), header, index)
            case Ok(after) => r == PointerAt(old(buf[..]), header, index) && buf[..] == after
            case Err(e) => r == Err(e)
  {
    hide ShiftedLeft;
    var n :- NumCells(buf[..]);
    var offset :- PointerAt(buf[..], header, index);
    var _ :- ShiftPointersLeft(buf, header, index, n);
    var _ := WriteBytes(buf, 1, U16Bytes(if n >= 1 then n - 1 else 0));
    return Ok(offset);
  }

  lemma RemovedPointers(header: nat, s: Bytes, index: nat, s1: Bytes)
    requires header >= 5 && |s| >= header + CHECKSUM_LEN && Start(s) <= |s| - CHECKSUM_LEN
    requires index < Count(s) && header + 2 * Count(s) <= Start(s)
    requires s1 == if index + 1 < Count(s) then ShiftedLeft(s, header, index, Count(s) - 1) else s
    ensures |s1| == |s| && Start(s1) == Start(s)
    ensures s1[0] == s[0] && s1[5..header] == s[5..header] && s1[Start(s)..] == s[Start(s)..]
    ensures Pointers(header, s1, Count(s) - 1)
         == SeqRemove(Offsets(header, s), index)
  {
    forall j | 0 <= j < Count(s) - 1
      ensures U16(s1, header + 2 * j) == SeqRemove(Offsets(header, s), index)[j]
    {
      if index <= j {
        assert U16(s1, header + 2 * j) == U16(s, header + 2 * (j + 1));
      }
    }
  }

  lemma RemovedForm(header: nat, s: Bytes, index: nat, s1: Bytes)
    requires header >= 5 && |s| >= header + CHECKSUM_LEN && Start(s) <= |s| - CHECKSUM_LEN
    requires index < Count(s) && header + 2 * Count(s) <= Start(s)
    requires s1 == if index + 1 < Count(s) then ShiftedLeft(s, header, index, Count(s) - 1) else s
    requires Start(s1) == Start(s)
    ensures Removed(s, header, index) == Ok(WithHeader(s1, Count(s) - 1, Start(s)))
  {
    hide ShiftedLeft;
    CountWrite(s1, Count(s) - 1);
  }

  /** Where everything is after a removal. */
  lemma RemovedGeometry(header: nat, s: Bytes, index: nat, s1: Bytes)
    requires header >= 5 && |s| >= header + CHECKSUM_LEN && Start(s) <= |s| - CHECKSUM_LEN
    requires index < Count(s) && header + 2 * Count(s) <= Start(s)
    requires s1 == if index + 1 < Count(s) then ShiftedLeft(s, header, index, Count(s) - 1) else s
    ensures |s1| == |s| && Start(s1) == Start(s)
    ensures var t := WithHeader(s1, Count(s) - 1, Start(s));
      && t[0] == s[0] && t[5..header] == s[5..header] && t[Start(s)..] == s[Start(s)..]
      && Offsets(header, t) == SeqRemove(Offsets(header, s), index)
  {
    RemovedPointers(header, s, index, s1);
    HeaderOnly(header, s1, Count(s) - 1, Start(s), Start(s));
  }

  lemma SpansRemove(k: Kind, t: Bytes, offs: seq<nat>, lo: nat, index: nat)
    requires |t| >= CHECKSUM_LEN && index < |offs| && Spans(k, t, offs, lo)
    ensures Spans(k, t, SeqRemove(offs, index), lo)
    ensures CellsAt(k, t, SeqRemove(offs, index)) == SeqRemove(CellsAt(k, t, offs), index)
  {
    var o2 := SeqRemove(offs, index);
    forall i | 0 <= i < |o2|
      ensures o2[i] == if i < index then offs[i] else offs[i + 1]
    {
    }
    assert CellsAt(k, t, o2) == SeqRemove(CellsAt(k, t, offs), index);
  }

  /** Removing is removing from the sequence of cells; the content area keeps
      its size, so free space grows by one pointer only. */
  lemma RemovedRefines(k: Kind, s: Bytes, index: nat) returns (t: Bytes)
    requires Wf(k, s) && index < Count(s)
    ensures Removed(s, k.Header(), index) == Ok(t)
    ensures |t| == |s| && Wf(k, t) && Cells(k, t) == SeqRemove(Cells(k, s), index)
    ensures Start(t) == Start(s)
    ensures t[0] == s[0] && t[5..k.Header()] == s[5..k.Header()]
  {
    var s1 := if index + 1 < Count(s) then ShiftedLeft(s, k.Header(), index, Count(s) - 1) else s;
    RemovedGeometry(k.Header(), s, index, s1);
    RemovedForm(k.Header(), s, index, s1);
    t := WithHeader(s1, Count(s) - 1, Start(s));
    var offs := Offsets(k.Header(), s);
    SpansKept(k, s, t, offs, Start(s));
    SpansRemove(k, t, offs, Start(s), index);
  }
}
