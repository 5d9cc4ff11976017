/** Ascending row sequences as maps: the plain `map<i64, Row>` the tree refines. */
module RowMap {
  import opened Codec
  import opened RowCodec
  import opened Tree
  import opened TreeOps
  import opened Slotted

  function MapOf(es: seq<Entry>): map<i64, Row> {
    if |es| == 0 then map[]
    else MapOf(es[..|es| - 1])[es[|es| - 1].key := es[|es| - 1].row]
  }

  lemma {:induction false} MapConcat(a: seq<Entry>, b: seq<Entry>)
    ensures MapOf(a + b) == MapOf(a) + MapOf(b)
    decreases |b|
  {
    if |b| == 0 {
      assert a + b == a;
    } else {
      var n := |b| - 1;
      MapConcat(a, b[..n]);
      assert (a + b)[..|a + b| - 1] == a + b[..n];
    }
  }

  lemma {:induction false} MapKeys(es: seq<Entry>, key: i64)
    ensures key in MapOf(es) <==> exists i :: 0 <= i < |es| && es[i].key == key
  {
    if |es| > 0 {
      var n := |es| - 1;
      MapKeys(es[..n], key);
      if key in MapOf(es[..n]) {
        var i :| 0 <= i < n && es[..n][i].key == key;
        assert es[i].key == key;
      }
      if i :| 0 <= i < |es| && es[i].key == key {
        if i < n {
          assert es[..n][i].key == key;
        }
      }
    }
  }

  lemma {:induction false} MapLooksUp(es: seq<Entry>, i: nat)
    requires Ascending(es) && i < |es|
    ensures es[i].key in MapOf(es) && MapOf(es)[es[i].key] == es[i].row
  {
    var n := |es| - 1;
    if i < n {
      assert es[..n][i] == es[i];
      MapLooksUp(es[..n], i);
    }
  }

  lemma MapOne(e: Entry)
    ensures MapOf([e]) == map[e.key := e.row]
  {
    assert [e][..0] == [];
  }

  lemma AbsentAround(b: seq<Entry>, key: i64)
    requires AllBelow(b, key) || AllAbove(b, key)
    ensures key !in MapOf(b)
  {
    MapKeys(b, key);
  }

  /** Inserting a row between smaller and larger keys adds exactly that key. */
  lemma MapInsert(b: seq<Entry>, e: Entry, a: seq<Entry>)
    requires AllBelow(b, e.key) && AllAbove(a, e.key)
    ensures e.key !in MapOf(b + a)
    ensures MapOf(b + [e] + a) == MapOf(b + a)[e.key := e.row]
    ensures MapOf(b + a) == MapOf(b + [e] + a) - {e.key}
  {
    hide MapOf, AllBelow, AllAbove;
    MapConcat(b, a);
    MapConcat(b + [e], a);
    MapConcat(b, [e]);
    MapOne(e);
    AbsentAround(b, e.key);
    AbsentAround(a, e.key);
  }

  /** Rows as `scan` returns them. */
  function Listing(es: seq<Entry>): (l: seq<(i64, Row)>)
    ensures |l| == |es|
  {
    seq(|es|, i requires 0 <= i < |es| => (es[i].key, es[i].row))
  }

  /** A map has one ascending listing: `scan` is determined by the map. */
  lemma {:induction false} MapDetermines(a: seq<Entry>, b: seq<Entry>)
    requires Ascending(a) && Ascending(b) && MapOf(a) == MapOf(b)
    ensures Listing(a) == Listing(b)
    decreases |a|
  {
    if |a| == 0 {
      if |b| > 0 {
        MapKeys(b, b[0].key);
      }
    } else {
      var n, m := |a| - 1, |b| - 1;
      MapKeys(b, a[n].key);
      MapLooksUp(a, n);
      LastIsLargest(a, b);
      LastIsLargest(b, a);
      MapLooksUp(b, m);
      MapDropLast(a);
      MapDropLast(b);
      MapDetermines(a[..n], b[..m]);
      assert Listing(a) == Listing(a[..n]) + [(a[n].key, a[n].row)];
      assert Listing(b) == Listing(b[..m]) + [(b[m].key, b[m].row)];
    }
  }

  lemma LastIsLargest(a: seq<Entry>, b: seq<Entry>)
    requires |a| > 0 && |b| > 0 && Ascending(a) && Ascending(b) && MapOf(a) == MapOf(b)
    ensures a[|a| - 1].key <= b[|b| - 1].key
  {
    MapLooksUp(a, |a| - 1);
    MapKeys(b, a[|a| - 1].key);
  }

  lemma MapDropLast(a: seq<Entry>)
    requires |a| > 0 && Ascending(a)
    ensures MapOf(a[..|a| - 1]) == MapOf(a) - {a[|a| - 1].key}
  {
    MapKeys(a[..|a| - 1], a[|a| - 1].key);
  }

  // ------------------------------------------------------------------
  // Rows of a leaf among the rows of the tree.
  // ------------------------------------------------------------------

  lemma FoundRow(b: seq<Entry>, l: seq<Entry>, a: seq<Entry>, i: nat)
    requires Ascending(b + l + a) && i < |l|
    ensures l[i].key in MapOf(b + l + a) && MapOf(b + l + a)[l[i].key] == l[i].row
  {
    assert (b + l + a)[|b| + i] == l[i];
    MapLooksUp(b + l + a, |b| + i);
  }

  lemma StoredEntry(es: seq<Entry>, key: i64)
    requires Ascending(es) && key in MapOf(es)
    ensures exists x | x in es :: x.key == key && x.row == MapOf(es)[key]
  {
    hide MapOf;
    MapKeys(es, key);
    var i :| 0 <= i < |es| && es[i].key == key;
    MapLooksUp(es, i);
    assert es[i] in es;
  }

  lemma MissingRow(b: seq<Entry>, l: seq<Entry>, a: seq<Entry>, key: i64)
    requires AllBelow(b, key) && AllAbove(a, key) && forall j | 0 <= j < |l| :: l[j].key != key
    ensures key !in MapOf(b + l + a)
  {
    MapConcat(b + l, a);
    MapConcat(b, l);
    AbsentAround(b, key);
    AbsentAround(a, key);
    MapKeys(l, key);
  }

  /** Rows below, then above, `key`: the place for a row of that key. */
  predicate Parts(l: seq<Entry>, i: nat, key: i64) {
    i <= |l| && AllBelow(l[..i], key) && AllAbove(l[i..], key)
  }

  /** `es` after storing `row` under `key`: the map gains exactly that pair, and
      no other stored row, cost included, is touched. */
  ghost predicate PutRow(before: seq<Entry>, after: seq<Entry>, e: Entry) {
    && MapOf(after) == MapOf(before)[e.key := e.row]
    && e in after && forall x | x in after :: x in before || x == e
  }

  ghost predicate DropRow(before: seq<Entry>, after: seq<Entry>, key: i64) {
    && MapOf(after) == MapOf(before) - {key}
    && forall x | x in after :: x in before
  }

  lemma RowInserted(b: seq<Entry>, l: seq<Entry>, a: seq<Entry>, i: nat, e: Entry)
    requires AllBelow(b, e.key) && AllAbove(a, e.key) && Parts(l, i, e.key)
    ensures PutRow(b + l + a, b + SeqInsert(l, i, e) + a, e)
    ensures e.key !in MapOf(b + l + a)
    ensures MapOf(b + l + a) == MapOf(b + SeqInsert(l, i, e) + a) - {e.key}
  {
    hide MapOf, AllBelow, AllAbove;
    var b', a' := b + l[..i], l[i..] + a;
    Joined(b, l[..i], e.key);
    Joined(l[i..], a, e.key);
    MapInsert(b', e, a');
    assert b + l + a == b' + a';
    assert b + SeqInsert(l, i, e) + a == b' + [e] + a';
  }

  lemma RowDropped(b: seq<Entry>, l: seq<Entry>, a: seq<Entry>, i: nat)
    requires i < |l| && AllBelow(b, l[i].key) && AllAbove(a, l[i].key) && Parts(SeqRemove(l, i), i, l[i].key)
    ensures DropRow(b + l + a, b + SeqRemove(l, i) + a, l[i].key)
  {
    hide MapOf, AllBelow, AllAbove, Parts;
    assert |SeqRemove(l, i)| == |l| - 1;
    assert SeqInsert(SeqRemove(l, i), i, l[i]) == l;
    RowInserted(b, SeqRemove(l, i), a, i, l[i]);
    assert forall x | x in SeqRemove(l, i) :: x in l;
  }

  lemma RowReplaced(b: seq<Entry>, l: seq<Entry>, a: seq<Entry>, i: nat, e: Entry)
    requires i < |l| && l[i].key == e.key
    requires AllBelow(b, e.key) && AllAbove(a, e.key) && Parts(SeqRemove(l, i), i, e.key)
    ensures |SeqRemove(l, i)| == |l| - 1
    ensures PutRow(b + l + a, b + SeqInsert(SeqRemove(l, i), i, e) + a, e)
  {
    hide MapOf, AllBelow, AllAbove, Parts;
    assert |SeqRemove(l, i)| == |l| - 1;
    RowDropped(b, l, a, i);
    RowInserted(b, SeqRemove(l, i), a, i, e);
  }
}
