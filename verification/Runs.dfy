/** Whole runs: any number of calls, in any order, against a plain map; and a
    crash at any point of them. */
module Runs {
  import opened Errors
  import opened Codec
  import opened Page
  import opened Disk
  import opened PagerModel
  import opened RowCodec
  import opened Pool
  import opened Tree
  import opened RowMap
  import opened Recovery
  import opened Room
  import opened TreeRead
  import opened TreeWrite
  import opened SplitBound

  type Table = map<i64, Row>

  /** One call and what it returned. */
  datatype Event =
    | Inserted(key: i64, row: Row, stored: Result<u32>)
    | Updated(key: i64, row: Row, stored: Result<u32>)
    | Deleted(key: i64, dropped: Result<(u32, Row)>)
    | Got(key: i64, got: Result<Option<Row>>)
    | Scanned(rows: Result<seq<(i64, Row)>>)

  /** The contract of the method that was called. */
  ghost predicate EventStep(e: Engine, ev: Event, e': Engine)
    requires Sane(e)
  {
    match ev
    case Inserted(key, row, r) => StoreStep(e, key, row, false, r, e')
    case Updated(key, row, r) => StoreStep(e, key, row, true, r, e')
    case Deleted(key, r) => DeleteStep(e, key, r, e')
    case Got(key, r) => r == Ok(Lookup(MapOf(StoredRows(e)), key)) && ReadOnly(e, e')
    case Scanned(r) => r == Ok(Listing(StoredRows(e))) && ReadOnly(e, e')
  }

  /** A store that returned success was admitted. */
  ghost predicate Admitted(e: Engine, ev: Event) {
    match ev
    case Inserted(key, row, Ok(_)) => Admits(e, key, row, false)
    case Updated(key, row, Ok(_)) => Admits(e, key, row, true)
    case _ => true
  }

  // ------------------------------------------------------------------
  // The plain map.
  // ------------------------------------------------------------------

  function Apply(t: Table, ev: Event): Table {
    match ev
    case Inserted(key, row, Ok(_)) => t[key := row]
    case Updated(key, row, Ok(_)) => t[key := row]
    case Deleted(key, Ok(_)) => t - {key}
    case _ => t
  }

  /** The row has no encoding, or ids or room ran out. */
  predicate CannotStore(row: Row, error: Error) {
    if EncodeRow(row).Err? then error == PayloadTooLarge else error.OutOfRoom()
  }

  /** The answers a map would give. */
  ghost predicate Conforms(t: Table, ev: Event) {
    match ev
    case Inserted(key, row, r) =>
      && (r.Ok? ==> key !in t) && (r == Err(KeyAlreadyExists) <==> key in t)
      && (r.Err? && key !in t ==> CannotStore(row, r.error))
    case Updated(key, row, r) =>
      && (r.Ok? ==> key in t) && (r == Err(KeyNotFound) <==> key !in t)
      && (r.Err? && key in t ==> CannotStore(row, r.error))
    case Deleted(key, r) =>
      && (r.Ok? ==> key in t && r.value.1 == t[key])
      && (r == Err(KeyNotFound) <==> key !in t)
      && (r.Err? && key in t ==> r.error == ArithmeticOverflow)
    case Got(key, r) => r == Ok(Lookup(t, key))
    case Scanned(r) => exists rows :: Ascending(rows) && MapOf(rows) == t && r == Ok(Listing(rows))
  }

  function After(t: Table, evs: seq<Event>): Table {
    if |evs| == 0 then t else Apply(After(t, evs[..|evs| - 1]), evs[|evs| - 1])
  }

  // ------------------------------------------------------------------
  // Runs refine the map exactly when their stores are admitted.
  // ------------------------------------------------------------------

  /** Engine states before, between and after the calls. A call made while what
      is stored is a tree keeps its contract. */
  ghost predicate IsRun(es: seq<Engine>, evs: seq<Event>) {
    && |es| == |evs| + 1 && Sane(es[0])
    && forall k | 0 <= k < |evs| :: Sane(es[k]) ==> EventStep(es[k], evs[k], es[k + 1])
  }

  /** One call answers from the map whatever happens, and does to it what it says
      if and only if it was admitted. */
  lemma StepRefinesIff(e: Engine, ev: Event, e': Engine)
    requires Sane(e) && EventStep(e, ev, e')
    ensures Moves(e, e') && Conforms(MapOf(StoredRows(e)), ev)
    ensures Admitted(e, ev) <==> Sane(e') && MapOf(StoredRows(e')) == Apply(MapOf(StoredRows(e)), ev)
  {
    hide Moves, Sound, Rows, MapOf, Listing, Admits, EncodeRow, Decoded, StoreFate, PutRow;
    RowsAscending(e.meta.pageSize, Committed(e), e.meta.root);
    hide Ascending;
  }

  ghost predicate AllAdmitted(es: seq<Engine>, evs: seq<Event>, k: nat)
    requires k <= |evs| < |es|
  {
    forall i | 0 <= i < k :: Sane(es[i]) ==> Admitted(es[i], evs[i])
  }

  /** After each of the first `k` calls a tree is stored that holds the map those
      calls make of the first one. */
  ghost predicate Faithful(es: seq<Engine>, evs: seq<Event>, k: nat)
    requires k <= |evs| < |es|
  {
    Sane(es[0]) && forall i | 0 <= i <= k :: MapIs(es[i], After(MapOf(StoredRows(es[0])), evs[..i]))
  }

  ghost predicate MapIs(e: Engine, t: Table) {
    Sane(e) && MapOf(StoredRows(e)) == t
  }

  lemma NextIs(es: seq<Engine>, evs: seq<Event>, t: Table, k: nat)
    requires IsRun(es, evs) && k < |evs| && MapIs(es[k], After(t, evs[..k]))
    ensures Admitted(es[k], evs[k]) <==> MapIs(es[k + 1], After(t, evs[..k + 1]))
    ensures Conforms(After(t, evs[..k]), evs[k])
  {
    hide EventStep, Admitted, Sane, MapOf, Conforms, Apply, StoredRows;
    assert evs[..k + 1][..k] == evs[..k];
    StepRefinesIff(es[k], evs[k], es[k + 1]);
  }

  /** A run refines the map if and only if its successful stores were admitted;
      and then every answer is the one the map gives. */
  lemma {:induction false} RunRefinesIff(es: seq<Engine>, evs: seq<Event>, k: nat)
    requires IsRun(es, evs) && k <= |evs|
    ensures AllAdmitted(es, evs, k) <==> Faithful(es, evs, k)
    ensures Faithful(es, evs, k) ==>
      forall i | 0 <= i < k :: Conforms(After(MapOf(StoredRows(es[0])), evs[..i]), evs[i])
  {
    hide EventStep, Admitted, Sane, MapOf, Conforms, MapIs, StoredRows, After;
    if k == 0 {
      FaithfulStart(es, evs);
    } else {
      RunRefinesIff(es, evs, k - 1);
      FaithfulBefore(es, evs, k);
      if Faithful(es, evs, k - 1) {
        var t := MapOf(StoredRows(es[0]));
        assert MapIs(es[k - 1], After(t, evs[..k - 1]));
        NextIs(es, evs, t, k - 1);
        SaneMap(es[k - 1], After(t, evs[..k - 1]));
      }
    }
  }

  lemma SaneMap(e: Engine, t: Table)
    requires MapIs(e, t)
    ensures Sane(e)
  {
    hide Sane;
  }

  lemma FaithfulStart(es: seq<Engine>, evs: seq<Event>)
    requires |es| == |evs| + 1 && Sane(es[0])
    ensures Faithful(es, evs, 0)
  {
    hide Sane, MapOf;
    assert evs[..0] == [];
  }

  lemma FaithfulBefore(es: seq<Engine>, evs: seq<Event>, k: nat)
    requires 0 < k <= |evs| < |es|
    ensures Faithful(es, evs, k) ==> Faithful(es, evs, k - 1)
    ensures AllAdmitted(es, evs, k) ==> AllAdmitted(es, evs, k - 1)
  {
    hide MapIs, Admitted, Sane;
  }

  // ------------------------------------------------------------------
  // Crashes anywhere in a run.
  // ------------------------------------------------------------------

  /** A crash in `s` shows the transaction between two of the first `k` calls. */
  ghost predicate ShowsSome(es: seq<Engine>, k: nat, s: DiskState)
    requires k < |es|
  {
    forall img | CrashImage(es[0].hash, s, img) :: exists i | 0 <= i <= k :: Shows(es[i], img)
  }

  ghost predicate RunSafe(es: seq<Engine>, k: nat) {
    && k < |es| && es[k].hash == es[0].hash && es[k].meta.pageSize == es[0].meta.pageSize
    && es[0].since <= es[k].since && Settled(es[k])
    && (forall j | es[0].since <= j < |es[k].trace| :: ShowsSome(es, k, es[k].trace[j]))
    && SafeFrom(es[k].trace, es[k].since, es[k], es[k])
  }

  lemma LongerRun(es: seq<Engine>, k: nat, s: DiskState)
    requires k + 1 < |es|
    requires ShowsSome(es, k, s) || (es[k].hash == es[0].hash && CrashShows(s, es[k], es[k + 1]))
    ensures ShowsSome(es, k + 1, s)
  {
    hide Shows, CrashImage;
    forall img | CrashImage(es[0].hash, s, img)
      ensures exists i | 0 <= i <= k + 1 :: Shows(es[i], img)
    {
      if ShowsSome(es, k, s) {
        var i :| 0 <= i <= k && Shows(es[i], img);
      } else {
        assert Shows(es[k], img) || Shows(es[k + 1], img);
      }
    }
  }

  lemma NextSafe(es: seq<Engine>, k: nat)
    requires RunSafe(es, k) && k + 1 < |es| && Moves(es[k], es[k + 1])
    ensures RunSafe(es, k + 1)
  {
    hide Shows, CrashShows, Passes, ShowsSome, Settled;
    var e, e' := es[k], es[k + 1];
    forall j | es[0].since <= j < |e'.trace|
      ensures ShowsSome(es, k + 1, e'.trace[j])
    {
      if j < e.since {
        SettledSince(e);
        assert e'.trace[j] == e.trace[j];
      }
      LongerRun(es, k, e'.trace[j]);
    }
  }

  lemma SettledSince(e: Engine)
    requires Settled(e)
    ensures e.since < |e.trace|
  {
  }

  lemma StartSafe(es: seq<Engine>)
    requires |es| > 0 && Settled(es[0])
    ensures RunSafe(es, 0)
  {
    hide Shows, CrashImage, Passes;
    SettledIsSafe(es[0]);
    hide Settled;
    forall j | es[0].since <= j < |es[0].trace|
      ensures ShowsSome(es, 0, es[0].trace[j])
    {
      assert CrashShows(es[0].trace[j], es[0], es[0]);
    }
  }

  /** A crash at any point of a run, its stores admitted or not, shows one of the
      transactions between its calls with all its pages, and after the last call
      only the one that call left. */
  lemma {:induction false} RunIsCrashSafe(es: seq<Engine>, evs: seq<Event>, k: nat)
    requires IsRun(es, evs) && k <= |evs| && Settled(es[0]) && forall i | 0 <= i < k :: Sane(es[i])
    ensures RunSafe(es, k)
  {
    hide EventStep, Admitted, Sane, Settled, Moves;
    if k == 0 {
      StartSafe(es);
    } else {
      RunIsCrashSafe(es, evs, k - 1);
      StepRefinesIff(es[k - 1], evs[k - 1], es[k]);
      NextSafe(es, k - 1);
    }
  }

  // ------------------------------------------------------------------
  // Runs of rows in a size ratio are admitted.
  // ------------------------------------------------------------------

  /** Rows to be stored cost between `m` and `n`. */
  predicate Sized(ps: PageSize, ev: Event, m: nat, n: nat) {
    (ev.Inserted? || ev.Updated?) && EncodeRow(ev.row).Ok? ==>
      |EncodeRow(ev.row).value| <= U32_MAX && m <= RowCost(ps, ev.row) <= n
  }

  ghost predicate SizedStart(e: Engine, m: nat, n: nat) {
    Sane(e) && EntriesIn(StoredRows(e), m, n) && SizeRatio(e.meta.pageSize, m, n)
  }

  /** Row sizes stay in range, and every store is admitted. */
  lemma SizedStep(e: Engine, ev: Event, e': Engine, m: nat, n: nat)
    requires SizedStart(e, m, n) && EventStep(e, ev, e') && Sized(e.meta.pageSize, ev, m, n)
    ensures Admitted(e, ev) && SizedStart(e', m, n) && e'.meta.pageSize == e.meta.pageSize
  {
    hide SafeFrom, Sound, Rows, MapOf, Listing, Admits, EncodeRow, SizeRatio, Decoded, StoreFate, Settled;
    match ev
    case Inserted(key, row, r) =>
      RatioAdmits(e, key, row, false, m, n);
    case Updated(key, row, r) =>
      if key in MapOf(StoredRows(e)) {
        RatioAdmits(e, key, row, true, m, n);
      }
    case _ =>
  }

  lemma {:induction false} SizedPrefix(es: seq<Engine>, evs: seq<Event>, m: nat, n: nat, k: nat)
    requires IsRun(es, evs) && k <= |evs| && SizedStart(es[0], m, n)
    requires forall i | 0 <= i < |evs| :: Sized(es[0].meta.pageSize, evs[i], m, n)
    ensures SizedStart(es[k], m, n) && es[k].meta.pageSize == es[0].meta.pageSize && AllAdmitted(es, evs, k)
  {
    hide EventStep, Admitted, Sane, StoredRows, EntriesIn, Sized, SizeRatio;
    if k > 0 {
      SizedPrefix(es, evs, m, n, k - 1);
      SizedStep(es[k - 1], evs[k - 1], es[k], m, n);
    }
  }

  /** With row sizes in the ratio every run refines the map. */
  lemma SizedRunRefines(es: seq<Engine>, evs: seq<Event>, m: nat, n: nat)
    requires IsRun(es, evs) && SizedStart(es[0], m, n)
    requires forall i | 0 <= i < |evs| :: Sized(es[0].meta.pageSize, evs[i], m, n)
    ensures Faithful(es, evs, |evs|)
  {
    hide EventStep, Admitted, Sane, StoredRows, EntriesIn, Sized, SizeRatio;
    SizedPrefix(es, evs, m, n, |evs|);
    RunRefinesIff(es, evs, |evs|);
  }

  // ------------------------------------------------------------------
  // Executions.
  // ------------------------------------------------------------------

  datatype Call =
    | Insert(key: i64, row: Row)
    | Update(key: i64, row: Row)
    | Delete(key: i64)
    | Get(key: i64)
    | Scan

  predicate SizedCall(ps: PageSize, call: Call, m: nat, n: nat) {
    (call.Insert? || call.Update?) && EncodeRow(call.row).Ok? ==>
      |EncodeRow(call.row).value| <= U32_MAX && m <= RowCost(ps, call.row) <= n
  }

  predicate Answers(call: Call, ev: Event) {
    match call
    case Insert(key, row) => ev.Inserted? && ev.key == key && ev.row == row
    case Update(key, row) => ev.Updated? && ev.key == key && ev.row == row
    case Delete(key) => ev.Deleted? && ev.key == key
    case Get(key) => ev.Got? && ev.key == key
    case Scan => ev.Scanned?
  }

  /** One method of `Database`. */
  method Perform(pool: BufferPool, call: Call) returns (ev: Event)
    requires pool.Valid() && Sane(Snap(pool))
    modifies pool, pool.pager, pool.pager.file
    ensures pool.Valid() && Answers(call, ev)
    ensures EventStep(old(Snap(pool)), ev, Snap(pool))
  {
    hide BufferPool.Inv, Sound, Rows, StoreStep, DeleteStep, Changes;
    match call
    case Insert(key, row) =>
      var r := TreeWrite.Insert(pool, key, row);
      ev := Inserted(key, row, r);
    case Update(key, row) =>
      var r := TreeWrite.Update(pool, key, row);
      ev := Updated(key, row, r);
    case Delete(key) =>
      var r := TreeWrite.Delete(pool, key);
      ev := Deleted(key, r);
    case Get(key) =>
      var r := TreeRead.Get(pool, key);
      ev := Got(key, r);
    case Scan =>
      var r := TreeRead.Scan(pool);
      ev := Scanned(r);
  }

  /** A client's session: its calls make a run of the engine that refines the
      map, from the first state to the last. */
  method Session(pool: BufferPool, calls: seq<Call>, ghost m: nat, ghost n: nat)
    returns (evs: seq<Event>, ghost es: seq<Engine>)
    requires pool.Valid() && SizedStart(Snap(pool), m, n)
    requires forall i | 0 <= i < |calls| :: SizedCall(pool.pager.pageSize, calls[i], m, n)
    modifies pool, pool.pager, pool.pager.file
    ensures pool.Valid() && SizedStart(Snap(pool), m, n)
    ensures |evs| == |calls| && forall i | 0 <= i < |calls| :: Answers(calls[i], evs[i])
    ensures IsRun(es, evs) && es[0] == old(Snap(pool)) && es[|evs|] == Snap(pool)
    ensures Faithful(es, evs, |evs|)
  {
    hide BufferPool.Inv, Sane, EventStep, StoredRows, EntriesIn, SizeRatio, EncodeRow, RowCost, Faithful;
    evs, es := [], [Snap(pool)];
    for i := 0 to |calls|
      invariant pool.Valid() && SizedStart(Snap(pool), m, n)
      invariant |evs| == i && forall j | 0 <= j < i :: Answers(calls[j], evs[j])
      invariant IsRun(es, evs) && es[0] == old(Snap(pool)) && es[i] == Snap(pool)
      invariant pool.pager.pageSize == es[0].meta.pageSize
      invariant forall j | 0 <= j < i :: Sized(es[0].meta.pageSize, evs[j], m, n)
    {
      ghost var e := Snap(pool);
      var ev := Perform(pool, calls[i]);
      SizedStep(e, ev, Snap(pool), m, n);
      evs, es := evs + [ev], es + [Snap(pool)];
    }
    SizedRunRefines(es, evs, m, n);
  }

  // ------------------------------------------------------------------
  // Lifetimes: runs with any number of crashes.
  // ------------------------------------------------------------------

  /** A call that returned, or one a crash cut short, followed by a reopen. */
  datatype Stage = Returned(ev: Event) | CutShort(ev: Event)

  ghost predicate StageStep(e: Engine, st: Stage, e': Engine)
    requires Sane(e)
  {
    match st
    case Returned(ev) => EventStep(e, ev, e')
    case CutShort(ev) => exists e1 :: EventStep(e, ev, e1) && (Resumes(e, e') || Resumes(e1, e'))
  }

  /** A power cut in any disk state of a call, and reopening what it left: the
      engine resumes the transaction before the call or the one after it, and
      only the one after once the call has committed. */
  method AfterPowerCut(img: Bytes, capacity: nat, h: Hash, ghost e: Engine, ghost ev: Event, ghost e1: Engine, ghost j: nat)
    returns (r: Result<BufferPool>)
    requires Sane(e) && Settled(e) && EventStep(e, ev, e1) && h == e.hash
    requires e.since <= j < |e1.trace| && CrashImage(h, e1.trace[j], img)
    ensures capacity == 0 ==> r == Err(InvalidBufferPoolCapacity)
    ensures capacity > 0 ==>
      && r.Ok? && r.value.Valid() && StageStep(e, CutShort(ev), Snap(r.value))
      && (j >= e1.since ==> Resumes(e1, Snap(r.value)))
  {
    hide BufferPool.Inv, EventStep, Sane, Settled, Shows, CrashImage, Resumes, Passes;
    StepRefinesIff(e, ev, e1);
    ghost var first := if j >= e1.since then e1 else e;
    assert CrashShows(e1.trace[j], first, e1);
    r := ReopenImage(img, capacity, first, e1, h);
  }

  /** The process died in any disk state of a call, and the file is opened again
      as it is. If its meta slots are durable the engine resumes. */
  method AfterProcessDeath(file: File, capacity: nat, h: Hash, ghost e: Engine, ghost ev: Event, ghost e1: Engine, ghost j: nat)
    returns (r: Result<BufferPool>)
    requires Sane(e) && Settled(e) && EventStep(e, ev, e1) && h == e.hash
    requires file.Valid() && e.since <= j < |e1.trace| && file.State() == e1.trace[j]
    requires OpenMeta(h, file.durable) == OpenMeta(h, file.data)
    ensures capacity == 0 ==> r == Err(InvalidBufferPoolCapacity)
    ensures capacity > 0 ==> r.Ok? && r.value.Valid() && StageStep(e, CutShort(ev), Snap(r.value))
  {
    hide BufferPool.Inv, EventStep, Sane, CrashShows, Passes, Finds, OpenMeta, QuietFor, Coherent, AllQuiet, Resumes;
    StepRefinesIff(e, ev, e1);
    assert Passes(e1.trace[j], e, e1);
    assert Coherent(e1.trace[j]);
    DeadProcess(e, e1, file.State());
    ghost var now := if QuietFor(e, file.State()) && Shows(e, file.data) then e else e1;
    r := OpenEngine(h, file, capacity, now);
  }

  ghost predicate IsLife(es: seq<Engine>, sts: seq<Stage>) {
    && |es| == |sts| + 1 && Sane(es[0])
    && forall k | 0 <= k < |sts| :: Sane(es[k]) ==>
         StageStep(es[k], sts[k], es[k + 1]) && StageAdmitted(es[k], sts[k], es[k + 1])
  }

  /** A store was admitted, or a crash undid it. */
  ghost predicate StageAdmitted(e: Engine, st: Stage, e': Engine) {
    Admitted(e, st.ev) || (st.CutShort? && Resumes(e, e'))
  }

  lemma ResumedRows(e: Engine, e': Engine)
    requires Resumes(e, e')
    ensures Sane(e') <==> Sane(e)
    ensures Sane(e) ==> StoredRows(e') == StoredRows(e)
  {
    hide Settled, Sound, Rows, Decoded;
  }

  /** A call that returned took effect; one that was cut short took effect
      entirely or not at all. */
  lemma StageRefines(e: Engine, st: Stage, e': Engine)
    requires Sane(e) && StageStep(e, st, e') && StageAdmitted(e, st, e')
    ensures Sane(e')
    ensures MapOf(StoredRows(e')) == Apply(MapOf(StoredRows(e)), st.ev)
      || (st.CutShort? && MapOf(StoredRows(e')) == MapOf(StoredRows(e)))
  {
    hide EventStep, Admitted, Sane, MapOf, StoredRows, Apply, Resumes;
    match st
    case Returned(ev) =>
      StepRefinesIff(e, ev, e');
    case CutShort(ev) =>
      if Resumes(e, e') {
        ResumedRows(e, e');
      } else {
        var e1 :| EventStep(e, ev, e1) && Resumes(e1, e');
        StepRefinesIff(e, ev, e1);
        ResumedRows(e1, e');
      }
  }

  function Surviving(t: Table, sts: seq<Stage>, kept: seq<bool>): Table
    requires |kept| == |sts|
  {
    if |sts| == 0 then t
    else
      var n := |sts| - 1;
      var before := Surviving(t, sts[..n], kept[..n]);
      if kept[n] then Apply(before, sts[n].ev) else before
  }

  /** Over any number of calls and crashes the stored map is the effect of every
      call that returned, in order, and of some of those cut short. */
  lemma {:induction false} LifeRefines(es: seq<Engine>, sts: seq<Stage>, k: nat) returns (kept: seq<bool>)
    requires IsLife(es, sts) && k <= |sts|
    ensures Sane(es[0]) && Sane(es[k])
    ensures |kept| == k && forall i | 0 <= i < k :: sts[i].Returned? ==> kept[i]
    ensures MapOf(StoredRows(es[k])) == Surviving(MapOf(StoredRows(es[0])), sts[..k], kept)
  {
    hide StageStep, StageAdmitted, Sane, MapOf, StoredRows, Apply;
    if k == 0 {
      return [];
    }
    var before := LifeRefines(es, sts, k - 1);
    var e, st, e' := es[k - 1], sts[k - 1], es[k];
    StageRefines(e, st, e');
    kept := before + [MapOf(StoredRows(e')) == Apply(MapOf(StoredRows(e)), st.ev)];
    assert kept[..k - 1] == before && sts[..k][..k - 1] == sts[..k - 1];
  }
}
