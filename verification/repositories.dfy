/** The versioned store: the `worker` and `resource` tables, the two identity
    sequences, and the repository operations over them.

    A table is a map from its primary key to the rest of the row, so the
    primary-key constraint holds by construction and an insert that would
    break it is reported as an error. */
module Repositories {
  import opened Results
  import opened Models
  import opened Validation

  /** The primary key of the `resource` table: `(RID, version)`. */
  type Key = (int, int)

  /** The non-key columns of a `worker` row. */
  datatype WorkerRow = WorkerRow(name: string, org: string, workerType: string)

  /** The non-key columns of a `resource` row. */
  datatype ResourceRow = ResourceRow(wid: int, resStart: Date, resEnd: Date, procStart: DateTime, procEnd: DateTime)

  /** The database: both tables, the value the WID serial hands out next, and
      the value `nextval('resource_rid_seq')` returns next.  Sequences are not
      transactional: a value once handed out is never handed out again, even
      when the transaction that drew it rolls back. */
  datatype Store = Store(
    workers: map<int, WorkerRow>,
    resources: map<Key, ResourceRow>,
    nextWid: int,
    nextRid: int)

  /** Freshly created schema: empty tables, both sequences starting at 1. */
  const EmptyStore: Store := Store(map[], map[], 1, 1)

  /** The state after an operation together with its outcome.  A failed
      operation leaves the tables as they were but may have drawn sequence values. */
  datatype Step<+T> = Step(store: Store, result: Result<T>)

  function WorkerOf(wid: int, row: WorkerRow): Worker {
    Worker(wid, row.name, row.org, row.workerType)
  }

  function ResourceOf(k: Key, row: ResourceRow): Resource {
    Resource(k.0, k.1, row.wid, row.resStart, row.resEnd, row.procStart, row.procEnd)
  }

  function RowOf(r: Resource): ResourceRow {
    ResourceRow(r.wid, r.resStart, r.resEnd, r.procStart, r.procEnd)
  }

  /** The stored version at key `k`, as a record. */
  function ResourceAt(st: Store, k: Key): Resource
    requires k in st.resources
  {
    ResourceOf(k, st.resources[k])
  }

  // ---------------------------------------------------------------------------
  // WorkerRepository
  // ---------------------------------------------------------------------------

  /** The string contains no U+0000, so the database driver can send it. */
  predicate NulFree(s: string) {
    forall i | 0 <= i < |s| :: s[i] != '\0'
  }

  /** The driver can send every column of the worker row.  psycopg2 refuses a
      string holding U+0000 while adapting the parameters, so such an insert
      fails before it reaches the server and draws nothing from the serial. */
  predicate Sendable(row: WorkerRow) {
    NulFree(row.name) && NulFree(row.org) && NulFree(row.workerType)
  }

  /** `WorkerRepository.create`: draws the next WID from the serial and inserts
      the worker under it.  The serial advances even when the insert fails on
      the server; a row the driver cannot send fails before anything is drawn. */
  function CreateWorker(st: Store, name: string, org: string, workerType: string): (s: Step<int>)
    ensures !Sendable(WorkerRow(name, org, workerType)) ==> s == Step(st, Err(NulCharacter))
    ensures Sendable(WorkerRow(name, org, workerType)) ==> s.store.nextWid == st.nextWid + 1
    ensures s.store.nextRid == st.nextRid && s.store.resources == st.resources
    ensures s.result.Ok? <==> Sendable(WorkerRow(name, org, workerType)) && st.nextWid !in st.workers
    ensures s.result.Ok? ==>
              && s.result.value == st.nextWid
              && s.store.workers == st.workers[s.result.value := WorkerRow(name, org, workerType)]
    ensures s.result.Err? ==> s.store.workers == st.workers
    ensures s.result.Err? && Sendable(WorkerRow(name, org, workerType)) ==> s.result.error == DuplicateWorker(st.nextWid)
  {
    var row := WorkerRow(name, org, workerType);
    if !Sendable(row) then
      Step(st, Err(NulCharacter))
    else
      var wid := st.nextWid;
      var drawn := st.(nextWid := wid + 1);
      if wid in st.workers then
        Step(drawn, Err(DuplicateWorker(wid)))
      else
        Step(drawn.(workers := st.workers[wid := row]), Ok(wid))
  }

  /** The number of rows the driver can send. */
  function SendableCount(rows: seq<WorkerRow>): (n: nat)
    ensures n <= |rows|
    ensures n == |rows| <==> forall i | 0 <= i < |rows| :: Sendable(rows[i])
    decreases |rows|
  {
    if |rows| == 0 then
      0
    else
      assert forall i | 1 <= i < |rows| :: rows[i] == rows[1..][i - 1];
      (if Sendable(rows[0]) then 1 else 0) + SendableCount(rows[1..])
  }

  /** Successive `WorkerRepository.create` calls: the WIDs of the inserts that
      succeeded, in call order.  They are strictly increasing, hence pairwise
      distinct, and all drawn from the serial during these calls, which draw
      one WID per row the driver can send. */
  function CreateWorkers(st: Store, rows: seq<WorkerRow>): (out: (Store, seq<int>))
    ensures st.nextWid <= out.0.nextWid <= st.nextWid + |rows|
    ensures (forall i | 0 <= i < |rows| :: Sendable(rows[i])) ==> out.0.nextWid == st.nextWid + |rows|
    ensures out.0.nextWid == st.nextWid + SendableCount(rows)
    ensures forall w | w in st.workers :: w in out.0.workers && out.0.workers[w] == st.workers[w]
    ensures forall i, j | 0 <= i < j < |out.1| :: out.1[i] < out.1[j]
    ensures forall i | 0 <= i < |out.1| :: st.nextWid <= out.1[i] < out.0.nextWid
    ensures forall i | 0 <= i < |out.1| :: out.1[i] in out.0.workers
    decreases |rows|
  {
    if |rows| == 0 then
      (st, [])
    else
      var s := CreateWorker(st, rows[0].name, rows[0].org, rows[0].workerType);
      var rest := CreateWorkers(s.store, rows[1..]);
      assert (forall i | 0 <= i < |rows| :: Sendable(rows[i])) ==> (forall i | 0 <= i < |rows[1..]| :: Sendable(rows[1..][i]));
      if s.result.Ok? then (rest.0, [s.result.value] + rest.1) else rest
  }

  /** `WorkerRepository.get_by_wid`. */
  function GetByWid(st: Store, wid: int): (r: Option<Worker>)
    ensures r.Some? <==> wid in st.workers
    ensures r.Some? ==> r.value.wid == wid && r.value == WorkerOf(wid, st.workers[wid])
  {
    if wid in st.workers then Some(WorkerOf(wid, st.workers[wid])) else None
  }

  /** `WorkerRepository.exists`: holds exactly when `get_by_wid` finds a worker. */
  function Exists(st: Store, wid: int): (b: bool)
    ensures b <==> GetByWid(st, wid).Some?
  {
    wid in st.workers
  }

  /** A worker inserted by `create` is found by `get_by_wid` with the given
      attributes, and every other lookup answers as before. */
  lemma CreateWorkerThenGet(st: Store, name: string, org: string, workerType: string, other: int)
    requires CreateWorker(st, name, org, workerType).result.Ok?
    ensures var s := CreateWorker(st, name, org, workerType);
            && GetByWid(s.store, s.result.value) == Some(Worker(s.result.value, name, org, workerType))
            && Exists(s.store, s.result.value)
            && (other != s.result.value ==> GetByWid(s.store, other) == GetByWid(st, other))
  {
  }

  // ---------------------------------------------------------------------------
  // ResourceRepository
  // ---------------------------------------------------------------------------

  /** The `INSERT INTO resource` statement: fails on a taken primary key, then
      on a WID with no worker row (the foreign key). */
  function InsertResource(st: Store, k: Key, row: ResourceRow): (r: Result<Store>)
    ensures r.Ok? <==> k !in st.resources && row.wid in st.workers
    ensures r.Ok? ==> r.value == st.(resources := st.resources[k := row])
    ensures k in st.resources ==> r == Err(DuplicateKey(k.0, k.1))
    ensures k !in st.resources && row.wid !in st.workers ==> r == Err(ForeignKeyViolation(row.wid))
  {
    if k in st.resources then Err(DuplicateKey(k.0, k.1))
    else if row.wid !in st.workers then Err(ForeignKeyViolation(row.wid))
    else Ok(st.(resources := st.resources[k := row]))
  }

  /** The arguments of `ResourceRepository.create` pass its validation: all
      five present and both ranges ordered. */
  predicate ResourceArgsValid(wid: Option<int>, resStart: Option<Date>, resEnd: Option<Date>,
                              procStart: Option<DateTime>, procEnd: Option<DateTime>)
  {
    && wid.Some? && resStart.Some? && resEnd.Some? && procStart.Some? && procEnd.Some?
    && resStart.value <= resEnd.value
    && procStart.value <= procEnd.value
  }

  /** The checks `ResourceRepository.create` runs, in the order it runs them. */
  function ResourceValidation(wid: Option<int>, resStart: Option<Date>, resEnd: Option<Date>,
                              procStart: Option<DateTime>, procEnd: Option<DateTime>): (c: Check)
    ensures c.Pass? <==> ResourceArgsValid(wid, resStart, resEnd, procStart, procEnd)
    ensures c.Fail? ==> c.error.ValidationError?
  {
    ValidateRequiredField(IntValue(wid), "wid")
      .Then(ValidateRequiredField(IntValue(resStart), "res_start"))
      .Then(ValidateRequiredField(IntValue(resEnd), "res_end"))
      .Then(ValidateRequiredField(IntValue(procStart), "proc_start"))
      .Then(ValidateRequiredField(IntValue(procEnd), "proc_end"))
      .Then(ValidateBusinessTimeRange(resStart, resEnd))
      .Then(ValidateProcessingTimeRange(procStart, procEnd))
  }

  /** `ResourceRepository.create`: validates, then draws a RID and inserts the
      row as version 1.  Invalid arguments are rejected before the RID is drawn. */
  function CreateResource(st: Store, wid: Option<int>, resStart: Option<Date>, resEnd: Option<Date>,
                          procStart: Option<DateTime>, procEnd: Option<DateTime>): (s: Step<Key>)
    ensures !ResourceArgsValid(wid, resStart, resEnd, procStart, procEnd) ==>
              s.store == st && s.result.Err? && s.result.error.ValidationError?
    ensures ResourceArgsValid(wid, resStart, resEnd, procStart, procEnd) ==>
              s.store.nextRid == st.nextRid + 1 && s.store.nextWid == st.nextWid && s.store.workers == st.workers
    ensures s.result.Ok? <==>
              && ResourceArgsValid(wid, resStart, resEnd, procStart, procEnd)
              && (st.nextRid, 1) !in st.resources
              && wid.value in st.workers
    ensures s.result.Ok? ==>
              && s.result.value == (st.nextRid, 1)
              && s.store.resources == st.resources[(st.nextRid, 1) :=
                   ResourceRow(wid.value, resStart.value, resEnd.value, procStart.value, procEnd.value)]
    ensures s.result.Err? ==> s.store.resources == st.resources
  {
    var c := ResourceValidation(wid, resStart, resEnd, procStart, procEnd);
    if c.Fail? then
      Step(st, Err(c.error))
    else
      var k := (st.nextRid, 1);
      var drawn := st.(nextRid := st.nextRid + 1);
      match InsertResource(drawn, k, ResourceRow(wid.value, resStart.value, resEnd.value, procStart.value, procEnd.value))
      case Err(e) => Step(drawn, Err(e))
      case Ok(inserted) => Step(inserted, Ok(k))
  }

  /** Successive `ResourceRepository.create` calls: the RIDs of the inserts
      that succeeded, in call order.  They are strictly increasing, hence
      pairwise distinct, and each names a chain that did not exist before. */
  function CreateResources(st: Store, args: seq<(int, Date, Date, DateTime, DateTime)>): (out: (Store, seq<int>))
    ensures out.0.nextRid >= st.nextRid
    ensures st.resources.Keys <= out.0.resources.Keys
    ensures forall i, j | 0 <= i < j < |out.1| :: out.1[i] < out.1[j]
    ensures forall i | 0 <= i < |out.1| :: st.nextRid <= out.1[i] < out.0.nextRid && (out.1[i], 1) in out.0.resources
    decreases |args|
  {
    if |args| == 0 then
      (st, [])
    else
      var a := args[0];
      var s := CreateResource(st, Some(a.0), Some(a.1), Some(a.2), Some(a.3), Some(a.4));
      var rest := CreateResources(s.store, args[1..]);
      if s.result.Ok? then (rest.0, [s.result.value.0] + rest.1) else rest
  }

  /** `ResourceRepository.get_by_rid_version`: the row with that primary key, if any. */
  function GetByRidVersion(st: Store, rid: int, version: int): (r: Option<Resource>)
    ensures r.Some? <==> (rid, version) in st.resources
    ensures r.Some? ==> r.value.rid == rid && r.value.version == version
                        && RowOf(r.value) == st.resources[(rid, version)]
  {
    if (rid, version) in st.resources then Some(ResourceAt(st, (rid, version))) else None
  }

  /** A row inserted by `create` reads back unchanged as version 1 of its chain. */
  lemma CreateResourceThenGet(st: Store, wid: Option<int>, resStart: Option<Date>, resEnd: Option<Date>,
                              procStart: Option<DateTime>, procEnd: Option<DateTime>)
    requires CreateResource(st, wid, resStart, resEnd, procStart, procEnd).result.Ok?
    ensures var s := CreateResource(st, wid, resStart, resEnd, procStart, procEnd);
            GetByRidVersion(s.store, s.result.value.0, 1)
              == Some(Resource(s.result.value.0, 1, wid.value, resStart.value, resEnd.value, procStart.value, procEnd.value))
  {
  }

  // ---------------------------------------------------------------------------
  // Ordering of keys
  // ---------------------------------------------------------------------------

  /** `ORDER BY RID, version`: lexicographic order on keys. */
  predicate KeyBefore(a: Key, b: Key) {
    a.0 < b.0 || (a.0 == b.0 && a.1 < b.1)
  }

  predicate KeyNotAfter(a: Key, b: Key) {
    a == b || KeyBefore(a, b)
  }

  lemma {:induction false} LeastKeyExists(ks: set<Key>)
    requires ks != {}
    ensures exists m :: m in ks && forall k | k in ks :: KeyNotAfter(m, k)
    decreases |ks|
  {
    var x :| x in ks;
    if ks == {x} {
      assert forall k | k in ks :: k == x;
    } else {
      var rest := ks - {x};
      LeastKeyExists(rest);
      var m :| m in rest && forall k | k in rest :: KeyNotAfter(m, k);
      var least := if KeyBefore(x, m) then x else m;
      forall k | k in ks
        ensures KeyNotAfter(least, k)
      {
        if k != x {
          assert k in rest;
        }
      }
      assert least in ks;
    }
  }

  /** The first key of a non-empty set in `(RID, version)` order. */
  function LeastKey(ks: set<Key>): (m: Key)
    requires ks != {}
    ensures m in ks
    ensures forall k | k in ks :: KeyNotAfter(m, k)
  {
    LeastKeyExists(ks);
    var m :| m in ks && forall k | k in ks :: KeyNotAfter(m, k);
    m
  }

  /** The keys of `ks` listed in `(RID, version)` order, each exactly once. */
  function SortedKeys(ks: set<Key>): (r: seq<Key>)
    ensures |r| == |ks|
    ensures forall i | 0 <= i < |r| :: r[i] in ks
    ensures forall k | k in ks :: k in r
    ensures forall i, j | 0 <= i < j < |r| :: KeyBefore(r[i], r[j])
    decreases |ks|
  {
    if ks == {} then
      []
    else
      var m := LeastKey(ks);
      var rest := SortedKeys(ks - {m});
      PrependLeast(ks, m, rest);
      [m] + rest
  }

  /** Listing the least key of `ks` before an ordered listing of the others
      gives an ordered listing of `ks`. */
  lemma PrependLeast(ks: set<Key>, m: Key, rest: seq<Key>)
    requires m in ks
    requires forall k | k in ks :: KeyNotAfter(m, k)
    requires |rest| == |ks - {m}|
    requires forall i | 0 <= i < |rest| :: rest[i] in ks - {m}
    requires forall k | k in ks - {m} :: k in rest
    requires forall i, j | 0 <= i < j < |rest| :: KeyBefore(rest[i], rest[j])
    ensures |[m] + rest| == |ks|
    ensures forall i | 0 <= i < |[m] + rest| :: ([m] + rest)[i] in ks
    ensures forall k | k in ks :: k in [m] + rest
    ensures forall i, j | 0 <= i < j < |[m] + rest| :: KeyBefore(([m] + rest)[i], ([m] + rest)[j])
  {
    var r := [m] + rest;
    assert forall i | 1 <= i < |r| :: r[i] == rest[i - 1];
    assert forall i | 0 <= i < |rest| :: KeyBefore(m, rest[i]) by {
      forall i | 0 <= i < |rest|
        ensures KeyBefore(m, rest[i])
      {
        assert rest[i] in ks && rest[i] != m;
      }
    }
  }

  /** The rows of the keys `ks`, in the order of `ks`. */
  function RowsAt(st: Store, ks: seq<Key>): (r: seq<Resource>)
    requires forall i | 0 <= i < |ks| :: ks[i] in st.resources
    ensures |r| == |ks|
    ensures forall i | 0 <= i < |r| :: r[i] == ResourceAt(st, ks[i])
  {
    seq(|ks|, i requires 0 <= i < |ks| => ResourceAt(st, ks[i]))
  }

  /** The keys of all versions of chain `rid`. */
  function ChainKeys(st: Store, rid: int): set<Key> {
    set k | k in st.resources && k.0 == rid
  }

  /** `ResourceRepository.get_all_versions`: every version of chain `rid`, in
      ascending version order, each exactly once. */
  function GetAllVersions(st: Store, rid: int): (r: seq<Resource>)
    ensures |r| == |ChainKeys(st, rid)|
    ensures forall i | 0 <= i < |r| ::
              && r[i].rid == rid
              && (rid, r[i].version) in st.resources
              && RowOf(r[i]) == st.resources[(rid, r[i].version)]
    ensures forall k | k in st.resources && k.0 == rid :: exists i | 0 <= i < |r| :: r[i].version == k.1
    ensures forall i, j | 0 <= i < j < |r| :: r[i].version < r[j].version
  {
    var ks := SortedKeys(ChainKeys(st, rid));
    var r := RowsAt(st, ks);
    forall k | k in st.resources && k.0 == rid
      ensures exists i | 0 <= i < |r| :: r[i].version == k.1
    {
      assert k in ChainKeys(st, rid);
      var i :| 0 <= i < |ks| && ks[i] == k;
      assert r[i].version == k.1;
    }
    r
  }

  /** `ResourceRepository.get_all`: every stored version, ordered by `(RID, version)`. */
  function GetAll(st: Store): (r: seq<Resource>)
    ensures |r| == |st.resources|
    ensures forall i | 0 <= i < |r| :: (r[i].rid, r[i].version) in st.resources
                                       && RowOf(r[i]) == st.resources[(r[i].rid, r[i].version)]
    ensures forall k | k in st.resources :: exists i | 0 <= i < |r| :: (r[i].rid, r[i].version) == k
    ensures forall i, j | 0 <= i < j < |r| :: KeyBefore((r[i].rid, r[i].version), (r[j].rid, r[j].version))
  {
    var ks := SortedKeys(st.resources.Keys);
    RowsAt(st, ks)
  }

  // ---------------------------------------------------------------------------
  // The open version and closing a version
  // ---------------------------------------------------------------------------

  /** The keys of the versions of chain `rid` whose `proc_end` is the sentinel. */
  function OpenKeys(st: Store, rid: int): set<Key> {
    set k | k in st.resources && k.0 == rid && st.resources[k].procEnd == InfinityDateTime
  }

  /** `ResourceRepository.get_current_version`: a version of chain `rid` whose
      `proc_end` equals `INFINITY_DATETIME`, or `None` when there is none.
      (The SQL takes whichever matching row comes first; the model takes the
      lowest-numbered one.) */
  function GetCurrentVersion(st: Store, rid: int): (r: Option<Resource>)
    ensures r.None? <==> forall k | k in st.resources && k.0 == rid :: st.resources[k].procEnd != InfinityDateTime
    ensures r.Some? ==>
              && r.value.rid == rid
              && r.value.IsOpen()
              && (rid, r.value.version) in st.resources
              && RowOf(r.value) == st.resources[(rid, r.value.version)]
  {
    var open := OpenKeys(st, rid);
    if open == {} then
      assert forall k | k in st.resources && k.0 == rid :: k !in open;
      None
    else
      var k := LeastKey(open);
      Some(ResourceAt(st, k))
  }

  /** `ResourceRepository.update_proc_end`: sets `proc_end` of exactly the row
      `(rid, version)`; every other column and row is kept, and an absent row
      makes it a silent no-op. */
  function UpdateProcEnd(st: Store, rid: int, version: int, procEnd: DateTime): (r: Store)
    ensures r.workers == st.workers && r.nextWid == st.nextWid && r.nextRid == st.nextRid
    ensures r.resources.Keys == st.resources.Keys
    ensures forall k | k in st.resources && k != (rid, version) :: r.resources[k] == st.resources[k]
    ensures (rid, version) in st.resources ==>
              r.resources[(rid, version)] == st.resources[(rid, version)].(procEnd := procEnd)
    ensures (rid, version) !in st.resources ==> r == st
  {
    if (rid, version) in st.resources then
      st.(resources := st.resources[(rid, version) := st.resources[(rid, version)].(procEnd := procEnd)])
    else
      st
  }

  /** Closing a version at a finite instant reads back as that version with
      only its `proc_end` changed, and it is no longer open. */
  lemma CloseThenGet(st: Store, rid: int, version: int, at: DateTime)
    requires (rid, version) in st.resources
    requires at != InfinityDateTime
    ensures var closed := UpdateProcEnd(st, rid, version, at);
            && GetByRidVersion(closed, rid, version) == Some(ResourceAt(st, (rid, version)).(procEnd := at))
            && !GetByRidVersion(closed, rid, version).value.IsOpen()
  {
  }
}
