/** The version transition engine and the temporal query engine of
    `ResourceService`.  Each Create and each Update is one transaction: on an
    error the tables are rolled back, though sequence values already drawn stay
    consumed.  The wall clock (`datetime.now()`, `date.today()`) is the
    parameter `now` / `today`. */
module Services {
  import opened Results
  import opened Models
  import opened Validation
  import opened Repositories

  // ---------------------------------------------------------------------------
  // Create
  // ---------------------------------------------------------------------------

  /** The arguments of `create_worker_and_resource` pass its validation:
      name, org and type present and not blank, `res_start` present. */
  predicate CreateArgsValid(name: Option<string>, org: Option<string>, workerType: Option<string>, resStart: Option<Date>) {
    && name.Some? && !IsBlank(name.value)
    && org.Some? && !IsBlank(org.value)
    && workerType.Some? && !IsBlank(workerType.value)
    && resStart.Some?
  }

  /** The checks `create_worker_and_resource` runs before touching the
      database, in order; they pass exactly for valid arguments. */
  function CreateValidation(name: Option<string>, org: Option<string>, workerType: Option<string>, resStart: Option<Date>): (c: Check)
    ensures c.Pass? <==> CreateArgsValid(name, org, workerType, resStart)
    ensures c.Fail? ==> c.error.ValidationError?
  {
    ValidateRequiredField(StrValue(name), "name")
      .Then(ValidateRequiredField(StrValue(org), "org"))
      .Then(ValidateRequiredField(StrValue(workerType), "type"))
      .Then(ValidateRequiredField(IntValue(resStart), "res_start"))
      .Then(ValidateBusinessTimeRange(resStart, Some(InfinityDate)))
  }

  /** `ResourceService.create_worker_and_resource` at wall-clock instant `now`:
      inserts the worker, draws a RID and inserts version 1, open on both the
      business axis and the processing axis.  Invalid arguments are rejected
      before anything is stored or drawn, and so are worker attributes the
      database driver cannot send (a string holding U+0000); a later failure
      stores nothing. */
  function CreateWorkerAndResource(st: Store, name: Option<string>, org: Option<string>, workerType: Option<string>,
                                   resStart: Option<Date>, now: DateTime): (s: Step<(int, int, int)>)
    ensures !CreateArgsValid(name, org, workerType, resStart) ==>
              s.store == st && s.result.Err? && s.result.error.ValidationError?
    ensures CreateArgsValid(name, org, workerType, resStart) && !Sendable(WorkerRow(name.value, org.value, workerType.value)) ==>
              s == Step(st, Err(NulCharacter))
    ensures s.result.Ok? <==>
              && CreateArgsValid(name, org, workerType, resStart)
              && Sendable(WorkerRow(name.value, org.value, workerType.value))
              && st.nextWid !in st.workers
              && now <= InfinityDateTime
              && (st.nextRid, 1) !in st.resources
    ensures s.result.Ok? ==>
              && s.result.value == (st.nextWid, st.nextRid, 1)
              && s.store.nextWid == st.nextWid + 1 && s.store.nextRid == st.nextRid + 1
              && s.store.workers == st.workers[st.nextWid := WorkerRow(name.value, org.value, workerType.value)]
              && s.store.resources == st.resources[(st.nextRid, 1) :=
                   ResourceRow(st.nextWid, resStart.value, InfinityDate, now, InfinityDateTime)]
    ensures s.result.Err? ==> s.store.workers == st.workers && s.store.resources == st.resources
    ensures st.nextWid <= s.store.nextWid <= st.nextWid + 1
    ensures st.nextRid <= s.store.nextRid <= st.nextRid + 1
  {
    var c := CreateValidation(name, org, workerType, resStart);
    if c.Fail? then
      Step(st, Err(c.error))
    else if !Sendable(WorkerRow(name.value, org.value, workerType.value)) then
      Step(st, Err(NulCharacter))
    else
      var wid := st.nextWid;
      var widDrawn := st.(nextWid := wid + 1);
      if wid in st.workers then
        Step(widDrawn, Err(DuplicateWorker(wid)))
      else
        var rid := st.nextRid;
        var drawn := widDrawn.(nextRid := rid + 1);
        var pc := ValidateProcessingTimeRange(Some(now), Some(InfinityDateTime));
        if pc.Fail? then
          Step(drawn, Err(pc.error))
        else
          var withWorker := drawn.(workers := st.workers[wid := WorkerRow(name.value, org.value, workerType.value)]);
          match InsertResource(withWorker, (rid, 1), ResourceRow(wid, resStart.value, InfinityDate, now, InfinityDateTime))
          case Err(e) => Step(drawn, Err(e))
          case Ok(inserted) => Step(inserted, Ok((wid, rid, 1)))
  }

  /** The business-range check of Create compares `res_start` with the top of
      the business axis, so it can never fail. */
  lemma CreateRangeCheckNeverFails(resStart: Option<Date>)
    ensures ValidateBusinessTimeRange(resStart, Some(InfinityDate)).Pass?
  {
  }

  /** A successful Create stores version 1 of a new chain, open on both axes,
      owned by the worker it inserted, and `get_by_rid_version` reads it back. */
  lemma CreateThenRead(st: Store, name: Option<string>, org: Option<string>, workerType: Option<string>,
                       resStart: Option<Date>, now: DateTime)
    requires CreateWorkerAndResource(st, name, org, workerType, resStart, now).result.Ok?
    ensures var s := CreateWorkerAndResource(st, name, org, workerType, resStart, now);
            var (wid, rid, version) := s.result.value;
            && version == 1
            && GetByRidVersion(s.store, rid, 1) == Some(Resource(rid, 1, wid, resStart.value, InfinityDate, now, InfinityDateTime))
            && GetByWid(s.store, wid) == Some(Worker(wid, name.value, org.value, workerType.value))
  {
  }

  // ---------------------------------------------------------------------------
  // Update
  // ---------------------------------------------------------------------------

  /** `ResourceService.update_resource` at wall-clock instant `now`: closes the
      open version `k` of chain `rid` at `now` and inserts version `k + 1`,
      open from `now`, owned by the same worker.  An omitted business bound is
      copied from version `k`.  Without an open version the update fails with
      "not found"; an invalid merged range fails before anything changes. */
  function UpdateResource(st: Store, rid: int, resStart: Option<Date>, resEnd: Option<Date>, now: DateTime): (s: Step<Key>)
    ensures s.store.workers == st.workers && s.store.nextWid == st.nextWid && s.store.nextRid == st.nextRid
    ensures s.result.Err? ==> s.store == st
    ensures GetCurrentVersion(st, rid).None? ==> s == Step(st, Err(NotFound(rid)))
    ensures var cur := GetCurrentVersion(st, rid);
            cur.Some? && (if resStart.Some? then resStart.value else cur.value.resStart)
                         > (if resEnd.Some? then resEnd.value else cur.value.resEnd) ==>
              s == Step(st, Err(ValidationError("res_start" + " must be less than or equal to " + "res_end")))
    ensures var cur := GetCurrentVersion(st, rid);
            s.result.Ok? <==>
              && cur.Some?
              && (if resStart.Some? then resStart.value else cur.value.resStart)
                 <= (if resEnd.Some? then resEnd.value else cur.value.resEnd)
              && now <= InfinityDateTime
              && (rid, cur.value.version + 1) !in st.resources
              && cur.value.wid in st.workers
    ensures s.result.Ok? ==>
              var cur := GetCurrentVersion(st, rid).value;
              var k := cur.version;
              && s.result.value == (rid, k + 1)
              && s.store.resources == st.resources
                   [(rid, k) := st.resources[(rid, k)].(procEnd := now)]
                   [(rid, k + 1) := ResourceRow(cur.wid,
                                                if resStart.Some? then resStart.value else cur.resStart,
                                                if resEnd.Some? then resEnd.value else cur.resEnd,
                                                now, InfinityDateTime)]
  {
    match GetCurrentVersion(st, rid)
    case None => Step(st, Err(NotFound(rid)))
    case Some(current) =>
      var newVersion := current.version + 1;
      var newStart := resStart.GetOr(current.resStart);
      var newEnd := resEnd.GetOr(current.resEnd);
      var bc := ValidateBusinessTimeRange(Some(newStart), Some(newEnd));
      var pc := ValidateProcessingTimeRange(Some(now), Some(InfinityDateTime));
      if bc.Fail? then
        Step(st, Err(bc.error))
      else if pc.Fail? then
        Step(st, Err(pc.error))
      else
        var closed := UpdateProcEnd(st, rid, current.version, now);
        match InsertResource(closed, (rid, newVersion), ResourceRow(current.wid, newStart, newEnd, now, InfinityDateTime))
        case Err(e) => Step(st, Err(e))
        case Ok(inserted) => Step(inserted, Ok((rid, newVersion)))
  }

  // ---------------------------------------------------------------------------
  // Queries
  // ---------------------------------------------------------------------------

  /** The joined row for the stored version at `k`. */
  function JoinAt(st: Store, k: Key): ResourceWithWorker
    requires k in st.resources && st.resources[k].wid in st.workers
  {
    var row := st.resources[k];
    Join(ResourceOf(k, row), WorkerOf(row.wid, st.workers[row.wid]))
  }

  /** `resource r JOIN worker w ON r.WID = w.WID`: one row per stored version
      whose worker exists, and each joined row is determined by its key. */
  function JoinedRows(st: Store): (r: set<ResourceWithWorker>)
    ensures forall k | k in st.resources && st.resources[k].wid in st.workers :: JoinAt(st, k) in r
    ensures forall j | j in r ::
              && (j.rid, j.version) in st.resources
              && st.resources[(j.rid, j.version)].wid in st.workers
              && j == JoinAt(st, (j.rid, j.version))
  {
    set k | k in st.resources && st.resources[k].wid in st.workers :: JoinAt(st, k)
  }

  /** `get_open_resource_records`: the joined rows whose `proc_end` is the sentinel. */
  function OpenResourceRecords(st: Store): (r: set<ResourceWithWorker>)
    ensures forall j | j in r :: j in JoinedRows(st) && j.procEnd == InfinityDateTime
    ensures forall k | k in st.resources && st.resources[k].wid in st.workers ::
              JoinAt(st, k) in r <==> st.resources[k].procEnd == InfinityDateTime
  {
    set j | j in JoinedRows(st) && j.procEnd == InfinityDateTime
  }

  /** `get_active_resources` on the date `today`: open rows whose business range contains `today`. */
  function ActiveResources(st: Store, today: Date): (r: set<ResourceWithWorker>)
    ensures forall j | j in r :: j in JoinedRows(st) && j.procEnd == InfinityDateTime && j.resStart <= today < j.resEnd
    ensures forall k | k in st.resources && st.resources[k].wid in st.workers ::
              JoinAt(st, k) in r <==>
                && st.resources[k].procEnd == InfinityDateTime
                && st.resources[k].resStart <= today < st.resources[k].resEnd
  {
    set j | j in JoinedRows(st) && j.procEnd == InfinityDateTime && j.resStart <= today < j.resEnd
  }

  /** `as_of_query(business_date, processing_datetime)`: the rows whose
      processing range contains the instant P and whose business range
      contains `businessDate`; P is `now` when no instant is given. */
  function AsOfQuery(st: Store, businessDate: Date, processing: Option<DateTime>, now: DateTime): (r: set<ResourceWithWorker>)
    ensures var p := if processing.Some? then processing.value else now;
            forall j | j in r :: j in JoinedRows(st) && j.procStart <= p < j.procEnd && j.resStart <= businessDate < j.resEnd
    ensures var p := if processing.Some? then processing.value else now;
            forall k | k in st.resources && st.resources[k].wid in st.workers ::
              JoinAt(st, k) in r <==>
                && st.resources[k].procStart <= p < st.resources[k].procEnd
                && st.resources[k].resStart <= businessDate < st.resources[k].resEnd
  {
    var p := processing.GetOr(now);
    set j | j in JoinedRows(st) && j.procStart <= p < j.procEnd && j.resStart <= businessDate < j.resEnd
  }

  /** The active rows are exactly the open rows whose business range contains `today`. */
  lemma ActiveIsOpenOnToday(st: Store, today: Date)
    ensures ActiveResources(st, today) == set j | j in OpenResourceRecords(st) && j.resStart <= today < j.resEnd
  {
  }
}
