/** Histories of Create and Update calls: the invariant holds after every
    history whose wall clock never runs backwards, which gives every chain its
    shape, keeps chains apart, and makes the temporal queries answer as the
    bi-temporal reading of the table promises. */
module Histories {
  import opened Results
  import opened Models
  import opened Repositories
  import opened Services
  import opened Chains

  // ---------------------------------------------------------------------------
  // Runs of calls
  // ---------------------------------------------------------------------------

  /** One call of the transition engine, with the wall-clock instant it runs at. */
  datatype Call =
    | CreateCall(name: Option<string>, org: Option<string>, workerType: Option<string>, resStart: Option<Date>, at: DateTime)
    | UpdateCall(rid: int, resStart: Option<Date>, resEnd: Option<Date>, at: DateTime)

  /** The store after one call, whether it succeeded or not. */
  function Apply(st: Store, c: Call): Store {
    match c
    case CreateCall(name, org, workerType, resStart, at) => CreateWorkerAndResource(st, name, org, workerType, resStart, at).store
    case UpdateCall(rid, resStart, resEnd, at) => UpdateResource(st, rid, resStart, resEnd, at).store
  }

  /** The calls run one after another, starting from `st`. */
  function Run(st: Store, calls: seq<Call>): Store
    decreases |calls|
  {
    if |calls| == 0 then st else Run(Apply(st, calls[0]), calls[1..])
  }

  /** The calls run at instants that never go backwards, none before `clock`
      and all before the sentinel. */
  predicate ClockFrom(clock: DateTime, calls: seq<Call>)
    decreases |calls|
  {
    |calls| == 0 || (clock <= calls[0].at < InfinityDateTime && ClockFrom(calls[0].at, calls[1..]))
  }

  /** The instant of the last call, or `clock` when there is none. */
  function LastAt(clock: DateTime, calls: seq<Call>): DateTime
    decreases |calls|
  {
    if |calls| == 0 then clock else LastAt(calls[0].at, calls[1..])
  }

  /** Every history with a clock that never runs backwards keeps the invariant. */
  lemma {:induction false} RunPreservesValid(st: Store, clock: DateTime, calls: seq<Call>)
    requires Valid(st, clock) && ClockFrom(clock, calls)
    ensures Valid(Run(st, calls), LastAt(clock, calls))
    decreases |calls|
  {
    if |calls| > 0 {
      var c := calls[0];
      match c {
        case CreateCall(name, org, workerType, resStart, at) =>
          CreatePreservesValid(st, clock, name, org, workerType, resStart, at);
        case UpdateCall(rid, resStart, resEnd, at) =>
          UpdatePreservesValid(st, clock, rid, resStart, resEnd, at);
      }
      RunPreservesValid(Apply(st, c), c.at, calls[1..]);
    }
  }

  /** In every store reachable from the empty schema, each chain is numbered
      exactly `1..n`, and `n`, the version `get_current_version` returns, is
      its only open version. */
  lemma ReachableChainsAreWellShaped(calls: seq<Call>, rid: int)
    requires ClockFrom(0, calls)
    requires ChainKeys(Run(EmptyStore, calls), rid) != {}
    ensures var st := Run(EmptyStore, calls);
            var cur := GetCurrentVersion(st, rid);
            && cur.Some?
            && (forall v :: v in VersionsOf(st, rid) <==> 1 <= v <= cur.value.version)
            && (forall k | k in st.resources && k.0 == rid ::
                  (st.resources[k].procEnd == InfinityDateTime <==> k.1 == cur.value.version))
  {
    EmptyStoreIsValid(0);
    RunPreservesValid(EmptyStore, 0, calls);
    ChainShape(Run(EmptyStore, calls), LastAt(0, calls), rid);
  }

  // ---------------------------------------------------------------------------
  // Update on a valid store
  // ---------------------------------------------------------------------------

  /** On a valid store an existing chain has an open version, and an update of
      it at a permitted instant fails exactly when the merged business range
      is reversed: the primary key of the next version is free and the worker
      exists. */
  lemma UpdateSucceeds(st: Store, clock: DateTime, rid: int, resStart: Option<Date>, resEnd: Option<Date>, now: DateTime)
    requires Valid(st, clock) && clock <= now < InfinityDateTime
    requires ChainKeys(st, rid) != {}
    ensures GetCurrentVersion(st, rid).Some?
    ensures var cur := GetCurrentVersion(st, rid).value;
            UpdateResource(st, rid, resStart, resEnd, now).result.Ok? <==>
              resStart.GetOr(cur.resStart) <= resEnd.GetOr(cur.resEnd)
  {
    ChainHasCurrent(st, clock, rid);
    CurrentIsLast(st, clock, rid);
  }

  /** On a valid store the sequences run ahead of every stored id, so the
      drawn WID and RID are always free: a Create fails only on invalid or
      unsendable arguments, or at an instant after `INFINITY_DATETIME`. */
  lemma CreateSucceeds(st: Store, clock: DateTime, name: Option<string>, org: Option<string>,
                       workerType: Option<string>, resStart: Option<Date>, now: DateTime)
    requires Valid(st, clock)
    ensures CreateWorkerAndResource(st, name, org, workerType, resStart, now).result.Ok? <==>
              && CreateArgsValid(name, org, workerType, resStart)
              && Sendable(WorkerRow(name.value, org.value, workerType.value))
              && now <= InfinityDateTime
  {
  }

  /** An update that supplies neither bound (legal at the service level)
      succeeds on any existing chain of a valid store and stores a copy of the
      current version as `k + 1`, open from `now`. */
  lemma UpdateWithoutFieldsCopies(st: Store, clock: DateTime, rid: int, now: DateTime)
    requires Valid(st, clock) && clock <= now < InfinityDateTime
    requires ChainKeys(st, rid) != {}
    ensures GetCurrentVersion(st, rid).Some?
    ensures var s := UpdateResource(st, rid, None, None, now);
            var cur := GetCurrentVersion(st, rid).value;
            && s.result == Ok((rid, cur.version + 1))
            && GetByRidVersion(s.store, rid, cur.version + 1) == Some(cur.(version := cur.version + 1, procStart := now))
  {
    ChainHasCurrent(st, clock, rid);
    CurrentIsLast(st, clock, rid);
  }

  /** An update stamped exactly at the sentinel instant passes the processing
      check but "closes" version `k` with the sentinel itself, so `k` and
      `k + 1` are both open afterwards.  This is why the invariant lemmas ask
      for `now < INFINITY_DATETIME`. */
  lemma UpdateAtSentinelLeavesTwoOpen(st: Store, rid: int, resStart: Option<Date>, resEnd: Option<Date>)
    requires UpdateResource(st, rid, resStart, resEnd, InfinityDateTime).result.Ok?
    ensures GetCurrentVersion(st, rid).Some?
    ensures var st' := UpdateResource(st, rid, resStart, resEnd, InfinityDateTime).store;
            var k := GetCurrentVersion(st, rid).value.version;
            && (rid, k) in st'.resources && st'.resources[(rid, k)].procEnd == InfinityDateTime
            && (rid, k + 1) in st'.resources && st'.resources[(rid, k + 1)].procEnd == InfinityDateTime
  {
  }

  // ---------------------------------------------------------------------------
  // Chains do not interfere
  // ---------------------------------------------------------------------------

  /** Chain `other` has the same versions, row for row, in both stores. */
  predicate SameChain(st: Store, st': Store, other: int) {
    && ChainKeys(st', other) == ChainKeys(st, other)
    && (forall k | k in st.resources && k.0 == other :: k in st'.resources && st'.resources[k] == st.resources[k])
  }

  lemma RowsAtAgree(st: Store, st': Store, ks: seq<Key>)
    requires forall i | 0 <= i < |ks| :: ks[i] in st.resources && ks[i] in st'.resources
                                         && st'.resources[ks[i]] == st.resources[ks[i]]
    ensures RowsAt(st', ks) == RowsAt(st, ks)
  {
  }

  /** Chains with the same rows list the same versions. */
  lemma SameChainSameVersions(st: Store, st': Store, other: int)
    requires SameChain(st, st', other)
    ensures GetAllVersions(st', other) == GetAllVersions(st, other)
  {
    var ks := SortedKeys(ChainKeys(st, other));
    forall i | 0 <= i < |ks|
      ensures ks[i] in st.resources && ks[i] in st'.resources && st'.resources[ks[i]] == st.resources[ks[i]]
    {
      assert ks[i] in ChainKeys(st, other);
    }
    RowsAtAgree(st, st', ks);
  }

  /** Chains with the same rows have the same current version. */
  lemma SameChainSameCurrent(st: Store, st': Store, other: int)
    requires SameChain(st, st', other)
    ensures GetCurrentVersion(st', other) == GetCurrentVersion(st, other)
  {
    forall k
      ensures k in OpenKeys(st', other) <==> k in OpenKeys(st, other)
    {
      if k in OpenKeys(st', other) {
        assert k in ChainKeys(st', other);
      }
      if k in OpenKeys(st, other) {
        assert k in ChainKeys(st, other);
      }
    }
    assert OpenKeys(st', other) == OpenKeys(st, other);
  }

  /** `update_resource(rid, ...)` leaves every other chain as it was, row for row. */
  lemma UpdateLeavesOtherChains(st: Store, rid: int, resStart: Option<Date>, resEnd: Option<Date>, now: DateTime, other: int)
    requires other != rid
    ensures var st' := UpdateResource(st, rid, resStart, resEnd, now).store;
            && SameChain(st, st', other)
            && GetAllVersions(st', other) == GetAllVersions(st, other)
            && GetCurrentVersion(st', other) == GetCurrentVersion(st, other)
  {
    var st' := UpdateResource(st, rid, resStart, resEnd, now).store;
    forall k
      ensures k in ChainKeys(st', other) <==> k in ChainKeys(st, other)
    {
    }
    SameChainSameVersions(st, st', other);
    SameChainSameCurrent(st, st', other);
  }

  /** `Found` leaves every chain but the new one as it was. */
  lemma FoundLeavesOtherChains(st: Store, wid: int, worker: WorkerRow, rid: int, row: ResourceRow, other: int)
    requires other != rid
    ensures SameChain(st, Found(st, wid, worker, rid, row), other)
  {
    var st' := Found(st, wid, worker, rid, row);
    forall k
      ensures k in ChainKeys(st', other) <==> k in ChainKeys(st, other)
    {
    }
  }

  /** `create_worker_and_resource` leaves every chain but the new one as it was. */
  lemma CreateLeavesOtherChains(st: Store, name: Option<string>, org: Option<string>, workerType: Option<string>,
                                resStart: Option<Date>, now: DateTime, other: int)
    requires other != st.nextRid
    ensures var st' := CreateWorkerAndResource(st, name, org, workerType, resStart, now).store;
            && SameChain(st, st', other)
            && GetAllVersions(st', other) == GetAllVersions(st, other)
            && GetCurrentVersion(st', other) == GetCurrentVersion(st, other)
  {
    var st' := CreateWorkerAndResource(st, name, org, workerType, resStart, now).store;
    if CreateWorkerAndResource(st, name, org, workerType, resStart, now).result.Ok? {
      CreateIsFound(st, name, org, workerType, resStart, now);
      FoundLeavesOtherChains(st, st.nextWid, WorkerRow(name.value, org.value, workerType.value),
                             st.nextRid, CreatedRow(st, resStart.value, now), other);
    } else {
      assert st'.resources == st.resources;
    }
    SameChainSameVersions(st, st', other);
    SameChainSameCurrent(st, st', other);
  }

  // ---------------------------------------------------------------------------
  // Many calls
  // ---------------------------------------------------------------------------

  /** The arguments of one `create_worker_and_resource` call and its instant. */
  type CreateArgs = (Option<string>, Option<string>, Option<string>, Option<Date>, DateTime)

  /** Every worker row and every resource version of `st` is still in `st'`,
      unchanged. */
  predicate KeepsRows(st: Store, st': Store) {
    && (forall w | w in st.workers :: w in st'.workers && st'.workers[w] == st.workers[w])
    && (forall k | k in st.resources :: k in st'.resources && st'.resources[k] == st.resources[k])
  }

  /** What one Create contributes to a run of Creates: the counters and the
      tables only grow, existing rows are left as they were, and a success returns the drawn WID and RID, names a
      stored worker and a stored version 1, and advances both counters. */
  predicate CreateEffect(st: Store, s: Step<(int, int, int)>) {
    && st.nextWid <= s.store.nextWid && st.nextRid <= s.store.nextRid
    && st.workers.Keys <= s.store.workers.Keys && st.resources.Keys <= s.store.resources.Keys
    && KeepsRows(st, s.store)
    && (s.result.Ok? ==>
          && s.result.value == (st.nextWid, st.nextRid, 1)
          && st.nextWid < s.store.nextWid && st.nextRid < s.store.nextRid
          && st.nextWid in s.store.workers && (st.nextRid, 1) in s.store.resources)
  }

  lemma CreateHasEffect(st: Store, a: CreateArgs)
    ensures CreateEffect(st, CreateWorkerAndResource(st, a.0, a.1, a.2, a.3, a.4))
  {
  }

  /** Successive `create_worker_and_resource` calls: the final store and the
      identities returned by those that succeeded, in call order.  The
      counters and the tables only grow, and no existing row changes. */
  function CreateAll(st: Store, args: seq<CreateArgs>): (out: (Store, seq<(int, int, int)>))
    ensures st.nextWid <= out.0.nextWid && st.nextRid <= out.0.nextRid
    ensures st.workers.Keys <= out.0.workers.Keys && st.resources.Keys <= out.0.resources.Keys
    ensures forall w | w in st.workers :: out.0.workers[w] == st.workers[w]
    ensures forall k | k in st.resources :: out.0.resources[k] == st.resources[k]
    ensures |out.1| <= |args|
    decreases |args|
  {
    if |args| == 0 then
      (st, [])
    else
      var s := CreateWorkerAndResource(st, args[0].0, args[0].1, args[0].2, args[0].3, args[0].4);
      CreateHasEffect(st, args[0]);
      var rest := CreateAll(s.store, args[1..]);
      if s.result.Ok? then (rest.0, [s.result.value] + rest.1) else rest
  }

  /** Every identity returned by a run of Creates was drawn during the run and
      names a stored worker and a stored version 1. */
  predicate DrawnDuring(st: Store, out: (Store, seq<(int, int, int)>)) {
    forall i | 0 <= i < |out.1| ::
      && st.nextWid <= out.1[i].0 < out.0.nextWid
      && st.nextRid <= out.1[i].1 < out.0.nextRid
      && out.1[i].2 == 1
      && out.1[i].0 in out.0.workers
      && (out.1[i].1, 1) in out.0.resources
  }

  /** The identities are strictly increasing in both WID and RID. */
  predicate StrictlyIncreasing(ids: seq<(int, int, int)>) {
    forall i, j | 0 <= i < j < |ids| :: ids[i].0 < ids[j].0 && ids[i].1 < ids[j].1
  }

  /** WIDs and RIDs returned by successive Creates are strictly increasing,
      hence pairwise distinct, and each was drawn during these calls. */
  lemma {:induction false} CreateAllIdentities(st: Store, args: seq<CreateArgs>)
    ensures DrawnDuring(st, CreateAll(st, args))
    ensures StrictlyIncreasing(CreateAll(st, args).1)
    decreases |args|
  {
    if |args| > 0 {
      var s := CreateWorkerAndResource(st, args[0].0, args[0].1, args[0].2, args[0].3, args[0].4);
      CreateHasEffect(st, args[0]);
      var rest := CreateAll(s.store, args[1..]);
      CreateAllIdentities(s.store, args[1..]);
      if s.result.Ok? {
        PrependIdentity(st, s.store, s.result.value, rest);
        assert CreateAll(st, args) == (rest.0, [s.result.value] + rest.1);
      } else {
        assert CreateAll(st, args) == rest;
      }
    }
  }

  /** Prepending the identity drawn by one successful Create to those of the
      rest of the run keeps both properties. */
  lemma PrependIdentity(st: Store, mid: Store, id: (int, int, int), rest: (Store, seq<(int, int, int)>))
    requires id == (st.nextWid, st.nextRid, 1)
    requires st.nextWid < mid.nextWid && st.nextRid < mid.nextRid
    requires st.nextWid in mid.workers && (st.nextRid, 1) in mid.resources
    requires mid.nextWid <= rest.0.nextWid && mid.nextRid <= rest.0.nextRid
    requires mid.workers.Keys <= rest.0.workers.Keys && mid.resources.Keys <= rest.0.resources.Keys
    requires DrawnDuring(mid, rest) && StrictlyIncreasing(rest.1)
    ensures DrawnDuring(st, (rest.0, [id] + rest.1))
    ensures StrictlyIncreasing([id] + rest.1)
  {
    var ids := [id] + rest.1;
    forall i | 0 <= i < |ids|
      ensures st.nextWid <= ids[i].0 < rest.0.nextWid && st.nextRid <= ids[i].1 < rest.0.nextRid
      ensures ids[i].2 == 1 && ids[i].0 in rest.0.workers && (ids[i].1, 1) in rest.0.resources
    {
      if i > 0 { assert ids[i] == rest.1[i - 1]; }
    }
    forall i, j | 0 <= i < j < |ids|
      ensures ids[i].0 < ids[j].0 && ids[i].1 < ids[j].1
    {
      assert ids[j] == rest.1[j - 1];
      if i > 0 { assert ids[i] == rest.1[i - 1]; }
    }
  }

  /** The calls all update chain `rid` and leave `res_end` to be copied. */
  predicate OpenEndedUpdatesOf(rid: int, calls: seq<Call>) {
    forall i | 0 <= i < |calls| :: calls[i].UpdateCall? && calls[i].rid == rid && calls[i].resEnd.None?
  }

  /** Version `v` of chain `rid` is stored, open on the processing axis and
      open-ended on the business axis. */
  predicate OpenEndedAt(st: Store, rid: int, v: int) {
    && (rid, v) in st.resources
    && st.resources[(rid, v)].procEnd == InfinityDateTime
    && st.resources[(rid, v)].resEnd == InfinityDate
  }

  /** One update that leaves `res_end` to be copied, on a chain whose open
      version `v` is open-ended on the business axis, succeeds and stores
      version `v + 1`, open-ended as well. */
  lemma OpenEndedUpdateSucceeds(st: Store, clock: DateTime, rid: int, v: int, resStart: Option<Date>, now: DateTime)
    requires Valid(st, clock) && clock <= now < InfinityDateTime
    requires OpenEndedAt(st, rid, v)
    ensures UpdateResource(st, rid, resStart, None, now).result.Ok?
    ensures OpenEndedAt(UpdateResource(st, rid, resStart, None, now).store, rid, v + 1)
  {
    OpenIsCurrent(st, clock, rid, v);
    CurrentIsLast(st, clock, rid);
  }

  /** One call of such a run keeps the invariant and moves the open-ended
      version from `v` to `v + 1`. */
  lemma OpenEndedCallStep(st: Store, clock: DateTime, rid: int, v: int, c: Call)
    requires Valid(st, clock) && clock <= c.at < InfinityDateTime
    requires c.UpdateCall? && c.rid == rid && c.resEnd.None?
    requires OpenEndedAt(st, rid, v)
    ensures Valid(Apply(st, c), c.at) && OpenEndedAt(Apply(st, c), rid, v + 1)
  {
    OpenEndedUpdateSucceeds(st, clock, rid, v, c.resStart, c.at);
    UpdatePreservesValid(st, clock, rid, c.resStart, c.resEnd, c.at);
  }

  /** On a chain whose open version is open-ended on the business axis,
      updates that leave `res_end` to be copied all succeed: each adds one
      version, and the range stays open-ended. */
  lemma {:induction false} OpenEndedUpdatesAllSucceed(st: Store, clock: DateTime, rid: int, v: int, calls: seq<Call>, last: int)
    requires Valid(st, clock) && ClockFrom(clock, calls) && OpenEndedUpdatesOf(rid, calls)
    requires OpenEndedAt(st, rid, v) && last == v + |calls|
    ensures Valid(Run(st, calls), LastAt(clock, calls))
    ensures OpenEndedAt(Run(st, calls), rid, last)
    decreases |calls|
  {
    if |calls| > 0 {
      var c := calls[0];
      OpenEndedCallStep(st, clock, rid, v, c);
      TailOpenEnded(rid, calls);
      OpenEndedUpdatesAllSucceed(Apply(st, c), c.at, rid, v + 1, calls[1..], last);
      assert Run(st, calls) == Run(Apply(st, c), calls[1..]);
    } else {
      assert Run(st, calls) == st;
    }
  }

  lemma TailOpenEnded(rid: int, calls: seq<Call>)
    requires |calls| > 0 && OpenEndedUpdatesOf(rid, calls)
    ensures OpenEndedUpdatesOf(rid, calls[1..])
  {
    forall i | 0 <= i < |calls[1..]|
      ensures calls[1..][i].UpdateCall? && calls[1..][i].rid == rid && calls[1..][i].resEnd.None?
    {
      assert calls[1..][i] == calls[i + 1];
    }
  }

  /** A Create followed by N updates of its chain that leave `res_end` to be
      copied: the chain holds exactly the versions `1..N+1`, and `N+1` is its
      only open version. */
  lemma CreateThenUpdates(st: Store, clock: DateTime, name: Option<string>, org: Option<string>, workerType: Option<string>,
                          resStart: Option<Date>, now: DateTime, calls: seq<Call>)
    requires Valid(st, clock) && clock <= now < InfinityDateTime
    requires CreateArgsValid(name, org, workerType, resStart)
    requires Sendable(WorkerRow(name.value, org.value, workerType.value))
    requires ClockFrom(now, calls) && OpenEndedUpdatesOf(st.nextRid, calls)
    ensures var st' := Run(CreateWorkerAndResource(st, name, org, workerType, resStart, now).store, calls);
            var rid := st.nextRid;
            && GetCurrentVersion(st', rid).Some?
            && GetCurrentVersion(st', rid).value.version == |calls| + 1
            && (forall v :: v in VersionsOf(st', rid) <==> 1 <= v <= |calls| + 1)
            && (forall k | k in st'.resources && k.0 == rid ::
                  (st'.resources[k].procEnd == InfinityDateTime <==> k.1 == |calls| + 1))
  {
    var s := CreateWorkerAndResource(st, name, org, workerType, resStart, now);
    var rid := st.nextRid;
    CreateSucceeds(st, clock, name, org, workerType, resStart, now);
    CreatePreservesValid(st, clock, name, org, workerType, resStart, now);
    assert OpenEndedAt(s.store, rid, 1);
    OpenEndedUpdatesAllSucceed(s.store, now, rid, 1, calls, |calls| + 1);
    var st' := Run(s.store, calls);
    assert (rid, |calls| + 1) in ChainKeys(st', rid);
    ChainShape(st', LastAt(now, calls), rid);
  }

  // ---------------------------------------------------------------------------
  // Queries on a valid store
  // ---------------------------------------------------------------------------

  /** An as-of query returns at most one version of each chain, whatever the
      instant: processing ranges within a chain are half-open and tile. */
  lemma AsOfAtMostOnePerChain(st: Store, clock: DateTime, businessDate: Date, processing: Option<DateTime>, now: DateTime)
    requires Valid(st, clock)
    ensures forall a, b | a in AsOfQuery(st, businessDate, processing, now) && b in AsOfQuery(st, businessDate, processing, now) ::
              a.rid == b.rid ==> a == b
  {
    var r := AsOfQuery(st, businessDate, processing, now);
    var p := processing.GetOr(now);
    forall a, b | a in r && b in r && a.rid == b.rid
      ensures a == b
    {
      assert a in JoinedRows(st) && b in JoinedRows(st);
      OneVersionAtEachInstant(st, clock, a.rid, a.version, b.version, p);
    }
  }

  /** The open records hold at most one version of each chain. */
  lemma OpenAtMostOnePerChain(st: Store, clock: DateTime)
    requires Valid(st, clock)
    ensures forall a, b | a in OpenResourceRecords(st) && b in OpenResourceRecords(st) :: a.rid == b.rid ==> a == b
  {
    forall a, b | a in OpenResourceRecords(st) && b in OpenResourceRecords(st) && a.rid == b.rid
      ensures a == b
    {
      assert a in JoinedRows(st) && b in JoinedRows(st);
      OpenVersionUnique(st, clock, a.rid, a.version, b.version);
    }
  }

  /** The open records are exactly the current versions: each is what
      `get_current_version` returns for its chain, and every current version
      is among them. */
  lemma OpenRecordsAreCurrentVersions(st: Store, clock: DateTime)
    requires Valid(st, clock)
    ensures forall j | j in OpenResourceRecords(st) :: GetCurrentVersion(st, j.rid) == Some(j.ResourcePart())
    ensures forall rid | GetCurrentVersion(st, rid).Some? ::
              var cur := GetCurrentVersion(st, rid).value;
              (rid, cur.version) in st.resources && JoinAt(st, (rid, cur.version)) in OpenResourceRecords(st)
  {
    forall j | j in OpenResourceRecords(st)
      ensures GetCurrentVersion(st, j.rid) == Some(j.ResourcePart())
    {
      assert j in JoinedRows(st);
      OpenIsCurrent(st, clock, j.rid, j.version);
    }
    forall rid | GetCurrentVersion(st, rid).Some?
      ensures var cur := GetCurrentVersion(st, rid).value;
              (rid, cur.version) in st.resources && JoinAt(st, (rid, cur.version)) in OpenResourceRecords(st)
    {
      CurrentIsLast(st, clock, rid);
    }
  }

  /** At any instant from the last call up to the sentinel, the as-of view
      is the open records: an as-of query then answers exactly as
      `get_active_resources` does for the same date. */
  lemma AsOfNowIsActive(st: Store, clock: DateTime, businessDate: Date, processing: Option<DateTime>, now: DateTime)
    requires Valid(st, clock)
    requires clock <= processing.GetOr(now) < InfinityDateTime
    ensures AsOfQuery(st, businessDate, processing, now) == ActiveResources(st, businessDate)
  {
    var a := AsOfQuery(st, businessDate, processing, now);
    var b := ActiveResources(st, businessDate);
    forall j
      ensures j in a <==> j in b
    {
      if j in a {
        assert j in JoinedRows(st);
      }
      if j in b {
        assert j in JoinedRows(st);
      }
    }
  }

  /** The keys of the records a query returned. */
  function SeenKeys(r: set<ResourceWithWorker>): set<Key> {
    set j | j in r :: (j.rid, j.version)
  }

  /** A record seen after `Advance` from an instant `p` before `now` was
      seen before it, as it was or, for version `k`, with its close instant. */
  lemma AdvanceSeenBefore(st: Store, rid: int, k: int, row: ResourceRow, now: DateTime, businessDate: Date, p: DateTime,
                          j: ResourceWithWorker)
    requires Closable(st, rid, k, row, now) && p < now <= InfinityDateTime
    requires j in AsOfQuery(Advance(st, rid, k, row, now), businessDate, Some(p), now)
    ensures (j.rid, j.version) in SeenKeys(AsOfQuery(st, businessDate, Some(p), now))
    ensures var before := AsOfQuery(st, businessDate, Some(p), now);
            j in before || (j.rid == rid && j.procEnd == now && j.(procEnd := InfinityDateTime) in before)
  {
    var st' := Advance(st, rid, k, row, now);
    var key := (j.rid, j.version);
    assert j in JoinedRows(st');
    assert key != (rid, k + 1);
    assert key in st.resources;
    var was := JoinAt(st, key);
    if key == (rid, k) {
      assert st'.resources[key] == st.resources[key].(procEnd := now);
      assert was in AsOfQuery(st, businessDate, Some(p), now);
      assert j == was.(procEnd := now);
    } else {
      assert st'.resources[key] == st.resources[key];
      assert was in AsOfQuery(st, businessDate, Some(p), now);
      assert j == was;
    }
  }

  /** A version seen before `Advance` from an instant before `now` is still seen. */
  lemma AdvanceSeenAfter(st: Store, rid: int, k: int, row: ResourceRow, now: DateTime, businessDate: Date, p: DateTime,
                         j: ResourceWithWorker)
    requires Closable(st, rid, k, row, now) && p < now <= InfinityDateTime
    requires j in AsOfQuery(st, businessDate, Some(p), now)
    ensures (j.rid, j.version) in SeenKeys(AsOfQuery(Advance(st, rid, k, row, now), businessDate, Some(p), now))
  {
    var st' := Advance(st, rid, k, row, now);
    var key := (j.rid, j.version);
    assert j in JoinedRows(st);
    assert key != (rid, k + 1);
    assert st'.resources[key].wid == st.resources[key].wid;
    assert JoinAt(st', key) in AsOfQuery(st', businessDate, Some(p), now);
  }

  /** `Advance` seen from an instant before `now`: the same versions, each
      record as before except that version `k` shows its close instant. */
  lemma AdvanceKeepsHistory(st: Store, rid: int, k: int, row: ResourceRow, now: DateTime, businessDate: Date, p: DateTime)
    requires Closable(st, rid, k, row, now) && p < now <= InfinityDateTime
    ensures var before := AsOfQuery(st, businessDate, Some(p), now);
            var after := AsOfQuery(Advance(st, rid, k, row, now), businessDate, Some(p), now);
            && SeenKeys(after) == SeenKeys(before)
            && forall j | j in after ::
                 j in before || (j.rid == rid && j.procEnd == now && j.(procEnd := InfinityDateTime) in before)
  {
    var before := AsOfQuery(st, businessDate, Some(p), now);
    var after := AsOfQuery(Advance(st, rid, k, row, now), businessDate, Some(p), now);
    forall j | j in after
      ensures (j.rid, j.version) in SeenKeys(before)
      ensures j in before || (j.rid == rid && j.procEnd == now && j.(procEnd := InfinityDateTime) in before)
    {
      AdvanceSeenBefore(st, rid, k, row, now, businessDate, p, j);
    }
    forall j | j in before
      ensures (j.rid, j.version) in SeenKeys(after)
    {
      AdvanceSeenAfter(st, rid, k, row, now, businessDate, p, j);
    }
  }

  /** History is stable: an as-of query for an instant before an update sees
      the same versions afterwards, and each record as before, except that the
      version the update closed now shows its close instant. */
  lemma UpdateKeepsHistory(st: Store, rid: int, resStart: Option<Date>, resEnd: Option<Date>, now: DateTime,
                           businessDate: Date, p: DateTime)
    requires p < now
    ensures var st' := UpdateResource(st, rid, resStart, resEnd, now).store;
            var before := AsOfQuery(st, businessDate, Some(p), now);
            var after := AsOfQuery(st', businessDate, Some(p), now);
            && SeenKeys(after) == SeenKeys(before)
            && forall j | j in after ::
                 j in before || (j.rid == rid && j.procEnd == now && j.(procEnd := InfinityDateTime) in before)
  {
    if UpdateResource(st, rid, resStart, resEnd, now).result.Ok? {
      UpdateIsAdvance(st, rid, resStart, resEnd, now);
      var cur := GetCurrentVersion(st, rid).value;
      AdvanceKeepsHistory(st, rid, cur.version, MergedRow(cur, resStart, resEnd, now), now, businessDate, p);
    }
  }

  /** A record seen after `Found` from an instant before `now` was seen before. */
  lemma FoundSeenBefore(st: Store, worker: WorkerRow, row: ResourceRow, now: DateTime, businessDate: Date, p: DateTime,
                        j: ResourceWithWorker)
    requires ReferentialIntegrity(st) && st.nextWid !in st.workers && (st.nextRid, 1) !in st.resources
    requires row.procStart == now && p < now
    requires j in AsOfQuery(Found(st, st.nextWid, worker, st.nextRid, row), businessDate, Some(p), now)
    ensures j in AsOfQuery(st, businessDate, Some(p), now)
  {
    var st' := Found(st, st.nextWid, worker, st.nextRid, row);
    var key := (j.rid, j.version);
    assert j in JoinedRows(st');
    assert key != (st.nextRid, 1);
    assert key in st.resources && st'.resources[key] == st.resources[key];
    var w := st.resources[key].wid;
    assert w in st.workers && w != st.nextWid;
    assert st'.workers[w] == st.workers[w];
    assert j == JoinAt(st, key);
  }

  /** A record seen before `Found` is still seen, unchanged. */
  lemma FoundSeenAfter(st: Store, worker: WorkerRow, row: ResourceRow, now: DateTime, businessDate: Date, p: DateTime,
                       j: ResourceWithWorker)
    requires st.nextWid !in st.workers && (st.nextRid, 1) !in st.resources
    requires j in AsOfQuery(st, businessDate, Some(p), now)
    ensures j in AsOfQuery(Found(st, st.nextWid, worker, st.nextRid, row), businessDate, Some(p), now)
  {
    var st' := Found(st, st.nextWid, worker, st.nextRid, row);
    var key := (j.rid, j.version);
    assert j in JoinedRows(st);
    assert key != (st.nextRid, 1);
    assert st'.resources[key] == st.resources[key];
    var w := st.resources[key].wid;
    assert w != st.nextWid && st'.workers[w] == st.workers[w];
    assert j == JoinAt(st', key);
  }

  /** `Found` seen from an instant before `now`: exactly as before. */
  lemma FoundKeepsHistory(st: Store, worker: WorkerRow, row: ResourceRow, now: DateTime, businessDate: Date, p: DateTime)
    requires ReferentialIntegrity(st) && st.nextWid !in st.workers && (st.nextRid, 1) !in st.resources
    requires row.procStart == now && p < now
    ensures AsOfQuery(Found(st, st.nextWid, worker, st.nextRid, row), businessDate, Some(p), now)
            == AsOfQuery(st, businessDate, Some(p), now)
  {
    var before := AsOfQuery(st, businessDate, Some(p), now);
    var after := AsOfQuery(Found(st, st.nextWid, worker, st.nextRid, row), businessDate, Some(p), now);
    forall j | j in after
      ensures j in before
    {
      FoundSeenBefore(st, worker, row, now, businessDate, p, j);
    }
    forall j | j in before
      ensures j in after
    {
      FoundSeenAfter(st, worker, row, now, businessDate, p, j);
    }
  }

  /** History is stable under Create as well: an as-of query for an instant
      before the Create answers exactly as before it. */
  lemma CreateKeepsHistory(st: Store, name: Option<string>, org: Option<string>, workerType: Option<string>,
                           resStart: Option<Date>, now: DateTime, businessDate: Date, p: DateTime)
    requires ReferentialIntegrity(st)
    requires p < now
    ensures var st' := CreateWorkerAndResource(st, name, org, workerType, resStart, now).store;
            AsOfQuery(st', businessDate, Some(p), now) == AsOfQuery(st, businessDate, Some(p), now)
  {
    if CreateWorkerAndResource(st, name, org, workerType, resStart, now).result.Ok? {
      CreateOkArgs(st, name, org, workerType, resStart, now);
      CreateIsFound(st, name, org, workerType, resStart, now);
      FoundKeepsHistory(st, WorkerRow(name.value, org.value, workerType.value), CreatedRow(st, resStart.value, now),
                        now, businessDate, p);
    }
  }

  /** Version `v` is the only version of chain `rid` whose processing range holds `p`. */
  ghost predicate OnlyVersionAt(st: Store, rid: int, v: int, p: DateTime) {
    forall u | (rid, u) in st.resources && st.resources[(rid, u)].procStart <= p < st.resources[(rid, u)].procEnd :: u == v
  }

  /** When version `v`, stored as `row` with an existing worker, is the only
      version of chain `rid` current at `p`, an as-of query for `p` sees the
      chain only through `v`, and sees it exactly when the business date lies
      in its range. */
  lemma AsOfSeesOneVersion(st: Store, rid: int, v: int, row: ResourceRow, businessDate: Date, p: DateTime, now: DateTime)
    requires (rid, v) in st.resources && st.resources[(rid, v)] == row && row.wid in st.workers
    requires row.procStart <= p < row.procEnd && OnlyVersionAt(st, rid, v, p)
    ensures var r := AsOfQuery(st, businessDate, Some(p), now);
            && (forall j | j in r && j.rid == rid :: j.version == v)
            && (row.resStart <= businessDate < row.resEnd <==> exists j | j in r :: j.rid == rid)
  {
    var r := AsOfQuery(st, businessDate, Some(p), now);
    forall j | j in r && j.rid == rid
      ensures j == JoinAt(st, (rid, v))
    {
      assert j in JoinedRows(st);
    }
    if row.resStart <= businessDate < row.resEnd {
      assert JoinAt(st, (rid, v)) in r;
    }
  }

  /** After `Advance`, `row` is stored as version `k + 1` with an existing
      worker, and it is the only version of chain `rid` current at any
      instant from `now` up to the sentinel: the earlier versions all closed
      by `now`. */
  lemma AdvanceStoresNext(st: Store, clock: DateTime, rid: int, k: int, row: ResourceRow, now: DateTime, p: DateTime)
    requires Valid(st, clock) && clock <= now <= p < InfinityDateTime
    requires Closable(st, rid, k, row, now)
    ensures var st' := Advance(st, rid, k, row, now);
            && (rid, k + 1) in st'.resources && st'.resources[(rid, k + 1)] == row && row.wid in st'.workers
            && OnlyVersionAt(st', rid, k + 1, p)
  {
    var st' := Advance(st, rid, k, row, now);
    forall u | (rid, u) in st'.resources && st'.resources[(rid, u)].procStart <= p < st'.resources[(rid, u)].procEnd
      ensures u == k + 1
    {
      if u > k + 1 {
        EarlierVersionsPresent(st, rid, u, k + 1);
      } else if u < k {
        ProcessingOrdered(st, clock, rid, u, k);
      }
    }
  }

  /** `Advance` seen from an instant from `now` up to the sentinel: chain
      `rid` shows only version `k + 1`, whenever the date is in its range. */
  lemma AsOfAfterAdvance(st: Store, clock: DateTime, rid: int, k: int, row: ResourceRow, now: DateTime,
                         businessDate: Date, p: DateTime)
    requires Valid(st, clock) && clock <= now <= p < InfinityDateTime
    requires Closable(st, rid, k, row, now)
    ensures var r := AsOfQuery(Advance(st, rid, k, row, now), businessDate, Some(p), now);
            && (forall j | j in r && j.rid == rid :: j.version == k + 1)
            && (row.resStart <= businessDate < row.resEnd <==> exists j | j in r :: j.rid == rid)
  {
    AdvanceStoresNext(st, clock, rid, k, row, now, p);
    AsOfSeesOneVersion(Advance(st, rid, k, row, now), rid, k + 1, row, businessDate, p, now);
  }

  /** After an update at `now`, an as-of query for an instant from `now` up
      to the sentinel sees chain `rid` only through the new version `k + 1`,
      and sees it exactly when the business date lies in its merged range. */
  lemma AsOfAfterUpdate(st: Store, clock: DateTime, rid: int, resStart: Option<Date>, resEnd: Option<Date>, now: DateTime,
                        businessDate: Date, p: DateTime)
    requires Valid(st, clock) && clock <= now <= p < InfinityDateTime
    requires UpdateResource(st, rid, resStart, resEnd, now).result.Ok?
    ensures GetCurrentVersion(st, rid).Some?
    ensures var st' := UpdateResource(st, rid, resStart, resEnd, now).store;
            var cur := GetCurrentVersion(st, rid).value;
            var r := AsOfQuery(st', businessDate, Some(p), now);
            && (forall j | j in r && j.rid == rid :: j.version == cur.version + 1)
            && (resStart.GetOr(cur.resStart) <= businessDate < resEnd.GetOr(cur.resEnd) <==>
                  exists j | j in r :: j.rid == rid)
  {
    UpdateIsAdvance(st, rid, resStart, resEnd, now);
    var cur := GetCurrentVersion(st, rid).value;
    AsOfAfterAdvance(st, clock, rid, cur.version, MergedRow(cur, resStart, resEnd, now), now, businessDate, p);
  }
}
