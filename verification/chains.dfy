/** The version-chain invariant of the store and the proofs that Create and
    Update preserve it, given a wall clock that never runs backwards.

    The invariant is parameterised by `clock`, the instant of the latest
    operation: no stored processing instant lies after it. */
module Chains {
  import opened Results
  import opened Models
  import opened Repositories
  import opened Services

  /** Every id in use was drawn from its sequence, so the sequences run ahead of them. */
  predicate IdsBelowSequences(st: Store) {
    && (forall w | w in st.workers :: w < st.nextWid)
    && (forall k | k in st.resources :: k.0 < st.nextRid)
  }

  /** Every version names an existing worker. */
  predicate ReferentialIntegrity(st: Store) {
    forall k | k in st.resources :: st.resources[k].wid in st.workers
  }

  /** Both ranges of every version are ordered. */
  predicate RangesOrdered(st: Store) {
    forall k | k in st.resources ::
      st.resources[k].resStart <= st.resources[k].resEnd && st.resources[k].procStart <= st.resources[k].procEnd
  }

  /** Version numbers start at 1 and have no gaps. */
  predicate NumberedFromOne(st: Store) {
    forall k | k in st.resources :: k.1 >= 1 && (k.1 > 1 ==> (k.0, k.1 - 1) in st.resources)
  }

  /** A version is open exactly when it is the last of its chain. */
  predicate OpenIsLast(st: Store) {
    forall k | k in st.resources :: st.resources[k].procEnd == InfinityDateTime <==> (k.0, k.1 + 1) !in st.resources
  }

  /** Each version's processing range starts where its predecessor's ended, and
      both belong to the same worker. */
  predicate Tiled(st: Store) {
    forall k | k in st.resources && (k.0, k.1 + 1) in st.resources ::
      && st.resources[(k.0, k.1 + 1)].procStart == st.resources[k].procEnd
      && st.resources[(k.0, k.1 + 1)].wid == st.resources[k].wid
  }

  /** No stored processing instant lies after `clock`, the open sentinel aside. */
  predicate NotAfter(st: Store, clock: DateTime) {
    forall k | k in st.resources ::
      && st.resources[k].procStart <= clock
      && (st.resources[k].procEnd != InfinityDateTime ==> st.resources[k].procEnd <= clock)
  }

  /** The store invariant after any sequence of Creates and Updates whose last call ran at `clock`. */
  predicate Valid(st: Store, clock: DateTime) {
    && IdsBelowSequences(st)
    && ReferentialIntegrity(st)
    && RangesOrdered(st)
    && NumberedFromOne(st)
    && OpenIsLast(st)
    && Tiled(st)
    && NotAfter(st, clock)
  }

  lemma EmptyStoreIsValid(clock: DateTime)
    ensures Valid(EmptyStore, clock)
  {
  }

  /** The invariant only weakens as the clock advances. */
  lemma ValidLater(st: Store, clock: DateTime, later: DateTime)
    requires Valid(st, clock) && clock <= later
    ensures Valid(st, later)
  {
  }

  // ---------------------------------------------------------------------------
  // Preservation
  // ---------------------------------------------------------------------------

  /** Drawing sequence values without storing anything keeps the invariant. */
  lemma DrawPreservesValid(st: Store, clock: DateTime, st': Store, now: DateTime)
    requires Valid(st, clock) && clock <= now
    requires st'.workers == st.workers && st'.resources == st.resources
    requires st'.nextWid >= st.nextWid && st'.nextRid >= st.nextRid
    ensures Valid(st', now)
  {
  }

  /** The state change of a successful Create: worker `wid` and version 1 of chain `rid`. */
  function Found(st: Store, wid: int, worker: WorkerRow, rid: int, row: ResourceRow): Store {
    Store(st.workers[wid := worker], st.resources[(rid, 1) := row], wid + 1, rid + 1)
  }

  lemma FoundKeepsNumbering(st: Store, wid: int, worker: WorkerRow, rid: int, row: ResourceRow)
    requires IdsBelowSequences(st) && NumberedFromOne(st) && rid == st.nextRid
    ensures NumberedFromOne(Found(st, wid, worker, rid, row))
  {
    var res := Found(st, wid, worker, rid, row).resources;
    forall k | k in res
      ensures k.1 >= 1 && (k.1 > 1 ==> (k.0, k.1 - 1) in res)
    {
      if k != (rid, 1) {
        assert k in st.resources;
      }
    }
  }

  lemma FoundKeepsOpenIsLast(st: Store, wid: int, worker: WorkerRow, rid: int, row: ResourceRow)
    requires IdsBelowSequences(st) && OpenIsLast(st)
    requires rid == st.nextRid && row.procEnd == InfinityDateTime
    ensures OpenIsLast(Found(st, wid, worker, rid, row))
  {
    var res := Found(st, wid, worker, rid, row).resources;
    forall k | k in res
      ensures res[k].procEnd == InfinityDateTime <==> (k.0, k.1 + 1) !in res
    {
      if k != (rid, 1) {
        assert k in st.resources && k.0 != rid && res[k] == st.resources[k];
        assert (k.0, k.1 + 1) in res <==> (k.0, k.1 + 1) in st.resources;
      } else {
        assert (rid, 2) !in st.resources;
      }
    }
  }

  lemma FoundKeepsTiling(st: Store, wid: int, worker: WorkerRow, rid: int, row: ResourceRow)
    requires IdsBelowSequences(st) && Tiled(st) && rid == st.nextRid
    ensures Tiled(Found(st, wid, worker, rid, row))
  {
    var res := Found(st, wid, worker, rid, row).resources;
    forall k | k in res && (k.0, k.1 + 1) in res
      ensures res[(k.0, k.1 + 1)].procStart == res[k].procEnd && res[(k.0, k.1 + 1)].wid == res[k].wid
    {
      if k != (rid, 1) {
        assert k in st.resources && k.0 != rid;
        assert (k.0, k.1 + 1) in st.resources;
      }
    }
  }

  lemma FoundKeepsRest(st: Store, clock: DateTime, wid: int, worker: WorkerRow, rid: int, row: ResourceRow, now: DateTime)
    requires IdsBelowSequences(st) && ReferentialIntegrity(st) && RangesOrdered(st) && NotAfter(st, clock)
    requires wid == st.nextWid && rid == st.nextRid && clock <= now
    requires row.wid == wid && row.resStart <= row.resEnd && row.procStart == now <= row.procEnd == InfinityDateTime
    ensures var st' := Found(st, wid, worker, rid, row);
            IdsBelowSequences(st') && ReferentialIntegrity(st') && RangesOrdered(st') && NotAfter(st', now)
  {
    var res := Found(st, wid, worker, rid, row).resources;
    forall k | k in res
      ensures k == (rid, 1) || (k in st.resources && res[k] == st.resources[k])
    {
    }
  }

  /** Version 1 as `create_worker_and_resource` builds it. */
  function CreatedRow(st: Store, resStart: Date, now: DateTime): ResourceRow {
    ResourceRow(st.nextWid, resStart, InfinityDate, now, InfinityDateTime)
  }

  /** A successful Create had valid arguments, a fresh WID and a fresh RID. */
  lemma CreateOkArgs(st: Store, name: Option<string>, org: Option<string>, workerType: Option<string>,
                     resStart: Option<Date>, now: DateTime)
    requires CreateWorkerAndResource(st, name, org, workerType, resStart, now).result.Ok?
    ensures CreateArgsValid(name, org, workerType, resStart)
    ensures now <= InfinityDateTime && st.nextWid !in st.workers && (st.nextRid, 1) !in st.resources
  {
  }

  /** A successful Create is the step `Found` with the drawn WID and RID. */
  lemma CreateIsFound(st: Store, name: Option<string>, org: Option<string>, workerType: Option<string>,
                      resStart: Option<Date>, now: DateTime)
    requires CreateWorkerAndResource(st, name, org, workerType, resStart, now).result.Ok?
    ensures name.Some? && org.Some? && workerType.Some? && resStart.Some?
    ensures CreateWorkerAndResource(st, name, org, workerType, resStart, now).store
            == Found(st, st.nextWid, WorkerRow(name.value, org.value, workerType.value),
                     st.nextRid, CreatedRow(st, resStart.value, now))
  {
  }

  /** Storing a fresh worker and version 1 of a fresh chain, open from `now`,
      keeps the invariant. */
  lemma FoundPreservesValid(st: Store, clock: DateTime, st': Store, worker: WorkerRow, row: ResourceRow, now: DateTime)
    requires Valid(st, clock) && clock <= now
    requires row.wid == st.nextWid && row.resStart <= row.resEnd && row.procStart == now <= row.procEnd == InfinityDateTime
    requires st' == Found(st, st.nextWid, worker, st.nextRid, row)
    ensures Valid(st', now)
  {
    FoundKeepsNumbering(st, st.nextWid, worker, st.nextRid, row);
    FoundKeepsOpenIsLast(st, st.nextWid, worker, st.nextRid, row);
    FoundKeepsTiling(st, st.nextWid, worker, st.nextRid, row);
    FoundKeepsRest(st, clock, st.nextWid, worker, st.nextRid, row, now);
  }

  /** A successful Create stores a fresh worker and version 1 of a fresh
      chain, open from `now`, and so keeps the invariant. */
  lemma CreateOkPreservesValid(st: Store, clock: DateTime, name: Option<string>, org: Option<string>,
                               workerType: Option<string>, resStart: Option<Date>, now: DateTime)
    requires Valid(st, clock) && clock <= now
    requires CreateWorkerAndResource(st, name, org, workerType, resStart, now).result.Ok?
    ensures Valid(CreateWorkerAndResource(st, name, org, workerType, resStart, now).store, now)
  {
    CreateOkArgs(st, name, org, workerType, resStart, now);
    CreateIsFound(st, name, org, workerType, resStart, now);
    FoundPreservesValid(st, clock, CreateWorkerAndResource(st, name, org, workerType, resStart, now).store,
                        WorkerRow(name.value, org.value, workerType.value), CreatedRow(st, resStart.value, now), now);
  }

  /** A failed Create stores nothing, at most drawing sequence values. */
  lemma CreateErrPreservesValid(st: Store, clock: DateTime, name: Option<string>, org: Option<string>,
                                workerType: Option<string>, resStart: Option<Date>, now: DateTime)
    requires Valid(st, clock) && clock <= now
    requires CreateWorkerAndResource(st, name, org, workerType, resStart, now).result.Err?
    ensures Valid(CreateWorkerAndResource(st, name, org, workerType, resStart, now).store, now)
  {
    DrawPreservesValid(st, clock, CreateWorkerAndResource(st, name, org, workerType, resStart, now).store, now);
  }

  /** Create preserves the invariant: version 1 of a fresh chain, owned by a
      fresh worker, is open and starts at `now`, which is not before `clock`. */
  lemma CreatePreservesValid(st: Store, clock: DateTime, name: Option<string>, org: Option<string>,
                             workerType: Option<string>, resStart: Option<Date>, now: DateTime)
    requires Valid(st, clock) && clock <= now
    ensures Valid(CreateWorkerAndResource(st, name, org, workerType, resStart, now).store, now)
  {
    if CreateWorkerAndResource(st, name, org, workerType, resStart, now).result.Ok? {
      CreateOkPreservesValid(st, clock, name, org, workerType, resStart, now);
    } else {
      CreateErrPreservesValid(st, clock, name, org, workerType, resStart, now);
    }
  }

  /** The state change of a successful Update: version `k` of chain `rid`, open
      until now, is closed at `now`, and `row` is inserted as version `k + 1`. */
  function Advance(st: Store, rid: int, k: int, row: ResourceRow, now: DateTime): Store
    requires (rid, k) in st.resources
  {
    st.(resources := st.resources[(rid, k) := st.resources[(rid, k)].(procEnd := now)][(rid, k + 1) := row])
  }

  /** What a successful Update has checked before it advances chain `rid`:
      version `k` is stored and open, `k + 1` is free, and `row` belongs to the
      same worker, has an ordered business range and is open from `now`. */
  predicate Closable(st: Store, rid: int, k: int, row: ResourceRow, now: DateTime) {
    && (rid, k) in st.resources
    && st.resources[(rid, k)].procEnd == InfinityDateTime
    && (rid, k + 1) !in st.resources
    && row.wid == st.resources[(rid, k)].wid
    && row.resStart <= row.resEnd
    && row.procStart == now
    && row.procEnd == InfinityDateTime
  }

  /** The facts about the store the preservation proofs rely on. */
  predicate AdvanceReady(st: Store, rid: int, k: int, row: ResourceRow, now: DateTime) {
    && Closable(st, rid, k, row, now)
    && (rid, k + 2) !in st.resources
    && now < InfinityDateTime
  }

  lemma AdvanceKeepsNumbering(st: Store, rid: int, k: int, row: ResourceRow, now: DateTime)
    requires NumberedFromOne(st) && AdvanceReady(st, rid, k, row, now)
    ensures NumberedFromOne(Advance(st, rid, k, row, now))
  {
  }

  lemma AdvanceKeepsOpenIsLast(st: Store, rid: int, k: int, row: ResourceRow, now: DateTime)
    requires OpenIsLast(st) && AdvanceReady(st, rid, k, row, now)
    ensures OpenIsLast(Advance(st, rid, k, row, now))
  {
    var res := Advance(st, rid, k, row, now).resources;
    forall key | key in res
      ensures res[key].procEnd == InfinityDateTime <==> (key.0, key.1 + 1) !in res
    {
      if key != (rid, k) && key != (rid, k + 1) {
        assert key in st.resources && res[key] == st.resources[key];
        assert (key.0, key.1 + 1) in res <==> (key.0, key.1 + 1) in st.resources;
      }
    }
  }

  lemma AdvanceKeepsTiling(st: Store, rid: int, k: int, row: ResourceRow, now: DateTime)
    requires Tiled(st) && AdvanceReady(st, rid, k, row, now)
    ensures Tiled(Advance(st, rid, k, row, now))
  {
    var res := Advance(st, rid, k, row, now).resources;
    forall key | key in res && (key.0, key.1 + 1) in res
      ensures res[(key.0, key.1 + 1)].procStart == res[key].procEnd
      ensures res[(key.0, key.1 + 1)].wid == res[key].wid
    {
      if key != (rid, k) && key != (rid, k + 1) {
        assert key in st.resources && res[key] == st.resources[key];
        assert (key.0, key.1 + 1) in st.resources;
        assert (key.0, key.1 + 1) != (rid, k + 1);
      }
    }
  }

  lemma AdvanceKeepsRest(st: Store, clock: DateTime, rid: int, k: int, row: ResourceRow, now: DateTime)
    requires IdsBelowSequences(st) && ReferentialIntegrity(st) && RangesOrdered(st) && NotAfter(st, clock)
    requires AdvanceReady(st, rid, k, row, now) && clock <= now
    ensures var st' := Advance(st, rid, k, row, now);
            IdsBelowSequences(st') && ReferentialIntegrity(st') && RangesOrdered(st') && NotAfter(st', now)
  {
    var res := Advance(st, rid, k, row, now).resources;
    forall key | key in res
      ensures key == (rid, k + 1) || key in st.resources
      ensures key in st.resources && key != (rid, k) ==> res[key] == st.resources[key]
      ensures key == (rid, k) ==> res[key].procStart == st.resources[key].procStart <= clock
    {
    }
  }

  /** Closing the open version at `now` and inserting its successor, open
      from `now` and owned by the same worker, preserves the invariant,
      provided `now` is neither before `clock` nor the sentinel itself. */
  lemma AdvancePreservesValid(st: Store, clock: DateTime, rid: int, k: int, row: ResourceRow, now: DateTime)
    requires Valid(st, clock) && clock <= now < InfinityDateTime
    requires Closable(st, rid, k, row, now)
    ensures Valid(Advance(st, rid, k, row, now), now)
  {
    assert (rid, k + 2) !in st.resources;
    AdvanceKeepsNumbering(st, rid, k, row, now);
    AdvanceKeepsOpenIsLast(st, rid, k, row, now);
    AdvanceKeepsTiling(st, rid, k, row, now);
    AdvanceKeepsRest(st, clock, rid, k, row, now);
  }

  /** Version `k + 1` as `update_resource` builds it from the current version:
      supplied bounds verbatim, omitted ones copied, open from `now`. */
  function MergedRow(cur: Resource, resStart: Option<Date>, resEnd: Option<Date>, now: DateTime): ResourceRow {
    ResourceRow(cur.wid, resStart.GetOr(cur.resStart), resEnd.GetOr(cur.resEnd), now, InfinityDateTime)
  }

  /** A successful update is the step `Advance` from the current version. */
  lemma UpdateIsAdvance(st: Store, rid: int, resStart: Option<Date>, resEnd: Option<Date>, now: DateTime)
    requires UpdateResource(st, rid, resStart, resEnd, now).result.Ok?
    ensures GetCurrentVersion(st, rid).Some?
    ensures var cur := GetCurrentVersion(st, rid).value;
            && Closable(st, rid, cur.version, MergedRow(cur, resStart, resEnd, now), now)
            && now <= InfinityDateTime
            && UpdateResource(st, rid, resStart, resEnd, now).store
               == Advance(st, rid, cur.version, MergedRow(cur, resStart, resEnd, now), now)
  {
  }

  lemma UpdateOkPreservesValid(st: Store, clock: DateTime, rid: int, resStart: Option<Date>, resEnd: Option<Date>, now: DateTime)
    requires Valid(st, clock) && clock <= now < InfinityDateTime
    requires UpdateResource(st, rid, resStart, resEnd, now).result.Ok?
    ensures Valid(UpdateResource(st, rid, resStart, resEnd, now).store, now)
  {
    UpdateIsAdvance(st, rid, resStart, resEnd, now);
    var cur := GetCurrentVersion(st, rid).value;
    AdvancePreservesValid(st, clock, rid, cur.version, MergedRow(cur, resStart, resEnd, now), now);
  }

  /** Update preserves the invariant when the clock has not run backwards and
      has not reached the sentinel. */
  lemma UpdatePreservesValid(st: Store, clock: DateTime, rid: int, resStart: Option<Date>, resEnd: Option<Date>, now: DateTime)
    requires Valid(st, clock) && clock <= now < InfinityDateTime
    ensures Valid(UpdateResource(st, rid, resStart, resEnd, now).store, now)
  {
    if UpdateResource(st, rid, resStart, resEnd, now).result.Ok? {
      UpdateOkPreservesValid(st, clock, rid, resStart, resEnd, now);
    } else {
      ValidLater(st, clock, now);
    }
  }

  // ---------------------------------------------------------------------------
  // Shape of a chain
  // ---------------------------------------------------------------------------

  /** The version numbers of chain `rid`. */
  function VersionsOf(st: Store, rid: int): set<int> {
    set k | k in st.resources && k.0 == rid :: k.1
  }

  /** Every version below a stored one is stored too. */
  lemma {:induction false} EarlierVersionsPresent(st: Store, rid: int, v: int, u: int)
    requires NumberedFromOne(st)
    requires (rid, v) in st.resources && 1 <= u <= v
    ensures (rid, u) in st.resources
    decreases v - u
  {
    if u < v {
      assert (rid, v - 1) in st.resources;
      EarlierVersionsPresent(st, rid, v - 1, u);
    }
  }

  /** Chain `rid` has a highest version. */
  lemma HighestVersionExists(st: Store, rid: int)
    requires ChainKeys(st, rid) != {}
    ensures exists m :: (rid, m) in st.resources && forall k | k in st.resources && k.0 == rid :: k.1 <= m
  {
    var ks := SortedKeys(ChainKeys(st, rid));
    var last := ks[|ks| - 1];
    forall k | k in st.resources && k.0 == rid
      ensures k.1 <= last.1
    {
      assert k in ChainKeys(st, rid);
      var i :| 0 <= i < |ks| && ks[i] == k;
      if i < |ks| - 1 {
        assert KeyBefore(ks[i], last);
      }
    }
    assert last in ChainKeys(st, rid);
  }

  /** On a valid store the current version of a chain is its last one, owns
      an existing worker, has ordered ranges and started no later than `clock`. */
  lemma CurrentIsLast(st: Store, clock: DateTime, rid: int)
    requires Valid(st, clock) && GetCurrentVersion(st, rid).Some?
    ensures var cur := GetCurrentVersion(st, rid).value;
            && (rid, cur.version + 1) !in st.resources
            && cur.wid in st.workers
            && cur.resStart <= cur.resEnd
            && cur.procStart <= clock
  {
    var cur := GetCurrentVersion(st, rid).value;
    assert (rid, cur.version) in st.resources;
  }

  /** On a valid store every stored chain has a current version. */
  lemma ChainHasCurrent(st: Store, clock: DateTime, rid: int)
    requires Valid(st, clock) && ChainKeys(st, rid) != {}
    ensures GetCurrentVersion(st, rid).Some?
  {
    HighestVersionExists(st, rid);
    var m :| (rid, m) in st.resources && forall k | k in st.resources && k.0 == rid :: k.1 <= m;
    assert (rid, m + 1) !in st.resources;
    assert st.resources[(rid, m)].procEnd == InfinityDateTime;
  }

  /** A chain has at most one open version. */
  lemma OpenVersionUnique(st: Store, clock: DateTime, rid: int, a: int, b: int)
    requires Valid(st, clock)
    requires (rid, a) in st.resources && st.resources[(rid, a)].procEnd == InfinityDateTime
    requires (rid, b) in st.resources && st.resources[(rid, b)].procEnd == InfinityDateTime
    ensures a == b
  {
    if a < b {
      EarlierVersionsPresent(st, rid, b, a + 1);
    } else if b < a {
      EarlierVersionsPresent(st, rid, a, b + 1);
    }
  }

  /** On a valid store an open version is the one `get_current_version` returns. */
  lemma OpenIsCurrent(st: Store, clock: DateTime, rid: int, v: int)
    requires Valid(st, clock)
    requires (rid, v) in st.resources && st.resources[(rid, v)].procEnd == InfinityDateTime
    ensures GetCurrentVersion(st, rid) == Some(ResourceAt(st, (rid, v)))
  {
    var cur := GetCurrentVersion(st, rid).value;
    OpenVersionUnique(st, clock, rid, cur.version, v);
  }

  /** Every stored chain is numbered exactly `1..n`, and its only open version
      is `n`, the highest, which `get_current_version` returns. */
  lemma ChainShape(st: Store, clock: DateTime, rid: int)
    requires Valid(st, clock)
    requires ChainKeys(st, rid) != {}
    ensures GetCurrentVersion(st, rid).Some?
    ensures var n := GetCurrentVersion(st, rid).value.version;
            && n >= 1
            && (forall v :: v in VersionsOf(st, rid) <==> 1 <= v <= n)
            && (forall k | k in st.resources && k.0 == rid :: (st.resources[k].procEnd == InfinityDateTime <==> k.1 == n))
  {
    HighestVersionExists(st, rid);
    var m :| (rid, m) in st.resources && forall k | k in st.resources && k.0 == rid :: k.1 <= m;
    assert (rid, m + 1) !in st.resources;
    assert st.resources[(rid, m)].procEnd == InfinityDateTime;
    var cur := GetCurrentVersion(st, rid);
    assert cur.Some?;
    var n := cur.value.version;
    OpenVersionUnique(st, clock, rid, m, n);
    forall k | k in st.resources && k.0 == rid
      ensures st.resources[k].procEnd == InfinityDateTime <==> k.1 == n
    {
      if st.resources[k].procEnd == InfinityDateTime {
        OpenVersionUnique(st, clock, rid, k.1, n);
      }
    }
    forall v
      ensures v in VersionsOf(st, rid) <==> 1 <= v <= n
    {
      if v in VersionsOf(st, rid) {
        assert (rid, v) in st.resources;
      }
      if 1 <= v <= n {
        EarlierVersionsPresent(st, rid, n, v);
        assert (rid, v) in st.resources;
      }
    }
  }

  /** Processing ranges within a chain follow the version order: an earlier
      version ends no later than a later one starts. */
  lemma {:induction false} ProcessingOrdered(st: Store, clock: DateTime, rid: int, a: int, b: int)
    requires Valid(st, clock)
    requires (rid, b) in st.resources && 1 <= a < b
    ensures (rid, a) in st.resources
    ensures st.resources[(rid, a)].procEnd <= st.resources[(rid, b)].procStart
    decreases b - a
  {
    assert (rid, b - 1) in st.resources;
    assert st.resources[(rid, b)].procStart == st.resources[(rid, b - 1)].procEnd;
    if a < b - 1 {
      ProcessingOrdered(st, clock, rid, a, b - 1);
    }
  }

  /** Every version of a chain belongs to the same worker. */
  lemma {:induction false} ChainWid(st: Store, clock: DateTime, rid: int, a: int, b: int)
    requires Valid(st, clock)
    requires (rid, b) in st.resources && 1 <= a <= b
    ensures (rid, a) in st.resources
    ensures st.resources[(rid, a)].wid == st.resources[(rid, b)].wid
    decreases b - a
  {
    if a < b {
      assert (rid, b - 1) in st.resources;
      ChainWid(st, clock, rid, a, b - 1);
    }
  }

  /** At any processing instant at most one version of a chain is current. */
  lemma OneVersionAtEachInstant(st: Store, clock: DateTime, rid: int, a: int, b: int, p: int)
    requires Valid(st, clock)
    requires (rid, a) in st.resources && st.resources[(rid, a)].procStart <= p < st.resources[(rid, a)].procEnd
    requires (rid, b) in st.resources && st.resources[(rid, b)].procStart <= p < st.resources[(rid, b)].procEnd
    ensures a == b
  {
    if a < b {
      ProcessingOrdered(st, clock, rid, a, b);
    } else if b < a {
      ProcessingOrdered(st, clock, rid, b, a);
    }
  }
}
