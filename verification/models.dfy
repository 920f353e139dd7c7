/** Time axes, sentinels and record shapes of the worker-resource store.

    Business dates are Python `date` values, represented by their proleptic
    Gregorian ordinal (`date.toordinal()`: 0001-01-01 is 1, 9999-12-31 is
    3652059).  Processing timestamps are naive Python `datetime` values,
    represented as microseconds elapsed since 0001-01-01 00:00:00, so the
    last representable instant is 9999-12-31 23:59:59.999999. */
module Models {

  /** Ordinal of 9999-12-31, the largest date Python can represent. */
  const LastOrdinal: int := 3652059

  const MicrosPerMinute: int := 60_000_000
  const MicrosPerDay: int := 86_400_000_000

  /** The last microsecond of 9999-12-31. */
  const LastInstant: int := LastOrdinal * MicrosPerDay - 1

  type Date = d: int | 1 <= d <= LastOrdinal witness 1

  type DateTime = t: int | 0 <= t <= LastInstant witness 0

  /** `INFINITY_DATE`, 9999-12-31: the open end of a business range. */
  const InfinityDate: Date := LastOrdinal

  /** `INFINITY_DATETIME`, 9999-12-31 23:59:00: the end of an open version's processing range. */
  const InfinityDateTime: DateTime := (LastOrdinal - 1) * MicrosPerDay + (23 * 60 + 59) * MicrosPerMinute

  /** The business sentinel is the top of the business axis: no date lies after it. */
  lemma InfinityDateIsTop(d: Date)
    ensures d <= InfinityDate
  {
  }

  /** The processing sentinel is not the top of the processing axis: the last
      59.999999 seconds of 9999-12-31 lie after it. */
  lemma InfinityDateTimeIsNotTop()
    ensures InfinityDateTime < LastInstant
  {
  }

  /** A row of the `worker` table. */
  datatype Worker = Worker(wid: int, name: string, org: string, workerType: string)

  /** A row of the `resource` table: one version of the chain `rid`, with its
      business range `[resStart, resEnd)` and processing range `[procStart, procEnd)`. */
  datatype Resource = Resource(
    rid: int,
    version: int,
    wid: int,
    resStart: Date,
    resEnd: Date,
    procStart: DateTime,
    procEnd: DateTime)
  {
    /** The version is the chain's current one: its processing range is unbounded. */
    predicate IsOpen() {
      procEnd == InfinityDateTime
    }
  }

  /** A query result row: a resource version joined with its worker's attributes. */
  datatype ResourceWithWorker = ResourceWithWorker(
    rid: int,
    version: int,
    wid: int,
    name: string,
    org: string,
    workerType: string,
    resStart: Date,
    resEnd: Date,
    procStart: DateTime,
    procEnd: DateTime)
  {
    /** The resource columns of the joined row. */
    function ResourcePart(): Resource {
      Resource(rid, version, wid, resStart, resEnd, procStart, procEnd)
    }

    /** The worker columns of the joined row. */
    function WorkerPart(): Worker {
      Worker(wid, name, org, workerType)
    }
  }

  /** The row `JOIN worker w ON r.WID = w.WID` produces for `r` and `w`.
      Nothing is lost: both inputs can be read back from the joined row. */
  function Join(r: Resource, w: Worker): (j: ResourceWithWorker)
    requires r.wid == w.wid
    ensures j.ResourcePart() == r
    ensures j.WorkerPart() == w
  {
    ResourceWithWorker(r.rid, r.version, r.wid, w.name, w.org, w.workerType,
                       r.resStart, r.resEnd, r.procStart, r.procEnd)
  }
}
