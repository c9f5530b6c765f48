/**
 * The health-check history store (app/infrastructure/db/sqlite_health_check_repository.py)
 * as an in-memory table: `save` appends a row, and the queries are the functions the
 * SQL expresses (filter by service, order by timestamp descending, limit).
 */
module SqliteHealthCheckRepository {
  import opened Wrappers
  import opened ValueObjects
  import opened HealthCheck

  /** One row of the `health_checks` table (status and version as their string columns). */
  datatype HealthCheckRow = HealthCheckRow(
    serviceId: string,
    timestamp: Timestamp,
    status: string,
    latencyMs: Option<int>,
    version: Option<string>,
    versionMatchesExpected: Option<bool>,
    errorMessage: Option<string>)

  /**
   * The columns `save` writes: the status's string value, and the version's wrapped
   * string (a `Version` object is always truthy, so "" is stored as "").
   */
  function ToRow(r: HealthCheckResult): (row: HealthCheckRow)
    ensures HealthStatusFromValue(row.status) == Some(r.status)
    ensures row.serviceId == r.serviceId && row.timestamp == r.timestamp
    ensures row.version.Some? <==> r.version.Some?
    ensures row.version.Some? ==> Version(row.version.value) == r.version.value
  {
    HealthStatusValueRoundTrip(r.status);
    HealthCheckRow(
      r.serviceId, r.timestamp, r.status.Value(), r.latencyMs,
      if r.version.Some? then Some(r.version.value.value) else None,
      r.versionMatchesExpected, r.errorMessage)
  }

  /** A row `_to_domain` can convert: its status column names a `HealthStatus`. */
  predicate RowIsValid(row: HealthCheckRow)
  {
    row.status in HealthStatusValues
  }

  predicate RowsValid(rows: seq<HealthCheckRow>)
  {
    forall x :: x in rows ==> RowIsValid(x)
  }

  /** `_to_domain` as written: `Version(row.version) if row.version else None` turns "" into no version. */
  function ToDomainAsWritten(row: HealthCheckRow): (r: HealthCheckResult)
    requires RowIsValid(row)
    ensures r.version.Some? <==> row.version.Some? && row.version.value != ""
  {
    HealthCheckResult(
      row.serviceId, row.timestamp, HealthStatusFromValue(row.status).value, row.latencyMs,
      if row.version.Some? && row.version.value != "" then Some(Version(row.version.value)) else None,
      row.versionMatchesExpected, row.errorMessage)
  }

  /** As written, saving and loading keeps every field except an empty version, which comes back absent. */
  lemma SaveLoadAsWritten(r: HealthCheckResult)
    ensures RowIsValid(ToRow(r))
    ensures ToDomainAsWritten(ToRow(r)) == if r.version == Some(Version("")) then r.(version := None) else r
  {
    HealthStatusValueRoundTrip(r.status);
  }

  /**
   * As written, a result with version "" and a verdict comes back with a verdict but
   * no version, which the evaluator never produces.
   */
  lemma AsWrittenLosesVersionKeepsVerdict()
    ensures var r := HealthCheckResult("svc", 0, HealthStatus.Up, Some(12), Some(Version("")), Some(false), None);
            RowIsValid(ToRow(r))
            && ToDomainAsWritten(ToRow(r)).version.None?
            && ToDomainAsWritten(ToRow(r)).versionMatchesExpected == Some(false)
  {
  }

  /** `_to_domain` with the presence test the rest of the code base uses (`is not None`). */
  function ToDomain(row: HealthCheckRow): (r: HealthCheckResult)
    requires RowIsValid(row)
    ensures r.serviceId == row.serviceId && r.timestamp == row.timestamp
    ensures r.status.Value() == row.status
    ensures ToRow(r) == row
  {
    HealthCheckResult(
      row.serviceId, row.timestamp, HealthStatusFromValue(row.status).value, row.latencyMs,
      if row.version.Some? then Some(Version(row.version.value)) else None,
      row.versionMatchesExpected, row.errorMessage)
  }

  /** Saving then loading gives back exactly the saved result. */
  lemma SaveLoadRoundTrip(r: HealthCheckResult)
    ensures RowIsValid(ToRow(r)) && ToDomain(ToRow(r)) == r
  {
    HealthStatusValueRoundTrip(r.status);
  }

  /** What the as-written `_to_domain` makes of a result the corrected conversion gives back: "" is dropped. */
  function AsWrittenReload(r: HealthCheckResult): (q: HealthCheckResult)
    ensures q.version.Some? <==> r.version.Some? && r.version.value.value != ""
    ensures q.(version := r.version) == r
  {
    if r.version == Some(Version("")) then r.(version := None) else r
  }

  /** Every row reloads, as written, to its corrected reload with an empty version dropped. */
  lemma AsWrittenIsReloadOfCorrected(row: HealthCheckRow)
    requires RowIsValid(row)
    ensures ToDomainAsWritten(row) == AsWrittenReload(ToDomain(row))
  {
  }

  function ToDomainAll(rows: seq<HealthCheckRow>): (r: seq<HealthCheckResult>)
    requires RowsValid(rows)
    ensures |r| == |rows| && forall i :: 0 <= i < |rows| ==> r[i] == ToDomain(rows[i])
  {
    seq(|rows|, i requires 0 <= i < |rows| => ToDomain(rows[i]))
  }

  /** `WHERE service_id = sid`, keeping table order and every duplicate row. */
  function RowsOf(rows: seq<HealthCheckRow>, sid: ServiceId): (r: seq<HealthCheckRow>)
    ensures forall x :: x in r <==> x in rows && x.serviceId == sid
    ensures forall x :: multiset(r)[x] == if x.serviceId == sid then multiset(rows)[x] else 0
    ensures |r| <= |rows|
  {
    if rows == [] then []
    else
      assert rows == [rows[0]] + rows[1..];
      (if rows[0].serviceId == sid then [rows[0]] else []) + RowsOf(rows[1..], sid)
  }

  /** Newest first: no row is older than a row after it. */
  ghost predicate NewestFirstOrdered(s: seq<HealthCheckRow>)
  {
    forall i, j :: 0 <= i < j < |s| ==> s[i].timestamp >= s[j].timestamp
  }

  /** Inserts a row after every row at least as new (so among equal timestamps it comes last). */
  function InsertNewestFirst(row: HealthCheckRow, s: seq<HealthCheckRow>): (r: seq<HealthCheckRow>)
    ensures multiset(r) == multiset(s) + multiset{row}
  {
    if s == [] || s[0].timestamp < row.timestamp then [row] + s
    else
      assert s == [s[0]] + s[1..];
      [s[0]] + InsertNewestFirst(row, s[1..])
  }

  lemma {:induction false} InsertKeepsNewestFirst(row: HealthCheckRow, s: seq<HealthCheckRow>)
    requires NewestFirstOrdered(s)
    ensures NewestFirstOrdered(InsertNewestFirst(row, s))
  {
    if s == [] || s[0].timestamp < row.timestamp {
    } else {
      var t := InsertNewestFirst(row, s[1..]);
      InsertKeepsNewestFirst(row, s[1..]);
      forall k | 0 <= k < |t|
        ensures t[k].timestamp <= s[0].timestamp
      {
        assert t[k] in multiset(t);
        if t[k] != row {
          assert t[k] in multiset(s[1..]);
        }
      }
    }
  }

  /**
   * `ORDER BY timestamp DESC`, by insertion. Ties, which SQL leaves unordered, come out
   * with the later-inserted row first.
   */
  function NewestFirst(rows: seq<HealthCheckRow>): (r: seq<HealthCheckRow>)
    ensures multiset(r) == multiset(rows)
    ensures NewestFirstOrdered(r)
  {
    if rows == [] then []
    else
      assert rows == [rows[0]] + rows[1..];
      InsertKeepsNewestFirst(rows[0], NewestFirst(rows[1..]));
      InsertNewestFirst(rows[0], NewestFirst(rows[1..]))
  }

  /** A prefix of a newest-first sequence holds rows no older than any it leaves out. */
  lemma PrefixHoldsNewest(s: seq<HealthCheckRow>, k: nat)
    requires NewestFirstOrdered(s) && k <= |s|
    ensures multiset(s[..k]) <= multiset(s)
    ensures forall i, x :: 0 <= i < k && x in multiset(s) - multiset(s[..k]) ==> x.timestamp <= s[i].timestamp
  {
    assert s == s[..k] + s[k..];
    assert multiset(s) == multiset(s[..k]) + multiset(s[k..]);
    forall i, x | 0 <= i < k && x in multiset(s) - multiset(s[..k])
      ensures x.timestamp <= s[i].timestamp
    {
      assert x in multiset(s[k..]);
      assert x in s[k..];
      var j :| 0 <= j < |s[k..]| && s[k..][j] == x;
      assert s[k + j] == x;
    }
  }

  function Min(a: int, b: int): int
  {
    if a <= b then a else b
  }

  /**
   * The rows `find_recent_by_service_id` returns: the newest `min(limit, count)` rows
   * of the service, newest first.
   */
  function RecentRows(rows: seq<HealthCheckRow>, sid: ServiceId, limit: nat): (w: seq<HealthCheckRow>)
    ensures |w| == Min(limit, |RowsOf(rows, sid)|)
    ensures forall i :: 0 <= i < |w| ==> w[i] in rows && w[i].serviceId == sid
    ensures NewestFirstOrdered(w)
  {
    var s := NewestFirst(RowsOf(rows, sid));
    assert |s| == |multiset(s)| == |RowsOf(rows, sid)|;
    var k := Min(limit, |s|);
    WindowOfService(rows, sid, s, k);
    s[..k]
  }

  /** The window is drawn from the service's rows, and every row left out is no newer than every row kept. */
  lemma RecentRowsAreNewest(rows: seq<HealthCheckRow>, sid: ServiceId, limit: nat)
    ensures var w := RecentRows(rows, sid, limit);
            && multiset(w) <= multiset(RowsOf(rows, sid))
            && forall i, x :: 0 <= i < |w| && x in multiset(RowsOf(rows, sid)) - multiset(w) ==>
                 x.timestamp <= w[i].timestamp
  {
    var s := NewestFirst(RowsOf(rows, sid));
    WindowOfService(rows, sid, s, Min(limit, |s|));
  }

  lemma WindowOfService(rows: seq<HealthCheckRow>, sid: ServiceId, s: seq<HealthCheckRow>, k: nat)
    requires multiset(s) == multiset(RowsOf(rows, sid)) && NewestFirstOrdered(s) && k <= |s|
    ensures forall i :: 0 <= i < k ==> s[i] in rows && s[i].serviceId == sid
    ensures NewestFirstOrdered(s[..k])
    ensures multiset(s[..k]) <= multiset(RowsOf(rows, sid))
    ensures forall i, x :: 0 <= i < k && x in multiset(RowsOf(rows, sid)) - multiset(s[..k]) ==>
              x.timestamp <= s[..k][i].timestamp
  {
    PrefixHoldsNewest(s, k);
    DrawnFromService(rows, sid, s, k);
  }

  lemma DrawnFromService(rows: seq<HealthCheckRow>, sid: ServiceId, s: seq<HealthCheckRow>, k: nat)
    requires multiset(s) == multiset(RowsOf(rows, sid)) && k <= |s|
    ensures forall i :: 0 <= i < k ==> s[i] in rows && s[i].serviceId == sid
  {
    forall i | 0 <= i < k ensures s[i] in rows && s[i].serviceId == sid {
      assert s[i] in multiset(s);
      assert s[i] in RowsOf(rows, sid);
    }
  }

  /** `find_recent_by_service_id(sid, limit)` (the limit defaults to 20). */
  function FindRecentByServiceId(rows: seq<HealthCheckRow>, sid: ServiceId, limit: nat := 20): (r: seq<HealthCheckResult>)
    requires RowsValid(rows)
    ensures |r| == Min(limit, |RowsOf(rows, sid)|) && |r| <= limit
    ensures forall i :: 0 <= i < |r| ==> r[i].serviceId == sid
    ensures forall i, j :: 0 <= i < j < |r| ==> r[i].timestamp >= r[j].timestamp
    ensures forall i :: 0 <= i < |r| ==> r[i] == ToDomain(RecentRows(rows, sid, limit)[i])
  {
    ToDomainAll(RecentRows(rows, sid, limit))
  }

  /**
   * `find_recent_by_service_id` returns the conversions of the service's newest rows:
   * every row of the service it leaves out is no newer than any check it returns.
   */
  lemma FindRecentIsNewest(rows: seq<HealthCheckRow>, sid: ServiceId, limit: nat)
    requires RowsValid(rows)
    ensures var r := FindRecentByServiceId(rows, sid, limit);
            forall i, x :: 0 <= i < |r| && x in multiset(RowsOf(rows, sid)) - multiset(RecentRows(rows, sid, limit)) ==>
              x.timestamp <= r[i].timestamp
  {
    RecentRowsAreNewest(rows, sid, limit);
  }

  /** `find_recent_by_service_id` as written: the same window, each row reloaded by the conversion at line 89. */
  function FindRecentAsWritten(rows: seq<HealthCheckRow>, sid: ServiceId, limit: nat := 20): (r: seq<HealthCheckResult>)
    requires RowsValid(rows)
    ensures |r| == |FindRecentByServiceId(rows, sid, limit)|
    ensures forall i :: 0 <= i < |r| ==> r[i] == AsWrittenReload(FindRecentByServiceId(rows, sid, limit)[i])
  {
    var w := RecentRows(rows, sid, limit);
    seq(|w|, i requires 0 <= i < |w| => AsWrittenIsReloadOfCorrected(w[i]); ToDomainAsWritten(w[i]))
  }

  /** In a newest-first window that every left-out row is no newer than, the head is the newest of all. */
  lemma HeadOfNewestWindow(f: seq<HealthCheckRow>, w: seq<HealthCheckRow>)
    requires w != [] && NewestFirstOrdered(w)
    requires forall x :: x in multiset(f) - multiset(w) ==> x.timestamp <= w[0].timestamp
    ensures forall x :: x in f ==> x.timestamp <= w[0].timestamp
  {
    forall x | x in f
      ensures x.timestamp <= w[0].timestamp
    {
      assert x in multiset(f);
      if x in multiset(w) {
        assert x in w;
        var j :| 0 <= j < |w| && w[j] == x;
        assert w[0].timestamp >= w[j].timestamp;
      } else {
        assert x in multiset(f) - multiset(w);
      }
    }
  }

  /** Every row of `sid` is at most as new as the first row of its newest-first window. */
  lemma WindowHeadIsNewest(rows: seq<HealthCheckRow>, sid: ServiceId, limit: nat)
    requires 0 < limit && RowsOf(rows, sid) != []
    ensures RecentRows(rows, sid, limit) != []
    ensures forall x :: x in rows && x.serviceId == sid ==> x.timestamp <= RecentRows(rows, sid, limit)[0].timestamp
  {
    var w := RecentRows(rows, sid, limit);
    var f := RowsOf(rows, sid);
    RecentRowsAreNewest(rows, sid, limit);
    HeadOfNewestWindow(f, w);
  }

  /** Some row belongs to `sid`. */
  predicate HasRow(rows: seq<HealthCheckRow>, sid: ServiceId)
  {
    exists x :: x in rows && x.serviceId == sid
  }

  /** `find_latest_by_service_id`: the first row of the service's newest-first window of one. */
  function FindLatestByServiceId(rows: seq<HealthCheckRow>, sid: ServiceId): (r: Option<HealthCheckResult>)
    requires RowsValid(rows)
    ensures r.None? <==> forall x :: x in rows ==> x.serviceId != sid
  {
    var w := RecentRows(rows, sid, 1);
    if w == [] then
      assert RowsOf(rows, sid) == [];
      None
    else
      assert w[0] in rows && w[0].serviceId == sid;
      Some(ToDomain(w[0]))
  }

  /** `find_latest_by_service_id` as written: the same first row, reloaded by the conversion at line 89. */
  function FindLatestAsWritten(rows: seq<HealthCheckRow>, sid: ServiceId): (r: Option<HealthCheckResult>)
    requires RowsValid(rows)
    ensures r.Some? <==> HasRow(rows, sid)
    ensures r.Some? ==> r.value == AsWrittenReload(FindLatestByServiceId(rows, sid).value)
  {
    var w := RecentRows(rows, sid, 1);
    if w == [] then
      None
    else
      assert w[0] in rows;
      AsWrittenIsReloadOfCorrected(w[0]);
      Some(ToDomainAsWritten(w[0]))
  }

  /**
   * The latest result of a service that has rows is the conversion of one of its rows,
   * and no row of that service is newer.
   */
  lemma LatestIsNewestRow(rows: seq<HealthCheckRow>, sid: ServiceId)
    requires RowsValid(rows)
    requires FindLatestByServiceId(rows, sid).Some?
    ensures var r := FindLatestByServiceId(rows, sid).value;
            && r.serviceId == sid
            && (exists x :: x in rows && x.serviceId == sid && RowIsValid(x) && r == ToDomain(x)
                             && FindLatestAsWritten(rows, sid) == Some(ToDomainAsWritten(x)))
            && (forall x :: x in rows && x.serviceId == sid ==> x.timestamp <= r.timestamp)
  {
    var w := RecentRows(rows, sid, 1);
    assert w != [];
    WindowHeadIsNewest(rows, sid, 1);
    assert w[0] in rows && w[0].serviceId == sid;
  }

  /** The first of any non-empty newest-first window of a service is its latest result. */
  lemma RecentHeadIsLatest(rows: seq<HealthCheckRow>, sid: ServiceId, limit: nat)
    requires RowsValid(rows) && 0 < limit && FindRecentByServiceId(rows, sid, limit) != []
    ensures FindLatestByServiceId(rows, sid) == Some(FindRecentByServiceId(rows, sid, limit)[0])
  {
    var s := NewestFirst(RowsOf(rows, sid));
    assert RecentRows(rows, sid, limit)[0] == s[0];
    assert RecentRows(rows, sid, 1)[0] == s[0];
  }

  /** `SELECT DISTINCT service_id`: each id with a row, once; SQL fixes no order, and the model picks one. */
  function DistinctServiceIds(rows: seq<HealthCheckRow>): (ids: seq<ServiceId>)
    ensures forall sid :: sid in ids <==> HasRow(rows, sid)
  {
    if rows == [] then []
    else
      var front := rows[..|rows| - 1];
      var last := rows[|rows| - 1];
      assert rows == front + [last];
      var rest := DistinctServiceIds(front);
      if last.serviceId in rest then rest else rest + [last.serviceId]
  }

  /** No id appears twice. */
  predicate NoRepeats(ids: seq<ServiceId>)
  {
    forall i, j :: 0 <= i < j < |ids| ==> ids[i] != ids[j]
  }

  /** No id appears twice in `DistinctServiceIds`. */
  lemma {:induction false} DistinctServiceIdsHasNoRepeats(rows: seq<HealthCheckRow>)
    ensures NoRepeats(DistinctServiceIds(rows))
  {
    if rows != [] {
      var front := rows[..|rows| - 1];
      var sid := rows[|rows| - 1].serviceId;
      var rest := DistinctServiceIds(front);
      DistinctServiceIdsHasNoRepeats(front);
      assert DistinctServiceIds(rows) == if sid in rest then rest else rest + [sid];
      if sid !in rest {
        var ids := rest + [sid];
        assert DistinctServiceIds(rows) == ids;
        forall i, j | 0 <= i < j < |ids|
          ensures ids[i] != ids[j]
        {
          assert ids[i] == rest[i];
          if j == |rest| {
            assert ids[j] == sid;
            assert rest[i] in rest;
          } else {
            assert ids[j] == rest[j];
          }
        }
      }
    }
  }

  /** Recording the latest result of the k-th id keeps the ones recorded for earlier ids. */
  lemma RecordLatest(rows: seq<HealthCheckRow>, ids: seq<ServiceId>, k: nat,
                     m: map<ServiceId, HealthCheckResult>, v: HealthCheckResult)
    requires RowsValid(rows) && k < |ids|
    requires forall j :: 0 <= j < k ==> ids[j] in m && Some(m[ids[j]]) == FindLatestByServiceId(rows, ids[j])
    requires FindLatestByServiceId(rows, ids[k]) == Some(v)
    ensures forall j :: 0 <= j < k + 1 ==>
              ids[j] in m[ids[k] := v] && Some(m[ids[k] := v][ids[j]]) == FindLatestByServiceId(rows, ids[j])
  {
    RecordFound(ids, k, m, v, sid => if RowsValid(rows) then FindLatestByServiceId(rows, sid) else None);
  }

  /** Recording the value found for `ids[k]` keeps every earlier id mapped to the value found for it. */
  lemma RecordFound<K, V>(ids: seq<K>, k: nat, m: map<K, V>, v: V, found: K -> Option<V>)
    requires k < |ids|
    requires forall j :: 0 <= j < k ==> ids[j] in m && Some(m[ids[j]]) == found(ids[j])
    requires found(ids[k]) == Some(v)
    ensures forall j :: 0 <= j < k + 1 ==> ids[j] in m[ids[k] := v] && Some(m[ids[k] := v][ids[j]]) == found(ids[j])
  {
  }

  /**
   * A map filled from the latest result of every listed id, and holding no other key, has
   * exactly the services with a latest result as its keys.
   */
  lemma LatestMapComplete(rows: seq<HealthCheckRow>, ids: seq<ServiceId>, m: map<ServiceId, HealthCheckResult>)
    requires RowsValid(rows) && ids == DistinctServiceIds(rows)
    requires forall sid :: sid in m ==> sid in ids
    requires forall j :: 0 <= j < |ids| ==> ids[j] in m && Some(m[ids[j]]) == FindLatestByServiceId(rows, ids[j])
    ensures forall sid :: sid in m <==> FindLatestByServiceId(rows, sid).Some?
    ensures forall sid :: sid in m ==> Some(m[sid]) == FindLatestByServiceId(rows, sid)
  {
    forall sid | sid in m
      ensures Some(m[sid]) == FindLatestByServiceId(rows, sid)
    {
      var j :| 0 <= j < |ids| && ids[j] == sid;
    }
    forall sid | FindLatestByServiceId(rows, sid).Some?
      ensures sid in m
    {
      var x :| x in rows && x.serviceId == sid;
      assert HasRow(rows, sid);
      var j :| 0 <= j < |ids| && ids[j] == sid;
    }
  }

  /** The history table; rows are only ever appended. */
  class HealthCheckRepository {
    var rows: seq<HealthCheckRow>

    ghost predicate Valid()
      reads this
    {
      RowsValid(rows)
    }

    constructor ()
      ensures Valid() && rows == []
    {
      rows := [];
    }

    /**
     * `save`: appends one row holding the result's columns and changes no existing row.
     * `dbError` is the database's answer to the commit; when it fails, nothing is stored
     * and the error is raised to the caller.
     */
    method Save(result: HealthCheckResult, dbError: Option<string>) returns (raised: Option<string>)
      requires Valid()
      modifies this
      ensures Valid() && raised == dbError
      ensures rows == if dbError.None? then old(rows) + [ToRow(result)] else old(rows)
    {
      raised := dbError;
      if dbError.None? {
        SaveLoadRoundTrip(result);
        rows := rows + [ToRow(result)];
      }
    }

    /** `find_latest_for_all_services`: for each distinct id, its latest result. */
    method FindLatestForAllServices() returns (latest: map<ServiceId, HealthCheckResult>)
      requires Valid()
      ensures forall sid :: sid in latest <==> FindLatestByServiceId(rows, sid).Some?
      ensures forall sid :: sid in latest ==> Some(latest[sid]) == FindLatestByServiceId(rows, sid)
    {
      var ids := DistinctServiceIds(rows);
      latest := map[];
      for k := 0 to |ids|
        invariant forall sid :: sid in latest ==> sid in ids
        invariant forall j :: 0 <= j < k ==>
                    ids[j] in latest && Some(latest[ids[j]]) == FindLatestByServiceId(rows, ids[j])
      {
        assert ids[k] in ids;
        var row := FindLatestByServiceId(rows, ids[k]);
        if row.Some? {
          RecordLatest(rows, ids, k, latest, row.value);
          latest := latest[ids[k] := row.value];
        }
      }
      LatestMapComplete(rows, ids, latest);
    }
  }
}
