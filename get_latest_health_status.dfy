/**
 * The dashboard's latest-status query (app/application/use_cases/get_latest_health_status.py):
 * the enabled services joined with the latest check of each, skipping services never checked.
 */
module GetLatestHealthStatus {
  import opened Wrappers
  import opened ValueObjects
  import opened ServiceModel
  import opened HealthCheck
  import Registry = SqliteServiceRepository
  import opened SqliteHealthCheckRepository
  import opened ServiceHealthSummaryDtoMapper
  import opened Selection

  /**
   * The summaries for `services` in their order: one per service that has a latest
   * check, built from that check, and none for a service without one.
   */
  function LatestSummaries(services: seq<Service>, rows: seq<HealthCheckRow>): (r: seq<ServiceHealthSummaryDto>)
    requires RowsValid(rows)
    ensures |r| <= |services|
  {
    if services == [] then []
    else
      var front := services[..|services| - 1];
      var last := services[|services| - 1];
      assert services == front + [last];
      assert forall i :: 0 <= i < |front| ==> front[i] == services[i];
      LatestSummaries(front, rows)
      + match FindLatestByServiceId(rows, last.id)
        case Some(check) => [FromDomain(last, check)]
        case None => []
  }

  /** The loop body for one service: the summary of its latest check, or nothing when it has none. */
  function SummaryIn(rows: seq<HealthCheckRow>): (summary: Service -> Option<ServiceHealthSummaryDto>)
    ensures RowsValid(rows) ==>
              forall s :: summary(s).Some? <==> exists x :: x in rows && x.serviceId == s.id
  {
    (s: Service) =>
      if RowsValid(rows) then
        match FindLatestByServiceId(rows, s.id)
        case Some(check) => Some(FromDomain(s, check))
        case None => None
      else None
  }

  /**
   * The summaries follow the order of `services`: the `k`-th is that of the `k`-th
   * service with a latest check, and each such service gets exactly one.
   */
  lemma {:induction false} LatestSummariesInServiceOrder(services: seq<Service>, rows: seq<HealthCheckRow>)
    requires RowsValid(rows)
    ensures LatestSummaries(services, rows) == Decisions(services, SummaryIn(rows))
  {
    if services != [] {
      LatestSummariesInServiceOrder(services[..|services| - 1], rows);
    }
  }

  /**
   * The `k`-th summary is built from the `k`-th service with a latest check and that
   * service's latest check.
   */
  lemma SummaryAt(services: seq<Service>, rows: seq<HealthCheckRow>, k: nat)
    requires RowsValid(rows) && k < |LatestSummaries(services, rows)|
    ensures var p := DecidedPositions(services, SummaryIn(rows));
            && k < |p| && p[k] < |services|
            && FindLatestByServiceId(rows, services[p[k]].id).Some?
            && LatestSummaries(services, rows)[k]
               == FromDomain(services[p[k]], FindLatestByServiceId(rows, services[p[k]].id).value)
  {
    LatestSummariesInServiceOrder(services, rows);
    var p := DecidedPositions(services, SummaryIn(rows));
    assert SummaryIn(rows)(services[p[k]]).Some?;
  }

  /** Every service that has a latest check gets the summary built from that check. */
  lemma {:induction false} CheckedServicesAreSummarized(services: seq<Service>, rows: seq<HealthCheckRow>)
    requires RowsValid(rows)
    ensures forall s :: s in services && FindLatestByServiceId(rows, s.id).Some? ==>
              FromDomain(s, FindLatestByServiceId(rows, s.id).value) in LatestSummaries(services, rows)
  {
    if services != [] {
      var front := services[..|services| - 1];
      var last := services[|services| - 1];
      assert services == front + [last];
      CheckedServicesAreSummarized(front, rows);
    }
  }

  /**
   * Every summary is that of a service with a latest check, built from that check;
   * services without one are skipped, not reported.
   */
  lemma SummariesComeFromCheckedServices(services: seq<Service>, rows: seq<HealthCheckRow>)
    requires RowsValid(rows)
    ensures forall d :: d in LatestSummaries(services, rows) ==>
              exists s :: s in services && FindLatestByServiceId(rows, s.id).Some?
                          && d == FromDomain(s, FindLatestByServiceId(rows, s.id).value)
  {
    var r := LatestSummaries(services, rows);
    forall d | d in r
      ensures exists s :: s in services && FindLatestByServiceId(rows, s.id).Some?
                          && d == FromDomain(s, FindLatestByServiceId(rows, s.id).value)
    {
      var k :| 0 <= k < |r| && r[k] == d;
      SummaryAt(services, rows, k);
      var p := DecidedPositions(services, SummaryIn(rows));
      assert services[p[k]] in services;
    }
  }

  /** Every service gets a summary exactly when every service has been checked. */
  lemma {:induction false} OneSummaryPerCheckedService(services: seq<Service>, rows: seq<HealthCheckRow>)
    requires RowsValid(rows)
    ensures |LatestSummaries(services, rows)| == |services| <==>
            forall s :: s in services ==> HasRow(rows, s.id)
  {
    if services != [] {
      var front := services[..|services| - 1];
      var last := services[|services| - 1];
      assert services == front + [last];
      OneSummaryPerCheckedService(front, rows);
      if HasRow(rows, last.id) {
        var x :| x in rows && x.serviceId == last.id;
        assert FindLatestByServiceId(rows, last.id).Some?;
      }
    }
  }

  /** The summaries the loop builds from the map `latest` of latest checks, in service order. */
  function SummariesFrom(services: seq<Service>, latest: map<ServiceId, HealthCheckResult>): seq<ServiceHealthSummaryDto>
  {
    if services == [] then []
    else
      var last := services[|services| - 1];
      SummariesFrom(services[..|services| - 1], latest)
      + if last.id in latest then [FromDomain(last, latest[last.id])] else []
  }

  /** Built from the store's map of latest checks, the loop yields the latest summaries. */
  lemma {:induction false} SummariesFromLatestMap(services: seq<Service>, rows: seq<HealthCheckRow>,
                                                  latest: map<ServiceId, HealthCheckResult>)
    requires RowsValid(rows)
    requires forall sid :: sid in latest <==> FindLatestByServiceId(rows, sid).Some?
    requires forall sid :: sid in latest ==> Some(latest[sid]) == FindLatestByServiceId(rows, sid)
    ensures SummariesFrom(services, latest) == LatestSummaries(services, rows)
  {
    if services != [] {
      SummariesFromLatestMap(services[..|services| - 1], rows, latest);
    }
  }

  /** The loop of `execute`: a summary for each service found in `latest`, in service order. */
  method SummarizeFound(services: seq<Service>, latest: map<ServiceId, HealthCheckResult>)
    returns (result: seq<ServiceHealthSummaryDto>)
    ensures result == SummariesFrom(services, latest)
  {
    result := [];
    for k := 0 to |services|
      invariant result == SummariesFrom(services[..k], latest)
    {
      assert services[..k + 1][..k] == services[..k];
      var service := services[k];
      if service.id !in latest {
        continue;
      }
      var dto := FromDomain(service, latest[service.id]);
      result := result + [dto];
    }
    assert services[..|services|] == services;
  }

  /**
   * `GetLatestHealthStatusForAllServices.execute`: the enabled services, the latest
   * check per service, and a loop that appends a summary for each service found in it.
   */
  method Execute(registry: Registry.ServiceRepository, store: HealthCheckRepository)
    returns (result: seq<ServiceHealthSummaryDto>)
    requires registry.Valid() && store.Valid()
    ensures result == LatestSummaries(Registry.FindAllEnabled(registry.rows), store.rows)
  {
    var services := Registry.FindAllEnabled(registry.rows);
    var latestChecks := store.FindLatestForAllServices();
    result := SummarizeFound(services, latestChecks);
    SummariesFromLatestMap(services, store.rows, latestChecks);
  }
}
