/** A service's recent history (app/application/use_cases/get_health_history_for_service.py). */
module GetHealthHistoryForService {
  import opened Wrappers
  import opened ValueObjects
  import opened ServiceModel
  import opened HealthCheck
  import Registry = SqliteServiceRepository
  import opened SqliteHealthCheckRepository
  import opened ServiceDetailsDtoMapper

  /** `ServiceNotFoundError`, carrying the id that was looked up. */
  datatype ServiceNotFoundError = ServiceNotFoundError(serviceId: string)

  /**
   * `GetHealthHistoryForService.execute(service_id, limit=20)`: an id with no service
   * fails; otherwise the service's details hold its newest `limit` checks, newest first,
   * each reading back as the check it shows. The service need not be enabled.
   */
  function Execute(serviceRows: seq<Registry.ServiceRow>, rows: seq<HealthCheckRow>, serviceId: string, limit: nat := 20)
    : (r: Result<ServiceDetailsDto, ServiceNotFoundError>)
    requires Registry.AllRowsConvert(serviceRows) && RowsValid(rows)
    ensures r.Err? <==> forall row :: row in serviceRows ==> row.id != serviceId
    ensures r.Err? ==> r.error == ServiceNotFoundError(serviceId)
    ensures r.Ok? ==> r.value == DetailsFromDomain(Registry.FindById(serviceRows, serviceId).value,
                                                   FindRecentByServiceId(rows, serviceId, limit))
    ensures r.Ok? ==> r.value.serviceId == serviceId && |r.value.checks| == Min(limit, |RowsOf(rows, serviceId)|)
  {
    match Registry.FindById(serviceRows, serviceId)
    case None => Err(ServiceNotFoundError(serviceId))
    case Some(service) => Ok(DetailsFromDomain(service, FindRecentByServiceId(rows, serviceId, limit)))
  }

  /** The history shows the service's checks in order, and the first one is its latest. */
  lemma HistoryLeadsWithLatest(serviceRows: seq<Registry.ServiceRow>, rows: seq<HealthCheckRow>,
                               serviceId: string, limit: nat)
    requires Registry.AllRowsConvert(serviceRows) && RowsValid(rows) && limit > 0
    requires Execute(serviceRows, rows, serviceId, limit).Ok?
    ensures var d := Execute(serviceRows, rows, serviceId, limit).value;
            && (forall i :: 0 <= i < |d.checks| ==>
                  ItemToDomain(serviceId, d.checks[i]) == Some(FindRecentByServiceId(rows, serviceId, limit)[i]))
            && (d.checks != [] ==>
                  FindLatestByServiceId(rows, serviceId).Some?
                  && ItemToDomain(serviceId, d.checks[0]) == FindLatestByServiceId(rows, serviceId))
  {
    var recent := FindRecentByServiceId(rows, serviceId, limit);
    if recent != [] {
      RecentHeadIsLatest(rows, serviceId, limit);
    }
  }
}
