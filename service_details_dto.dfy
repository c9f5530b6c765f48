/** The history view of a service (app/application/dto/service_details_dto.py). */
module ServiceDetailsDtoMapper {
  import opened Wrappers
  import opened ValueObjects
  import opened ServiceModel
  import opened HealthCheck

  /** `HealthCheckItemDto`: one check without its service id. */
  datatype HealthCheckItemDto = HealthCheckItemDto(
    timestamp: Timestamp,
    status: string,
    latencyMs: Option<int>,
    version: Option<string>,
    versionMatchesExpected: Option<bool>,
    errorMessage: Option<string>)

  /** `ServiceDetailsDto`: a service's identity and its checks. */
  datatype ServiceDetailsDto = ServiceDetailsDto(
    serviceId: string,
    name: string,
    environment: string,
    url: string,
    checks: seq<HealthCheckItemDto>)

  /** `HealthCheckItemDto.from_domain`: every field of the check except its service id. */
  function ItemFromDomain(check: HealthCheckResult): (d: HealthCheckItemDto)
    ensures HealthStatusFromValue(d.status) == Some(check.status)
    ensures d.timestamp == check.timestamp
    ensures d.version.Some? <==> check.version.Some?
    ensures ItemToDomain(check.serviceId, d) == Some(check)
  {
    HealthStatusValueRoundTrip(check.status);
    HealthCheckItemDto(
      check.timestamp, check.status.Value(), check.latencyMs, VersionText(check.version),
      check.versionMatchesExpected, check.errorMessage)
  }

  /** Reading an item back as a check of service `serviceId`; `None` for an unknown status. */
  function ItemToDomain(serviceId: ServiceId, d: HealthCheckItemDto): Option<HealthCheckResult>
  {
    match HealthStatusFromValue(d.status)
    case None => None
    case Some(status) =>
      Some(HealthCheckResult(
        serviceId, d.timestamp, status, d.latencyMs,
        if d.version.Some? then Some(Version(d.version.value)) else None,
        d.versionMatchesExpected, d.errorMessage))
  }

  /**
   * `ServiceDetailsDto.from_domain`: the service's identity and one item per check, in
   * the same order; each item reads back as its check.
   */
  function DetailsFromDomain(service: Service, checks: seq<HealthCheckResult>): (d: ServiceDetailsDto)
    ensures d.serviceId == service.id && d.name == service.name && d.url == service.url
    ensures EnvironmentFromValue(d.environment) == Some(service.environment)
    ensures |d.checks| == |checks|
    ensures forall i :: 0 <= i < |checks| ==> ItemToDomain(checks[i].serviceId, d.checks[i]) == Some(checks[i])
  {
    EnvironmentValueRoundTrip(service.environment);
    ServiceDetailsDto(
      service.id, service.name, service.environment.Value(), service.url,
      seq(|checks|, i requires 0 <= i < |checks| => ItemFromDomain(checks[i])))
  }

  /** When every check belongs to the service, its details give back the whole history, in order. */
  lemma DetailsKeepHistory(service: Service, checks: seq<HealthCheckResult>)
    requires forall c :: c in checks ==> c.serviceId == service.id
    ensures var d := DetailsFromDomain(service, checks);
            forall i :: 0 <= i < |checks| ==> ItemToDomain(d.serviceId, d.checks[i]) == Some(checks[i])
  {
    var d := DetailsFromDomain(service, checks);
    forall i | 0 <= i < |checks|
      ensures ItemToDomain(d.serviceId, d.checks[i]) == Some(checks[i])
    {
      assert checks[i] in checks;
    }
  }
}
