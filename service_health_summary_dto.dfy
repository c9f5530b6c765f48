/** The latest-status view of a service (app/application/dto/service_health_summary_dto.py). */
module ServiceHealthSummaryDtoMapper {
  import opened Wrappers
  import opened ValueObjects
  import opened ServiceModel
  import opened HealthCheck

  /** `ServiceHealthSummaryDto`: a service joined with its latest check. */
  datatype ServiceHealthSummaryDto = ServiceHealthSummaryDto(
    serviceId: string,
    name: string,
    environment: string,
    status: string,
    latencyMs: Option<int>,
    version: Option<string>,
    versionMatchesExpected: Option<bool>,
    lastCheckedAt: Timestamp)

  /**
   * `ServiceHealthSummaryDto.from_domain`: identity from the service, outcome from the
   * check. The status and environment strings parse back to the originals, and the
   * version text wraps back to the check's version.
   */
  function FromDomain(service: Service, check: HealthCheckResult): (d: ServiceHealthSummaryDto)
    ensures d.serviceId == service.id && d.name == service.name
    ensures EnvironmentFromValue(d.environment) == Some(service.environment)
    ensures HealthStatusFromValue(d.status) == Some(check.status)
    ensures d.lastCheckedAt == check.timestamp
    ensures d.latencyMs == check.latencyMs && d.versionMatchesExpected == check.versionMatchesExpected
    ensures d.version.Some? <==> check.version.Some?
    ensures d.version.Some? ==> Version(d.version.value) == check.version.value
  {
    EnvironmentValueRoundTrip(service.environment);
    HealthStatusValueRoundTrip(check.status);
    ServiceHealthSummaryDto(
      service.id, service.name, service.environment.Value(), check.status.Value(),
      check.latencyMs, VersionText(check.version), check.versionMatchesExpected, check.timestamp)
  }

  /** A summary and its service give back the check, except the error message it does not carry. */
  function ToCheck(service: Service, d: ServiceHealthSummaryDto): Option<HealthCheckResult>
  {
    match HealthStatusFromValue(d.status)
    case None => None
    case Some(status) =>
      Some(HealthCheckResult(
        service.id, d.lastCheckedAt, status, d.latencyMs,
        if d.version.Some? then Some(Version(d.version.value)) else None,
        d.versionMatchesExpected, None))
  }

  /** The summary of a check of `service` loses only the check's error message. */
  lemma SummaryKeepsCheck(service: Service, check: HealthCheckResult)
    requires check.serviceId == service.id
    ensures ToCheck(service, FromDomain(service, check)) == Some(check.(errorMessage := None))
  {
  }
}
