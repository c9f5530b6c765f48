/** The persisted health-check record (app/domain/model/health_check.py). */
module HealthCheck {
  import opened Wrappers
  import opened ValueObjects

  /** A point in time; only its order matters to the model (the `datetime` of the source). */
  type Timestamp = int

  /** One evaluated probe of one service; never changed once created. */
  datatype HealthCheckResult = HealthCheckResult(
    serviceId: ServiceId,
    timestamp: Timestamp,
    status: HealthStatus,
    latencyMs: Option<int>,
    version: Option<Version>,
    versionMatchesExpected: Option<bool>,
    errorMessage: Option<string>)
}
