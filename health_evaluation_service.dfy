/**
 * The evaluator (app/domain/services/health_evaluation_service.py): a pure, total
 * map from raw probe data and the service's configuration to a classified record.
 */
module HealthEvaluationService {
  import opened Wrappers
  import opened ValueObjects
  import opened ServiceModel
  import opened HealthCheck

  /** Raw probe data handed from the pinger to the domain. */
  datatype HealthCheckInput = HealthCheckInput(
    httpStatusCode: Option<int>,
    latencyMs: Option<int>,
    reportedVersion: Option<string>,
    errorMessage: Option<string>)

  /**
   * The class of a status code: its first digit, as in section 15 of RFC 9110.
   * Class 2 is "Successful" (section 15.3); codes outside 100..599 fall outside classes 1..5.
   */
  function ResponseClass(code: int): int
  {
    code / 100
  }

  /** Status rule: no code is DOWN, a code in [200, 300) is UP, any other code is DOWN. */
  function StatusFor(code: Option<int>): (s: HealthStatus)
    ensures s != HealthStatus.Unknown
  {
    if code.None? then HealthStatus.Down
    else if 200 <= code.value < 300 then HealthStatus.Up
    else HealthStatus.Down
  }

  /**
   * `HealthEvaluationService.evaluate` with the timestamp supplied by the caller.
   * Version rule: no reported version gives no version and no verdict; a reported
   * version is kept, and compared only when the service expects a version.
   */
  function Evaluate(service: Service, data: HealthCheckInput, timestamp: Timestamp): (r: HealthCheckResult)
    ensures r.serviceId == service.id && r.timestamp == timestamp
    ensures r.latencyMs == data.latencyMs && r.errorMessage == data.errorMessage
    ensures r.status == StatusFor(data.httpStatusCode)
    ensures r.version.Some? <==> data.reportedVersion.Some?
    ensures r.version.Some? ==> r.version.value.ToString() == data.reportedVersion.value
    ensures r.versionMatchesExpected.Some? <==> data.reportedVersion.Some? && service.expectedVersion.Some?
    ensures r.versionMatchesExpected == Some(true) <==>
              data.reportedVersion.Some? && service.expectedVersion == Some(Version(data.reportedVersion.value))
  {
    var status := StatusFor(data.httpStatusCode);
    var version := if data.reportedVersion.Some? then Some(Version(data.reportedVersion.value)) else None;
    var matches :=
      if version.Some? && service.expectedVersion.Some?
      then Some(service.expectedVersion.value.IsSameAs(version))
      else None;
    HealthCheckResult(service.id, timestamp, status, data.latencyMs, version, matches, data.errorMessage)
  }

  /** Whatever the inputs, the evaluator yields UP exactly for a code of the Successful class, and never UNKNOWN. */
  lemma {:induction false} StatusIsSuccessfulClass(service: Service, data: HealthCheckInput, timestamp: Timestamp)
    ensures Evaluate(service, data, timestamp).status in {HealthStatus.Up, HealthStatus.Down}
    ensures Evaluate(service, data, timestamp).status == HealthStatus.Up <==>
              data.httpStatusCode.Some? && ResponseClass(data.httpStatusCode.value) == 2
  {
    if data.httpStatusCode.Some? {
      var c := data.httpStatusCode.value;
      ClassTwoIsTwoHundreds(c);
    }
  }

  /** The first digit is 2 exactly on [200, 300), for every integer. */
  lemma ClassTwoIsTwoHundreds(c: int)
    ensures ResponseClass(c) == 2 <==> 200 <= c < 300
  {
    var q := c / 100;
    assert c == 100 * q + c % 100 && 0 <= c % 100 < 100;
    if q <= 1 {
      assert c < 200;
    } else if q >= 3 {
      assert c >= 300;
    }
  }

  /** The boundaries of the Successful class. */
  lemma StatusBoundaries()
    ensures StatusFor(None) == HealthStatus.Down
    ensures StatusFor(Some(199)) == HealthStatus.Down && StatusFor(Some(200)) == HealthStatus.Up
    ensures StatusFor(Some(299)) == HealthStatus.Up && StatusFor(Some(300)) == HealthStatus.Down
  {
  }

  /** The version verdict is never `false` without a reported version, and is `Some(false)` only on a real mismatch. */
  lemma VersionVerdictTriState(service: Service, data: HealthCheckInput, timestamp: Timestamp)
    ensures data.reportedVersion.None? ==> Evaluate(service, data, timestamp).versionMatchesExpected.None?
    ensures Evaluate(service, data, timestamp).versionMatchesExpected == Some(false) <==>
              data.reportedVersion.Some? && service.expectedVersion.Some?
              && service.expectedVersion.value.value != data.reportedVersion.value
  {
  }
}
