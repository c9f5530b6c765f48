/**
 * One health check of one service (app/application/use_cases/run_health_check_for_service.py):
 * ping, turn the ping result into evaluator input, evaluate at the current time, save.
 */
module RunHealthCheckForService {
  import opened Wrappers
  import opened ValueObjects
  import opened ServiceModel
  import opened HealthCheck
  import opened HealthEvaluationService
  import opened ServicePinger
  import opened SqliteHealthCheckRepository

  /**
   * What the environment answers during one check: the network's answer to the ping,
   * the clock's reading when evaluating, and the database's answer to the commit.
   */
  datatype Observation = Observation(network: NetworkOutcome, now: Timestamp, dbError: Option<string>)

  /** The evaluator input: the four fields of the ping result, copied. */
  function InputFromPing(p: PingResult): HealthCheckInput
  {
    HealthCheckInput(p.httpStatusCode, p.latencyMs, p.reportedVersion, p.errorMessage)
  }

  /**
   * The result one execution saves: the service's id and the clock's reading, UP exactly
   * when a response of the Successful class came back, and the ping's latency and error.
   */
  function CheckOf(service: Service, obs: Observation): (r: HealthCheckResult)
    ensures r == Evaluate(service, InputFromPing(Ping(obs.network)), obs.now)
    ensures r.serviceId == service.id && r.timestamp == obs.now
    ensures r.status == HealthStatus.Up <==>
              obs.network.Responded? && 200 <= obs.network.response.statusCode < 300
    ensures r.latencyMs == Some(obs.network.elapsedMs)
    ensures r.errorMessage == (if obs.network.Raised? then Some(obs.network.message) else None)
    ensures obs.network.Raised? ==> r.status == HealthStatus.Down && r.version.None?
  {
    Evaluate(service, InputFromPing(Ping(obs.network)), obs.now)
  }

  /**
   * `RunHealthCheckForService.execute`: exactly one row is appended, holding the
   * evaluated result; a failing commit stores nothing and is raised to the caller.
   */
  method Execute(service: Service, obs: Observation, store: HealthCheckRepository) returns (raised: Option<string>)
    requires store.Valid()
    modifies store
    ensures store.Valid() && raised == obs.dbError
    ensures store.rows == if obs.dbError.None? then old(store.rows) + [ToRow(CheckOf(service, obs))]
                          else old(store.rows)
  {
    var pingResult := Ping(obs.network);
    var inputData := InputFromPing(pingResult);
    var healthCheck := Evaluate(service, inputData, obs.now);
    raised := store.Save(healthCheck, obs.dbError);
  }

  /**
   * When the clock reads later than every stored check of the service, the check just
   * saved is what `find_latest_by_service_id` returns afterwards: exactly that check with
   * the corrected conversion, and as written that check with an empty version dropped.
   */
  lemma SavedCheckIsLatest(rows: seq<HealthCheckRow>, service: Service, obs: Observation)
    requires RowsValid(rows)
    requires forall x :: x in rows && x.serviceId == service.id ==> x.timestamp < obs.now
    ensures RowsValid(rows + [ToRow(CheckOf(service, obs))])
    ensures FindLatestByServiceId(rows + [ToRow(CheckOf(service, obs))], service.id) == Some(CheckOf(service, obs))
    ensures FindLatestAsWritten(rows + [ToRow(CheckOf(service, obs))], service.id)
            == Some(AsWrittenReload(CheckOf(service, obs)))
  {
    var check := CheckOf(service, obs);
    var after := rows + [ToRow(check)];
    SaveLoadRoundTrip(check);
    assert ToRow(check) in after;
    LatestIsNewestRow(after, service.id);
    var x :| x in after && x.serviceId == service.id && RowIsValid(x)
             && FindLatestByServiceId(after, service.id).value == ToDomain(x);
  }
}
