/** The monitored-service entity and its factory (app/domain/model/service.py). */
module ServiceModel {
  import opened Wrappers
  import opened ValueObjects

  /** A monitored service; `enabled` services are the only ones the scheduler probes. */
  datatype Service = Service(
    id: ServiceId,
    name: string,
    url: string,
    expectedVersion: Option<Version>,
    environment: Environment,
    enabled: bool)

  /** The `ValueError` raised by `Environment(value)` for a string outside the five values. */
  datatype InvalidEnvironment = InvalidEnvironment(value: string)

  /**
   * `Service.from_primitives`: an absent environment becomes `unknown`, an absent
   * expected version stays absent, any present string (even "") is wrapped, and
   * `enabled` defaults to true. An environment string outside the five values fails.
   */
  function FromPrimitives(
    id: string,
    name: string,
    url: string,
    expectedVersion: Option<string>,
    environment: Option<string>,
    enabled: bool := true): (r: Result<Service, InvalidEnvironment>)
    ensures r.Err? <==> environment.Some? && environment.value !in EnvironmentValues
    ensures r.Err? ==> r.error == InvalidEnvironment(environment.value)
    ensures r.Ok? ==> r.value.id == id && r.value.name == name && r.value.url == url
                      && r.value.enabled == enabled
    ensures r.Ok? ==> r.value.environment.Value() == (if environment.None? then "unknown" else environment.value)
    ensures r.Ok? ==> (r.value.expectedVersion.Some? <==> expectedVersion.Some?)
    ensures r.Ok? && expectedVersion.Some? ==> r.value.expectedVersion.value.ToString() == expectedVersion.value
  {
    var env := if environment.None? then Some(Environment.Unknown) else EnvironmentFromValue(environment.value);
    if env.None? then
      Err(InvalidEnvironment(environment.value))
    else
      var version := if expectedVersion.None? then None else Some(Version(expectedVersion.value));
      Ok(Service(id, name, url, version, env.value, enabled))
  }

  /** Leaving out `enabled` gives an enabled service; leaving out the environment gives `unknown`. */
  lemma FromPrimitivesDefaults(id: string, name: string, url: string, expectedVersion: Option<string>)
    ensures FromPrimitives(id, name, url, expectedVersion, None).Ok?
    ensures FromPrimitives(id, name, url, expectedVersion, None).value.enabled
    ensures FromPrimitives(id, name, url, expectedVersion, None).value.environment == Environment.Unknown
  {
  }
}
