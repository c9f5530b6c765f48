/** The registry's wire format (app/application/dto/service_dto.py). */
module ServiceDtoMapper {
  import opened Wrappers
  import opened ValueObjects
  import opened ServiceModel

  /** `ServiceDto`: a service with its value objects flattened to strings. */
  datatype ServiceDto = ServiceDto(
    serviceId: string,
    name: string,
    url: string,
    expectedVersion: Option<string>,
    environment: string,
    enabled: bool)

  /**
   * `ServiceDto.from_domain`. Feeding its fields back to `Service.from_primitives`
   * rebuilds the service, so nothing is lost; the environment is always one of the
   * five values.
   */
  function FromDomain(s: Service): (d: ServiceDto)
    ensures d.environment in EnvironmentValues
    ensures FromPrimitives(d.serviceId, d.name, d.url, d.expectedVersion, Some(d.environment), d.enabled) == Ok(s)
  {
    EnvironmentValueRoundTrip(s.environment);
    ServiceDto(s.id, s.name, s.url, VersionText(s.expectedVersion), s.environment.Value(), s.enabled)
  }

  /** Distinct services have distinct DTOs. */
  lemma FromDomainInjective(a: Service, b: Service)
    requires FromDomain(a) == FromDomain(b)
    ensures a == b
  {
    var d := FromDomain(a);
    assert Ok(a) == FromPrimitives(d.serviceId, d.name, d.url, d.expectedVersion, Some(d.environment), d.enabled);
  }

  /**
   * `CreateServiceRequest`: the body of a create call. Left out, the expected version
   * is absent, the environment is "unknown" and the service is enabled; a client may
   * still send an explicit null environment.
   */
  datatype CreateServiceRequest = CreateServiceRequest(
    serviceId: string,
    name: string,
    url: string,
    expectedVersion: Option<string> := None,
    environment: Option<string> := Some("unknown"),
    enabled: bool := true)

  /** A request with only the required fields builds an enabled, unversioned `unknown` service. */
  lemma CreateRequestDefaults(id: string, name: string, url: string)
    ensures var req := CreateServiceRequest(id, name, url);
            var r := FromPrimitives(req.serviceId, req.name, req.url, req.expectedVersion, req.environment, req.enabled);
            r.Ok? && r.value.enabled && r.value.expectedVersion.None?
            && r.value.environment == Environment.Unknown
  {
  }
}
