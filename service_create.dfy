/** Registering a service through the API (app/application/use_cases/service_create.py). */
module ServiceCreate {
  import opened Wrappers
  import opened ValueObjects
  import opened ServiceModel
  import opened SqliteServiceRepository
  import opened ServiceDtoMapper

  /** The service a request describes, or the error for an unknown environment string. */
  function ServiceOf(req: CreateServiceRequest): Result<Service, InvalidEnvironment>
  {
    FromPrimitives(req.serviceId, req.name, req.url, req.expectedVersion, req.environment, req.enabled)
  }

  /**
   * `CreateService.execute`: build the service, save it (overwriting any service with
   * the same id), and return it as a DTO. An invalid environment fails before the save.
   */
  method Execute(registry: ServiceRepository, req: CreateServiceRequest)
    returns (r: Result<ServiceDto, InvalidEnvironment>)
    requires registry.Valid()
    modifies registry
    ensures registry.Valid()
    ensures r.Err? <==> req.environment.Some? && req.environment.value !in EnvironmentValues
    ensures r.Err? ==> registry.rows == old(registry.rows)
    ensures r.Ok? ==> registry.rows == Upsert(old(registry.rows), ServiceOf(req).value)
    ensures r.Ok? ==> FindById(registry.rows, req.serviceId) == Some(ServiceOf(req).value)
                      && r.value == FromDomain(ServiceOf(req).value)
  {
    var service := ServiceOf(req);
    if service.Err? {
      return Err(service.error);
    }
    FindAfterSave(registry.rows, service.value);
    registry.Save(service.value);
    r := Ok(FromDomain(service.value));
  }

  /** The returned DTO carries back exactly the request's fields, the environment defaulted. */
  lemma CreatedDtoMirrorsRequest(req: CreateServiceRequest)
    requires ServiceOf(req).Ok?
    ensures var d := FromDomain(ServiceOf(req).value);
            && d.serviceId == req.serviceId && d.name == req.name && d.url == req.url
            && d.expectedVersion == req.expectedVersion && d.enabled == req.enabled
            && d.environment == (if req.environment.None? then "unknown" else req.environment.value)
  {
    var s := ServiceOf(req).value;
    var d := FromDomain(s);
    assert FromPrimitives(d.serviceId, d.name, d.url, d.expectedVersion, Some(d.environment), d.enabled) == Ok(s);
  }
}
