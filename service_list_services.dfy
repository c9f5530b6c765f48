/** Listing the registry (app/application/use_cases/service_list_services.py). */
module ServiceListServices {
  import opened Wrappers
  import opened ValueObjects
  import opened ServiceModel
  import opened SqliteServiceRepository
  import opened ServiceDtoMapper

  /**
   * `ListServices.execute`: one DTO per stored service, disabled ones included, in
   * table order; each rebuilds, through `from_primitives`, the service its id finds.
   */
  function Execute(rows: seq<ServiceRow>): (r: seq<ServiceDto>)
    requires RowsValid(rows)
    ensures |r| == |rows|
    ensures forall i :: 0 <= i < |r| ==> r[i].serviceId == rows[i].id && r[i].enabled == rows[i].enabled
    ensures forall i :: 0 <= i < |r| ==>
              FindById(rows, r[i].serviceId).Some?
              && FromPrimitives(r[i].serviceId, r[i].name, r[i].url, r[i].expectedVersion,
                                Some(r[i].environment), r[i].enabled)
                 == Ok(FindById(rows, r[i].serviceId).value)
  {
    var services := ListAll(rows);
    var dtos := seq(|services|, i requires 0 <= i < |services| => FromDomain(services[i]));
    forall i | 0 <= i < |dtos|
      ensures FindById(rows, dtos[i].serviceId).Some?
              && FromPrimitives(dtos[i].serviceId, dtos[i].name, dtos[i].url, dtos[i].expectedVersion,
                                Some(dtos[i].environment), dtos[i].enabled)
                 == Ok(FindById(rows, dtos[i].serviceId).value)
    {
      ListAllAgreesWithFindById(rows, i);
    }
    dtos
  }
}
