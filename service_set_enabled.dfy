/** Enabling or disabling a service (app/application/use_cases/service_set_enabled.py). */
module ServiceSetEnabled {
  import opened Wrappers
  import opened ValueObjects
  import opened ServiceModel
  import opened SqliteServiceRepository
  import opened ServiceDtoMapper
  import opened GetHealthHistoryForService

  /** The registry after setting the flag of `id`: unchanged when no service has that id. */
  function SetEnabledRows(rows: seq<ServiceRow>, id: ServiceId, enabled: bool): (r: seq<ServiceRow>)
    requires RowsValid(rows)
    ensures RowsValid(r)
    ensures FindById(rows, id).None? ==> r == rows
    ensures FindById(rows, id).Some? ==> |r| == |rows|
  {
    match FindById(rows, id)
    case None => rows
    case Some(s) =>
      UpsertKeepsValid(rows, s.(enabled := enabled));
      Upsert(rows, s.(enabled := enabled))
  }

  /**
   * After the call, `id` finds its service with only the flag changed, or nothing when
   * it found nothing before; every other id finds what it found before.
   */
  lemma SetEnabledChangesOnlyTheFlag(rows: seq<ServiceRow>, id: ServiceId, enabled: bool, other: ServiceId)
    requires RowsValid(rows)
    ensures FindById(SetEnabledRows(rows, id, enabled), id)
            == if FindById(rows, id).Some? then Some(FindById(rows, id).value.(enabled := enabled)) else None
    ensures other != id ==> FindById(SetEnabledRows(rows, id, enabled), other) == FindById(rows, other)
  {
    match FindById(rows, id)
    case None =>
    case Some(s) =>
      FindAfterSave(rows, s.(enabled := enabled));
      if other != id {
        SaveLeavesOthers(rows, s.(enabled := enabled), other);
      }
  }

  /** Saving a service already stored exactly as it is changes nothing. */
  lemma UpsertStoredIsIdentity(rows: seq<ServiceRow>, s: Service, i: nat)
    requires RowsValid(rows) && i < |rows| && rows[i] == ToRow(s)
    ensures Upsert(rows, s) == rows
  {
    var j := IndexOfId(rows, s.id).value;
    assert j == i;
  }

  /** Setting the same flag twice leaves the registry as setting it once. */
  lemma SetEnabledIdempotent(rows: seq<ServiceRow>, id: ServiceId, enabled: bool)
    requires RowsValid(rows)
    ensures SetEnabledRows(SetEnabledRows(rows, id, enabled), id, enabled) == SetEnabledRows(rows, id, enabled)
  {
    match FindById(rows, id)
    case None =>
    case Some(s) =>
      var t := s.(enabled := enabled);
      var once := SetEnabledRows(rows, id, enabled);
      FindAfterSave(rows, t);
      var k :| 0 <= k < |once| && once[k] == ToRow(t);
      UpsertStoredIsIdentity(once, t, k);
  }

  /**
   * `SetServiceEnabled.execute`: an unknown id fails and leaves the registry alone;
   * otherwise the service is saved back with the new flag and returned as a DTO.
   */
  method Execute(registry: ServiceRepository, id: string, enabled: bool)
    returns (r: Result<ServiceDto, ServiceNotFoundError>)
    requires registry.Valid()
    modifies registry
    ensures registry.Valid()
    ensures registry.rows == SetEnabledRows(old(registry.rows), id, enabled)
    ensures r.Err? <==> FindById(old(registry.rows), id).None?
    ensures r.Err? ==> r.error == ServiceNotFoundError(id) && registry.rows == old(registry.rows)
    ensures r.Ok? ==> r.value.enabled == enabled && FindById(registry.rows, id) == Some(FindById(old(registry.rows), id).value.(enabled := enabled))
                      && r.value == FromDomain(FindById(registry.rows, id).value)
  {
    var service := FindById(registry.rows, id);
    if service.None? {
      return Err(ServiceNotFoundError(id));
    }
    var updated := service.value.(enabled := enabled);
    FindAfterSave(registry.rows, updated);
    registry.Save(updated);
    r := Ok(FromDomain(updated));
  }
}
