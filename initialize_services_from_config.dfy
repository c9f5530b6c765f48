/**
 * Seeding the registry at start-up (app/application/use_cases/initialize_services_from_config.py).
 * Reading the configuration file is not part of this model: the loaded services are an input.
 */
module InitializeServicesFromConfig {
  import opened Wrappers
  import opened ValueObjects
  import opened ServiceModel
  import opened SqliteServiceRepository

  /**
   * `InitializeServicesFromConfig.execute`: nothing loaded means no write at all;
   * otherwise every loaded service is saved, in order.
   */
  method Execute(registry: ServiceRepository, loaded: seq<Service>)
    requires registry.Valid()
    modifies registry
    ensures registry.Valid()
    ensures loaded == [] ==> registry.rows == old(registry.rows)
    ensures registry.rows == UpsertAll(old(registry.rows), loaded)
  {
    if loaded == [] {
      return;
    }
    registry.SaveOrUpdateMany(loaded);
  }

  /**
   * After seeding, an id the configuration lists finds its last entry there, and any
   * other id finds what it found before.
   */
  lemma SeedingLastEntryWins(rows: seq<ServiceRow>, loaded: seq<Service>, id: ServiceId)
    requires RowsValid(rows)
    ensures RowsValid(UpsertAll(rows, loaded))
    ensures (exists s :: s in loaded && s.id == id) ==>
              FindById(UpsertAll(rows, loaded), id) == LastWithId(loaded, id)
    ensures (forall s :: s in loaded ==> s.id != id) ==>
              FindById(UpsertAll(rows, loaded), id) == FindById(rows, id)
  {
    SaveManyLastWins(rows, loaded, id);
  }
}
