/**
 * The service registry (app/infrastructure/db/sqlite_service_repository.py) as an
 * in-memory `services` table keyed by the primary key `id`: `save` overwrites the
 * row with the service's id in place or appends a new row, and the finders are the
 * filters the SQL queries express.
 */
module SqliteServiceRepository {
  import opened Wrappers
  import opened ValueObjects
  import opened ServiceModel
  import opened Selection

  /** One row of the `services` table; `environment` is a nullable column. */
  datatype ServiceRow = ServiceRow(
    id: string,
    name: string,
    url: string,
    expectedVersion: Option<string>,
    environment: Option<string>,
    enabled: bool)

  /** A row `_to_domain` can convert: its environment is NULL or one of the five values. */
  predicate RowIsValid(row: ServiceRow)
  {
    row.environment.None? || row.environment.value in EnvironmentValues
  }

  predicate AllRowsConvert(rows: seq<ServiceRow>)
  {
    forall row :: row in rows ==> RowIsValid(row)
  }

  /** `id` is the primary key: no two rows share it. */
  predicate UniqueIds(rows: seq<ServiceRow>)
  {
    forall i, j :: 0 <= i < j < |rows| ==> rows[i].id != rows[j].id
  }

  predicate RowsValid(rows: seq<ServiceRow>)
  {
    AllRowsConvert(rows) && UniqueIds(rows)
  }

  /**
   * `_to_domain`: `Service.from_primitives` over the columns. A NULL environment
   * reads back as `unknown`; a row with a present environment is exactly the row
   * `save` writes for the service it converts to.
   */
  function ToDomain(row: ServiceRow): (s: Service)
    requires RowIsValid(row)
    ensures s.id == row.id && s.enabled == row.enabled
    ensures row.environment.None? ==> s.environment == Environment.Unknown
    ensures row.environment.Some? ==> ToRow(s) == row
  {
    FromPrimitives(row.id, row.name, row.url, row.expectedVersion, row.environment, row.enabled).value
  }

  /**
   * The columns `save` writes: the expected version's string or NULL, and the
   * environment's string value. Converting the row back gives the service again,
   * an empty expected version included.
   */
  function ToRow(s: Service): (row: ServiceRow)
    ensures RowIsValid(row) && row.id == s.id && row.environment.Some?
    ensures FromPrimitives(row.id, row.name, row.url, row.expectedVersion, row.environment, row.enabled) == Ok(s)
  {
    EnvironmentValueRoundTrip(s.environment);
    ServiceRow(
      s.id, s.name, s.url,
      if s.expectedVersion.Some? then Some(s.expectedVersion.value.value) else None,
      Some(s.environment.Value()),
      s.enabled)
  }

  /** Saving then reloading a service gives it back unchanged. */
  lemma SaveLoadRoundTrip(s: Service)
    ensures ToDomain(ToRow(s)) == s
  {
  }

  /** A NULL environment column is the only thing a reload and re-save does not keep. */
  lemma NullEnvironmentNormalizes(row: ServiceRow)
    requires RowIsValid(row) && row.environment.None?
    ensures ToRow(ToDomain(row)) == row.(environment := Some("unknown"))
  {
  }

  /** The position of the row with id `id` (`.first()` of the filtered query). */
  function IndexOfId(rows: seq<ServiceRow>, id: string): (r: Option<nat>)
    ensures r.None? <==> forall i :: 0 <= i < |rows| ==> rows[i].id != id
    ensures r.Some? ==> r.value < |rows| && rows[r.value].id == id
    ensures r.Some? ==> forall i :: 0 <= i < r.value ==> rows[i].id != id
  {
    if rows == [] then None
    else if rows[0].id == id then Some(0)
    else
      match IndexOfId(rows[1..], id)
      case None => None
      case Some(i) => Some(i + 1)
  }

  /** `find_by_id`: the service stored under `id`, `None` when no row has it. */
  function FindById(rows: seq<ServiceRow>, id: ServiceId): (r: Option<Service>)
    requires AllRowsConvert(rows)
    ensures r.None? <==> forall row :: row in rows ==> row.id != id
    ensures r.Some? ==> r.value.id == id
  {
    match IndexOfId(rows, id)
    case None => None
    case Some(i) =>
      assert rows[i] in rows;
      Some(ToDomain(rows[i]))
  }

  /** With unique ids, the row found under an id is the one at any index holding it. */
  lemma FindByIdAt(rows: seq<ServiceRow>, i: nat)
    requires RowsValid(rows) && i < |rows|
    ensures FindById(rows, rows[i].id) == Some(ToDomain(rows[i]))
  {
  }

  /**
   * `save`: a row with the service's id is overwritten at its position; otherwise
   * the new row is appended. No other row moves or changes.
   */
  function Upsert(rows: seq<ServiceRow>, s: Service): (r: seq<ServiceRow>)
    ensures (exists i :: 0 <= i < |rows| && rows[i].id == s.id) ==> |r| == |rows|
    ensures (forall i :: 0 <= i < |rows| ==> rows[i].id != s.id) ==> r == rows + [ToRow(s)]
    ensures forall i :: 0 <= i < |rows| && rows[i].id != s.id ==> r[i] == rows[i]
    ensures ToRow(s) in r
  {
    match IndexOfId(rows, s.id)
    case Some(i) =>
      var r := rows[i := ToRow(s)];
      assert r[i] == ToRow(s);
      r
    case None => rows + [ToRow(s)]
  }

  /** Saving keeps every row convertible and the ids unique. */
  lemma UpsertKeepsValid(rows: seq<ServiceRow>, s: Service)
    requires RowsValid(rows)
    ensures RowsValid(Upsert(rows, s))
  {
    var r := Upsert(rows, s);
    forall row | row in r
      ensures RowIsValid(row)
    {
      var k :| 0 <= k < |r| && r[k] == row;
      if k < |rows| && rows[k].id != s.id {
        assert rows[k] in rows;
      }
    }
    match IndexOfId(rows, s.id)
    case Some(i) =>
      forall a, b | 0 <= a < b < |r|
        ensures r[a].id != r[b].id
      {
        if a != i && b != i {
          assert r[a] == rows[a] && r[b] == rows[b];
        }
      }
    case None =>
  }

  /** After `save(s)`, `find_by_id(s.id)` is `s`. */
  lemma FindAfterSave(rows: seq<ServiceRow>, s: Service)
    requires RowsValid(rows)
    ensures FindById(Upsert(rows, s), s.id) == Some(s)
  {
    UpsertKeepsValid(rows, s);
    var r := Upsert(rows, s);
    var k :| 0 <= k < |r| && r[k] == ToRow(s);
    FindByIdAt(r, k);
  }

  /** `save(s)` leaves what every other id finds unchanged. */
  lemma SaveLeavesOthers(rows: seq<ServiceRow>, s: Service, id: ServiceId)
    requires RowsValid(rows) && id != s.id
    ensures FindById(Upsert(rows, s), id) == FindById(rows, id)
  {
    UpsertKeepsValid(rows, s);
    var r := Upsert(rows, s);
    match IndexOfId(rows, id)
    case Some(i) =>
      assert r[i] == rows[i];
      FindByIdAt(rows, i);
      FindByIdAt(r, i);
    case None =>
      forall row | row in r
        ensures row.id != id
      {
        var k :| 0 <= k < |r| && r[k] == row;
        if k < |rows| && rows[k].id != s.id {
          assert r[k] == rows[k];
        }
      }
  }

  /** `save_or_update_many`: the services saved one after another, in order. */
  function UpsertAll(rows: seq<ServiceRow>, services: seq<Service>): seq<ServiceRow>
  {
    if services == [] then rows
    else Upsert(UpsertAll(rows, services[..|services| - 1]), services[|services| - 1])
  }

  /** Any sequence of saves keeps the rows convertible and the ids unique. */
  lemma {:induction false} UpsertAllKeepsValid(rows: seq<ServiceRow>, services: seq<Service>)
    requires RowsValid(rows)
    ensures RowsValid(UpsertAll(rows, services))
  {
    if services != [] {
      UpsertAllKeepsValid(rows, services[..|services| - 1]);
      UpsertKeepsValid(UpsertAll(rows, services[..|services| - 1]), services[|services| - 1]);
    }
  }

  /** The last service in `services` with id `id`, if any. */
  function LastWithId(services: seq<Service>, id: ServiceId): (r: Option<Service>)
    ensures r.None? <==> forall s :: s in services ==> s.id != id
    ensures r.Some? ==> r.value in services && r.value.id == id
  {
    if services == [] then None
    else if services[|services| - 1].id == id then Some(services[|services| - 1])
    else
      var front := services[..|services| - 1];
      assert services == front + [services[|services| - 1]];
      LastWithId(front, id)
  }

  /**
   * After `save_or_update_many`, an id that occurs in the batch finds its last
   * occurrence; every other id finds what it found before.
   */
  lemma {:induction false} SaveManyLastWins(rows: seq<ServiceRow>, services: seq<Service>, id: ServiceId)
    requires RowsValid(rows)
    ensures RowsValid(UpsertAll(rows, services))
    ensures FindById(UpsertAll(rows, services), id)
            == if LastWithId(services, id).Some? then LastWithId(services, id) else FindById(rows, id)
  {
    UpsertAllKeepsValid(rows, services);
    if services != [] {
      var front := services[..|services| - 1];
      var last := services[|services| - 1];
      SaveManyLastWins(rows, front, id);
      UpsertAllKeepsValid(rows, front);
      if last.id == id {
        FindAfterSave(UpsertAll(rows, front), last);
      } else {
        SaveLeavesOthers(UpsertAll(rows, front), last, id);
      }
    }
  }

  /** `list_all`: every stored service, in table order. */
  function ListAll(rows: seq<ServiceRow>): (r: seq<Service>)
    requires AllRowsConvert(rows)
    ensures |r| == |rows|
    ensures forall i :: 0 <= i < |rows| ==> r[i].id == rows[i].id && r[i].enabled == rows[i].enabled
  {
    seq(|rows|, i requires 0 <= i < |rows| => ToDomain(rows[i]))
  }

  /** Every service `list_all` returns is what `find_by_id` returns for its id. */
  lemma ListAllAgreesWithFindById(rows: seq<ServiceRow>, i: nat)
    requires RowsValid(rows) && i < |rows|
    ensures FindById(rows, ListAll(rows)[i].id) == Some(ListAll(rows)[i])
  {
    FindByIdAt(rows, i);
  }

  /** The `WHERE enabled` filter on one row. */
  function EnabledRow(row: ServiceRow): (r: Option<ServiceRow>)
    ensures r.Some? <==> row.enabled
    ensures r.Some? ==> r.value == row
  {
    if row.enabled then Some(row) else None
  }

  /**
   * `find_all_enabled`: the stored services whose `enabled` column is true, in table
   * order: the `k`-th is the service of the `k`-th enabled row, and every enabled row
   * gives one.
   */
  function FindAllEnabled(rows: seq<ServiceRow>): (r: seq<Service>)
    requires AllRowsConvert(rows)
    ensures |r| <= |rows|
    ensures forall s :: s in r <==> s.enabled && exists row :: row in rows && ToDomain(row) == s
    ensures |r| == |DecidedPositions(rows, EnabledRow)|
    ensures forall k :: 0 <= k < |r| ==> r[k] == ToDomain(rows[DecidedPositions(rows, EnabledRow)[k]])
  {
    if rows == [] then []
    else
      var front := rows[..|rows| - 1];
      var last := rows[|rows| - 1];
      assert rows == front + [last];
      assert forall i :: 0 <= i < |front| ==> front[i] == rows[i];
      assert forall row :: row in rows <==> row in front || row == last;
      FindAllEnabled(front) + if last.enabled then [ToDomain(last)] else []
  }

  /** With `id` the primary key, `find_all_enabled` lists each enabled service once. */
  lemma EnabledServicesAreDistinct(rows: seq<ServiceRow>)
    requires RowsValid(rows)
    ensures forall i, j :: 0 <= i < j < |FindAllEnabled(rows)| ==> FindAllEnabled(rows)[i].id != FindAllEnabled(rows)[j].id
  {
    var r := FindAllEnabled(rows);
    var p := DecidedPositions(rows, EnabledRow);
    forall i, j | 0 <= i < j < |r|
      ensures r[i].id != r[j].id
    {
      assert r[i].id == rows[p[i]].id && r[j].id == rows[p[j]].id;
      assert p[i] < p[j];
    }
  }

  /** `find_all_enabled` is `list_all` restricted to the enabled services. */
  lemma EnabledIsFilteredListAll(rows: seq<ServiceRow>, s: Service)
    requires AllRowsConvert(rows)
    ensures s in FindAllEnabled(rows) <==> s in ListAll(rows) && s.enabled
  {
    var all := ListAll(rows);
    if s in FindAllEnabled(rows) {
      var row :| row in rows && ToDomain(row) == s;
      var i :| 0 <= i < |rows| && rows[i] == row;
      assert all[i] == s;
    }
    if s in all {
      var i :| 0 <= i < |all| && all[i] == s;
      assert rows[i] in rows;
    }
  }

  /** The registry table. */
  class ServiceRepository {
    var rows: seq<ServiceRow>

    ghost predicate Valid()
      reads this
    {
      RowsValid(rows)
    }

    constructor ()
      ensures Valid() && rows == []
    {
      rows := [];
    }

    /** `save`: look the id up, then overwrite that row in place or add a new one. */
    method Save(s: Service)
      requires Valid()
      modifies this
      ensures Valid() && rows == Upsert(old(rows), s)
    {
      UpsertKeepsValid(rows, s);
      var existing := IndexOfId(rows, s.id);
      match existing
      case Some(i) =>
        rows := rows[i := ToRow(s)];
      case None =>
        rows := rows + [ToRow(s)];
    }

    /** `save_or_update_many`: `save` for each service, in order. */
    method SaveOrUpdateMany(services: seq<Service>)
      requires Valid()
      modifies this
      ensures Valid() && rows == UpsertAll(old(rows), services)
    {
      for k := 0 to |services|
        invariant Valid() && rows == UpsertAll(old(rows), services[..k])
      {
        assert services[..k + 1][..k] == services[..k];
        Save(services[k]);
      }
      assert services[..|services|] == services;
    }
  }
}
