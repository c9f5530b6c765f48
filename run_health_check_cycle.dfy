/**
 * One health-check cycle (app/application/use_cases/run_health_check_cycle.py): the
 * enabled services are read once, then checked one after another in that order. Nothing
 * isolates one service's failure: the first exception ends the cycle.
 */
module RunHealthCheckCycle {
  import opened Wrappers
  import opened ServiceModel
  import Registry = SqliteServiceRepository
  import opened SqliteHealthCheckRepository
  import RunHealthCheckForService
  import opened Selection

  type Observation = RunHealthCheckForService.Observation

  /** How a cycle ended: all services checked, or the exception raised checking service `at`. */
  datatype CycleOutcome = Completed | Aborted(at: nat, error: string)

  /** The rows a cycle has appended so far, and how far it got. */
  datatype CycleRun = CycleRun(saved: seq<HealthCheckRow>, outcome: CycleOutcome)

  /** The row checking `service` against `obs` commits when the commit succeeds. */
  function SavedRow(service: Service, obs: Observation): HealthCheckRow
  {
    ToRow(RunHealthCheckForService.CheckOf(service, obs))
  }

  /**
   * The rows the first `n` services of the snapshot append, and how far the cycle got;
   * `world(i)` is what the environment answers while checking service `i`, and
   * `rowOf(s, obs)` is the row the single check of `s` commits (`SavedRow` in a cycle;
   * the lemmas below hold for any such function).
   */
  function CyclePrefix(services: seq<Service>, world: nat -> Observation,
                       rowOf: (Service, Observation) -> HealthCheckRow, n: nat): CycleRun
    requires n <= |services|
  {
    if n == 0 then CycleRun([], Completed)
    else
      var prev := CyclePrefix(services, world, rowOf, n - 1);
      if prev.outcome.Aborted? then prev
      else if world(n - 1).dbError.Some? then CycleRun(prev.saved, Aborted(n - 1, world(n - 1).dbError.value))
      else CycleRun(prev.saved + [rowOf(services[n - 1], world(n - 1))], Completed)
  }

  /** Checking the next service of a cycle still running either appends its row or aborts there. */
  lemma CycleStep(services: seq<Service>, world: nat -> Observation,
                  rowOf: (Service, Observation) -> HealthCheckRow, k: nat)
    requires k < |services| && CyclePrefix(services, world, rowOf, k).outcome.Completed?
    ensures world(k).dbError.None? ==>
              CyclePrefix(services, world, rowOf, k + 1)
              == CycleRun(CyclePrefix(services, world, rowOf, k).saved + [rowOf(services[k], world(k))], Completed)
    ensures world(k).dbError.Some? ==>
              CyclePrefix(services, world, rowOf, k + 1)
              == CycleRun(CyclePrefix(services, world, rowOf, k).saved, Aborted(k, world(k).dbError.value))
  {
  }

  /** Once a prefix has aborted, the longer prefixes add nothing and keep the same outcome. */
  lemma {:induction false} AbortIsFinal(services: seq<Service>, world: nat -> Observation,
                                        rowOf: (Service, Observation) -> HealthCheckRow, k: nat, n: nat)
    requires k <= n <= |services| && CyclePrefix(services, world, rowOf, k).outcome.Aborted?
    ensures CyclePrefix(services, world, rowOf, n) == CyclePrefix(services, world, rowOf, k)
  {
    if k < n {
      AbortIsFinal(services, world, rowOf, k, n - 1);
    }
  }

  /**
   * A cycle prefix that completed has one row per service; one that aborted at service
   * `k` has the rows of the services before `k`, and `k`'s commit failed.
   */
  lemma {:induction false} CyclePrefixLength(services: seq<Service>, world: nat -> Observation,
                                             rowOf: (Service, Observation) -> HealthCheckRow, n: nat)
    requires n <= |services|
    ensures var r := CyclePrefix(services, world, rowOf, n);
            && (r.outcome.Completed? ==> |r.saved| == n)
            && (r.outcome.Aborted? ==>
                  r.outcome.at < n && |r.saved| == r.outcome.at && world(r.outcome.at).dbError == Some(r.outcome.error))
  {
    if n > 0 {
      CyclePrefixLength(services, world, rowOf, n - 1);
    }
  }

  /** The rows of the first `n` services when every one of their commits succeeds. */
  function CommittedRows(services: seq<Service>, world: nat -> Observation,
                         rowOf: (Service, Observation) -> HealthCheckRow, n: nat): seq<HealthCheckRow>
    requires n <= |services|
  {
    if n == 0 then [] else CommittedRows(services, world, rowOf, n - 1) + [rowOf(services[n - 1], world(n - 1))]
  }

  /** Row `i` of the committed rows is the row of service `i`. */
  lemma {:induction false} CommittedRowAt(services: seq<Service>, world: nat -> Observation,
                                          rowOf: (Service, Observation) -> HealthCheckRow, n: nat, i: nat)
    requires i < n <= |services|
    ensures |CommittedRows(services, world, rowOf, n)| == n
    ensures CommittedRows(services, world, rowOf, n)[i] == rowOf(services[i], world(i))
  {
    if i < n - 1 {
      CommittedRowAt(services, world, rowOf, n - 1, i);
    } else if n > 1 {
      CommittedRowAt(services, world, rowOf, n - 1, 0);
    }
  }

  /**
   * The rows a cycle prefix has saved are those of the services before the first failed
   * commit, in snapshot order, and every one of those commits succeeded.
   */
  lemma {:induction false} CyclePrefixRows(services: seq<Service>, world: nat -> Observation,
                                           rowOf: (Service, Observation) -> HealthCheckRow, n: nat)
    requires n <= |services|
    ensures var saved := CyclePrefix(services, world, rowOf, n).saved;
            && |saved| <= n
            && saved == CommittedRows(services, world, rowOf, |saved|)
            && forall i :: 0 <= i < |saved| ==> world(i).dbError.None?
  {
    if n > 0 {
      CyclePrefixRows(services, world, rowOf, n - 1);
      CyclePrefixLength(services, world, rowOf, n - 1);
    }
  }

  /** The rows a whole cycle over `services` appends, and its outcome. */
  function CycleOf(services: seq<Service>, world: nat -> Observation): CycleRun
  {
    CyclePrefix(services, world, SavedRow, |services|)
  }

  /** A cycle completes exactly when no commit fails. */
  lemma {:induction false} CompletesIffNoFailure(services: seq<Service>, world: nat -> Observation,
                                                 rowOf: (Service, Observation) -> HealthCheckRow, n: nat)
    requires n <= |services|
    ensures CyclePrefix(services, world, rowOf, n).outcome.Completed? <==>
            forall i :: 0 <= i < n ==> world(i).dbError.None?
  {
    if n > 0 {
      CompletesIffNoFailure(services, world, rowOf, n - 1);
    }
  }

  /**
   * A cycle that fails on service `k` has checked exactly the services before it; the
   * services after `k` are not checked.
   */
  lemma AbortSkipsTheRest(services: seq<Service>, world: nat -> Observation)
    requires CycleOf(services, world).outcome.Aborted?
    ensures var r := CycleOf(services, world);
            |r.saved| == r.outcome.at < |services|
            && (forall i :: 0 <= i < r.outcome.at ==> world(i).dbError.None?)
            && world(r.outcome.at).dbError.Some?
  {
    CyclePrefixLength(services, world, SavedRow, |services|);
    CyclePrefixRows(services, world, SavedRow, |services|);
  }

  /** A completed cycle saved one row per service of the snapshot, service `i`'s row at `i`. */
  lemma CompletedCycleRows(services: seq<Service>, world: nat -> Observation)
    requires forall i :: 0 <= i < |services| ==> world(i).dbError.None?
    ensures CycleOf(services, world).outcome.Completed?
    ensures var saved := CycleOf(services, world).saved;
            |saved| == |services|
            && forall i :: 0 <= i < |services| ==> saved[i] == SavedRow(services[i], world(i))
  {
    CompletesIffNoFailure(services, world, SavedRow, |services|);
    CyclePrefixLength(services, world, SavedRow, |services|);
    CyclePrefixRows(services, world, SavedRow, |services|);
    forall i | 0 <= i < |services|
      ensures CycleOf(services, world).saved[i] == SavedRow(services[i], world(i))
    {
      CommittedRowAt(services, world, SavedRow, |services|, i);
    }
  }

  /**
   * A completed cycle over the registry checks each enabled service exactly once, in
   * table order: its `k`-th row is that of the `k`-th enabled row, and no service id
   * repeats.
   */
  lemma CompletedCycleChecksEachEnabledOnce(rows: seq<Registry.ServiceRow>, world: nat -> Observation)
    requires Registry.RowsValid(rows)
    requires forall i :: 0 <= i < |Registry.FindAllEnabled(rows)| ==> world(i).dbError.None?
    ensures var saved := CycleOf(Registry.FindAllEnabled(rows), world).saved;
            var p := DecidedPositions(rows, Registry.EnabledRow);
            && |saved| == |p|
            && (forall k :: 0 <= k < |saved| ==> saved[k].serviceId == rows[p[k]].id)
            && forall i, j :: 0 <= i < j < |saved| ==> saved[i].serviceId != saved[j].serviceId
  {
    var services := Registry.FindAllEnabled(rows);
    CompletedCycleRows(services, world);
    Registry.EnabledServicesAreDistinct(rows);
  }

  /** Every row a cycle appends belongs to a service of the snapshot, which in a cycle is an enabled one. */
  lemma CycleChecksOnlyEnabled(rows: seq<Registry.ServiceRow>, world: nat -> Observation)
    requires Registry.AllRowsConvert(rows)
    ensures forall x :: x in CycleOf(Registry.FindAllEnabled(rows), world).saved ==>
              exists s :: s in Registry.FindAllEnabled(rows) && s.enabled && s.id == x.serviceId
  {
    var services := Registry.FindAllEnabled(rows);
    var saved := CycleOf(services, world).saved;
    CyclePrefixRows(services, world, SavedRow, |services|);
    forall x | x in saved
      ensures exists s :: s in services && s.enabled && s.id == x.serviceId
    {
      var i :| 0 <= i < |saved| && saved[i] == x;
      CommittedRowAt(services, world, SavedRow, |saved|, i);
      assert services[i] in services;
    }
  }

  /** A successful commit of service `k` extends the stored history by the next prefix's row. */
  lemma CommitStep(services: seq<Service>, world: nat -> Observation, k: nat, before: seq<HealthCheckRow>)
    requires k < |services| && CyclePrefix(services, world, SavedRow, k).outcome.Completed?
    requires world(k).dbError.None?
    ensures CyclePrefix(services, world, SavedRow, k + 1).outcome.Completed?
    ensures before + CyclePrefix(services, world, SavedRow, k).saved
              + [ToRow(RunHealthCheckForService.CheckOf(services[k], world(k)))]
            == before + CyclePrefix(services, world, SavedRow, k + 1).saved
  {
    CycleStep(services, world, SavedRow, k);
    var saved := CyclePrefix(services, world, SavedRow, k).saved;
    var row := SavedRow(services[k], world(k));
    assert before + (saved + [row]) == (before + saved) + [row];
  }

  /** A failed commit of service `k` ends the whole cycle there, with what was saved before it. */
  lemma FailStep(services: seq<Service>, world: nat -> Observation, k: nat)
    requires k < |services| && CyclePrefix(services, world, SavedRow, k).outcome.Completed?
    requires world(k).dbError.Some?
    ensures CycleOf(services, world)
            == CycleRun(CyclePrefix(services, world, SavedRow, k).saved, Aborted(k, world(k).dbError.value))
  {
    CycleStep(services, world, SavedRow, k);
    AbortIsFinal(services, world, SavedRow, k + 1, |services|);
  }

  /**
   * The loop of `RunHealthCheckCycle.execute` over the snapshot `services`: the single
   * check of each service in order, until the first one that raises.
   */
  method CheckEach(services: seq<Service>, store: HealthCheckRepository, world: nat -> Observation)
    returns (outcome: CycleOutcome)
    requires store.Valid()
    modifies store
    ensures store.Valid()
    ensures store.rows == old(store.rows) + CycleOf(services, world).saved
    ensures outcome == CycleOf(services, world).outcome
  {
    for k := 0 to |services|
      invariant store.Valid()
      invariant CyclePrefix(services, world, SavedRow, k).outcome.Completed?
      invariant store.rows == old(store.rows) + CyclePrefix(services, world, SavedRow, k).saved
    {
      var raised := RunHealthCheckForService.Execute(services[k], world(k), store);
      if raised.Some? {
        FailStep(services, world, k);
        outcome := Aborted(k, raised.value);
        return;
      }
      CommitStep(services, world, k, old(store.rows));
    }
    outcome := Completed;
  }

  /**
   * `RunHealthCheckCycle.execute`: reads the enabled services once and runs the single
   * check for each in order, stopping at the first failure.
   */
  method Execute(registry: Registry.ServiceRepository, store: HealthCheckRepository, world: nat -> Observation)
    returns (outcome: CycleOutcome)
    requires registry.Valid() && store.Valid()
    modifies store
    ensures store.Valid()
    ensures store.rows == old(store.rows) + CycleOf(Registry.FindAllEnabled(registry.rows), world).saved
    ensures outcome == CycleOf(Registry.FindAllEnabled(registry.rows), world).outcome
  {
    var services := Registry.FindAllEnabled(registry.rows);
    outcome := CheckEach(services, store, world);
  }
}
