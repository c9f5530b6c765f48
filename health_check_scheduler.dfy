/**
 * The scheduler (app/infrastructure/scheduling/health_check_scheduler.py): after each
 * cycle, alert on every enabled service whose newest `threshold` checks are all DOWN;
 * one loop iteration runs the cycle and then the alert evaluation, and an exception in
 * either ends the iteration without ending the loop.
 */
module HealthCheckScheduler {
  import opened Wrappers
  import opened ValueObjects
  import opened ServiceModel
  import opened HealthCheck
  import Registry = SqliteServiceRepository
  import opened SqliteHealthCheckRepository
  import Cycle = RunHealthCheckCycle
  import opened AlertNotifier
  import opened Selection

  /** The arguments of one `service_down_repeatedly` call. */
  datatype NotifierCall = NotifierCall(service: Service, recentChecks: seq<HealthCheckResult>, threshold: int)

  /** `all(check.status.name == "DOWN" for check in checks)`. */
  predicate AllDown(checks: seq<HealthCheckResult>)
  {
    forall i :: 0 <= i < |checks| ==> checks[i].status == HealthStatus.Down
  }

  /** The fetched window is all DOWN exactly when its stored rows all have the status column "DOWN". */
  lemma WindowAllDown(rows: seq<HealthCheckRow>, sid: ServiceId, threshold: nat)
    requires RowsValid(rows)
    ensures AllDown(FindRecentByServiceId(rows, sid, threshold)) <==>
            forall x :: x in RecentRows(rows, sid, threshold) ==> x.status == "DOWN"
  {
    var w := RecentRows(rows, sid, threshold);
    var recent := FindRecentByServiceId(rows, sid, threshold);
    forall i | 0 <= i < |w|
      ensures recent[i].status == HealthStatus.Down <==> w[i].status == "DOWN"
    {
      assert recent[i].status.Value() == w[i].status;
    }
  }

  /**
   * The decision for one service: its newest `threshold` checks are fetched; with fewer
   * than `threshold` the service is skipped, and otherwise it is alerted on exactly when
   * all of them are DOWN, with those checks, newest first.
   */
  function ServiceAlert(service: Service, rows: seq<HealthCheckRow>, threshold: nat): (r: Option<NotifierCall>)
    requires RowsValid(rows) && threshold >= 1
    ensures r.Some? ==> r.value.service == service && r.value.threshold == threshold
                        && |r.value.recentChecks| == threshold && AllDown(r.value.recentChecks)
    ensures r.Some? <==> |RowsOf(rows, service.id)| >= threshold
                         && forall x :: x in RecentRows(rows, service.id, threshold) ==> x.status == "DOWN"
    ensures r.Some? ==> r.value.recentChecks == FindRecentByServiceId(rows, service.id, threshold)
  {
    var recent := FindRecentByServiceId(rows, service.id, threshold);
    WindowAllDown(rows, service.id, threshold);
    if |recent| < threshold then None
    else
      assert recent[..threshold] == recent;
      if AllDown(recent[..threshold]) then Some(NotifierCall(service, recent[..threshold], threshold))
      else None
  }

  /** A service with fewer than `threshold` stored checks is never alerted on. */
  lemma TooFewChecksNoAlert(service: Service, rows: seq<HealthCheckRow>, threshold: nat)
    requires RowsValid(rows) && threshold >= 1
    requires |RowsOf(rows, service.id)| < threshold
    ensures ServiceAlert(service, rows, threshold).None?
  {
  }

  /** The stored checks of `sid` strictly newer than `t`, with their duplicates. */
  function NewerRows(rows: seq<HealthCheckRow>, sid: ServiceId, t: Timestamp): (r: seq<HealthCheckRow>)
    ensures forall x :: multiset(r)[x] == if x.serviceId == sid && x.timestamp > t then multiset(rows)[x] else 0
  {
    if rows == [] then []
    else
      assert rows == [rows[0]] + rows[1..];
      (if rows[0].serviceId == sid && rows[0].timestamp > t then [rows[0]] else []) + NewerRows(rows[1..], sid, t)
  }

  lemma MultisetSubsetSize(a: multiset<HealthCheckRow>, b: multiset<HealthCheckRow>)
    requires a <= b
    ensures |a| <= |b|
  {
    assert b == a + (b - a);
  }

  /**
   * A row `x` of a window `w` drawn from `f`, where nothing left out of the window is
   * newer than `x`, has fewer strictly newer rows `n` than the window has rows.
   */
  lemma NewerRowsFitBeside(f: seq<HealthCheckRow>, w: seq<HealthCheckRow>, n: seq<HealthCheckRow>, x: HealthCheckRow)
    requires x in w
    requires forall y :: y in multiset(f) - multiset(w) ==> y.timestamp <= x.timestamp
    requires forall y :: multiset(n)[y] <= multiset(f)[y]
    requires forall y :: y in multiset(n) ==> y.timestamp > x.timestamp
    ensures |n| < |w|
  {
    forall y
      ensures multiset(n)[y] <= multiset(w)[y]
    {
    }
    assert multiset(n)[x] == 0;
    assert multiset(n) + multiset{x} <= multiset(w);
    MultisetSubsetSize(multiset(n) + multiset{x}, multiset(w));
  }

  /** The checks of `sid` newer than `t` are among its checks, with no more duplicates. */
  lemma NewerRowsAreRowsOf(rows: seq<HealthCheckRow>, sid: ServiceId, t: Timestamp)
    ensures forall y :: multiset(NewerRows(rows, sid, t))[y] <= multiset(RowsOf(rows, sid))[y]
    ensures forall y :: y in multiset(NewerRows(rows, sid, t)) ==> y.timestamp > t
  {
  }

  /** No check of `sid` left out of its window is newer than the window's `i`-th row. */
  lemma LeftOutIsNoNewer(rows: seq<HealthCheckRow>, sid: ServiceId, threshold: nat, i: nat)
    requires i < |RecentRows(rows, sid, threshold)|
    ensures var w := RecentRows(rows, sid, threshold);
            forall y :: y in multiset(RowsOf(rows, sid)) - multiset(w) ==> y.timestamp <= w[i].timestamp
  {
    RecentRowsAreNewest(rows, sid, threshold);
  }

  /** Fewer than `threshold` stored checks of `sid` are strictly newer than a row of its window. */
  lemma WindowRowHasFewNewer(rows: seq<HealthCheckRow>, sid: ServiceId, threshold: nat, i: nat)
    requires i < |RecentRows(rows, sid, threshold)|
    ensures |NewerRows(rows, sid, RecentRows(rows, sid, threshold)[i].timestamp)| < threshold
  {
    var w := RecentRows(rows, sid, threshold);
    var x := w[i];
    LeftOutIsNoNewer(rows, sid, threshold, i);
    NewerRowsAreRowsOf(rows, sid, x.timestamp);
    NewerRowsFitBeside(RowsOf(rows, sid), w, NewerRows(rows, sid, x.timestamp), x);
  }

  /**
   * When every stored check of `sid` that is not DOWN has at least `threshold` strictly
   * newer checks, the newest-first window of `threshold` rows is all DOWN.
   */
  lemma StreakFillsWindow(rows: seq<HealthCheckRow>, sid: ServiceId, threshold: nat)
    requires forall x :: x in rows && x.serviceId == sid && x.status != "DOWN" ==>
               |NewerRows(rows, sid, x.timestamp)| >= threshold
    ensures forall x :: x in RecentRows(rows, sid, threshold) ==> x.status == "DOWN"
  {
    var w := RecentRows(rows, sid, threshold);
    forall i | 0 <= i < |w|
      ensures w[i].status == "DOWN"
    {
      WindowRowHasFewNewer(rows, sid, threshold, i);
    }
  }

  /**
   * An outage alerts, whatever came before it: when every stored check of the service
   * that is not DOWN has at least `threshold` strictly newer checks, so that the newest
   * `threshold` are all DOWN after earlier UP ones, the service is alerted on.
   */
  lemma DownStreakAlerts(service: Service, rows: seq<HealthCheckRow>, threshold: nat)
    requires RowsValid(rows) && threshold >= 1
    requires |RowsOf(rows, service.id)| >= threshold
    requires forall x :: x in rows && x.serviceId == service.id && x.status != "DOWN" ==>
               |NewerRows(rows, service.id, x.timestamp)| >= threshold
    ensures ServiceAlert(service, rows, threshold).Some?
  {
    StreakFillsWindow(rows, service.id, threshold);
  }

  /** A service whose latest check is not DOWN is not alerted on. */
  lemma LatestNotDownNoAlert(service: Service, rows: seq<HealthCheckRow>, threshold: nat)
    requires RowsValid(rows) && threshold >= 1
    requires FindLatestByServiceId(rows, service.id).Some?
    requires FindLatestByServiceId(rows, service.id).value.status != HealthStatus.Down
    ensures ServiceAlert(service, rows, threshold).None?
  {
    var recent := FindRecentByServiceId(rows, service.id, threshold);
    if |recent| >= threshold {
      RecentHeadIsLatest(rows, service.id, threshold);
      assert recent[..threshold][0] == recent[0];
    }
  }

  /** An alert names the service's latest check first, and no stored check of it is newer. */
  lemma AlertLeadsWithLatest(service: Service, rows: seq<HealthCheckRow>, threshold: nat)
    requires RowsValid(rows) && threshold >= 1
    requires ServiceAlert(service, rows, threshold).Some?
    ensures var c := ServiceAlert(service, rows, threshold).value;
            && FindLatestByServiceId(rows, service.id) == Some(c.recentChecks[0])
            && forall x :: x in rows && x.serviceId == service.id ==> x.timestamp <= c.recentChecks[0].timestamp
  {
    var recent := FindRecentByServiceId(rows, service.id, threshold);
    RecentHeadIsLatest(rows, service.id, threshold);
    assert recent[..threshold][0] == recent[0];
    LatestIsNewestRow(rows, service.id);
  }

  /**
   * The notifier calls of one evaluation: the enabled services in order, each alerted on
   * at most once, and exactly those whose decision is to alert.
   */
  function AlertCalls(services: seq<Service>, rows: seq<HealthCheckRow>, threshold: nat): (r: seq<NotifierCall>)
    requires RowsValid(rows) && threshold >= 1
    ensures |r| <= |services|
    ensures forall c :: c in r ==> |c.recentChecks| == threshold
    ensures forall c :: c in r ==> c.service in services && ServiceAlert(c.service, rows, threshold) == Some(c)
    ensures forall s :: s in services && ServiceAlert(s, rows, threshold).Some? ==>
              ServiceAlert(s, rows, threshold).value in r
  {
    if services == [] then []
    else
      var front := services[..|services| - 1];
      var last := services[|services| - 1];
      assert services == front + [last];
      AlertCalls(front, rows, threshold)
      + match ServiceAlert(last, rows, threshold) case Some(c) => [c] case None => []
  }

  /**
   * The calls follow the services' order, one for each service whose decision is to
   * alert and none for the others.
   */
  lemma {:induction false} AlertCallsInServiceOrder(services: seq<Service>, rows: seq<HealthCheckRow>, threshold: nat)
    requires RowsValid(rows) && threshold >= 1
    ensures AlertCalls(services, rows, threshold) == Decisions(services, s => ServiceAlert(s, rows, threshold))
  {
    if services != [] {
      AlertCallsInServiceOrder(services[..|services| - 1], rows, threshold);
    }
  }

  /** With `id` the registry's primary key, one evaluation alerts on each service at most once. */
  lemma OneAlertPerService(regRows: seq<Registry.ServiceRow>, rows: seq<HealthCheckRow>, threshold: nat)
    requires Registry.RowsValid(regRows) && RowsValid(rows) && threshold >= 1
    ensures var calls := AlertCalls(Registry.FindAllEnabled(regRows), rows, threshold);
            forall i, j :: 0 <= i < j < |calls| ==> calls[i].service.id != calls[j].service.id
  {
    var services := Registry.FindAllEnabled(regRows);
    var decide := s => ServiceAlert(s, rows, threshold);
    var calls := AlertCalls(services, rows, threshold);
    AlertCallsInServiceOrder(services, rows, threshold);
    Registry.EnabledServicesAreDistinct(regRows);
    var p := DecidedPositions(services, decide);
    forall i, j | 0 <= i < j < |calls|
      ensures calls[i].service.id != calls[j].service.id
    {
      assert calls[i] == decide(services[p[i]]).value && calls[j] == decide(services[p[j]]).value;
      assert p[i] < p[j];
    }
  }

  /** Evaluating one more service adds its call, if any, at the end. */
  lemma AlertCallsStep(services: seq<Service>, rows: seq<HealthCheckRow>, threshold: nat, k: nat)
    requires RowsValid(rows) && threshold >= 1 && k < |services|
    ensures AlertCalls(services[..k + 1], rows, threshold)
            == AlertCalls(services[..k], rows, threshold)
               + match ServiceAlert(services[k], rows, threshold) case Some(c) => [c] case None => []
  {
    assert services[..k + 1][..k] == services[..k];
  }

  /** What the notifier does for each call, in order. */
  function AlertsOf(n: Notifier, calls: seq<NotifierCall>): (r: seq<Alert>)
    requires forall c :: c in calls ==> |c.recentChecks| > 0
    ensures |r| == |calls|
  {
    seq(|calls|, i requires 0 <= i < |calls| =>
      assert calls[i] in calls;
      ServiceDownRepeatedly(n, calls[i].service, calls[i].recentChecks, calls[i].threshold))
  }

  /** Notifying one more call adds its alert at the end. */
  lemma AlertsOfAppend(n: Notifier, calls: seq<NotifierCall>, c: NotifierCall)
    requires forall d :: d in calls ==> |d.recentChecks| > 0
    requires |c.recentChecks| > 0
    ensures AlertsOf(n, calls + [c])
            == AlertsOf(n, calls) + [ServiceDownRepeatedly(n, c.service, c.recentChecks, c.threshold)]
  {
    var l := AlertsOf(n, calls + [c]);
    var r := AlertsOf(n, calls) + [ServiceDownRepeatedly(n, c.service, c.recentChecks, c.threshold)];
    forall i | 0 <= i < |l|
      ensures l[i] == r[i]
    {
      if i < |calls| {
        assert (calls + [c])[i] == calls[i];
      }
    }
  }

  /**
   * `_evaluate_alerts`: for each enabled service, fetch its newest `threshold` checks,
   * skip it when there are fewer, and notify when all are DOWN. It reads the stores and
   * keeps no memory of earlier alerts, so an unchanged all-DOWN history alerts again.
   */
  method EvaluateAlerts(registry: Registry.ServiceRepository, store: HealthCheckRepository,
                        notifier: Notifier, threshold: nat)
    returns (alerts: seq<Alert>)
    requires registry.Valid() && store.Valid() && threshold >= 1
    ensures alerts == AlertsOf(notifier, AlertCalls(Registry.FindAllEnabled(registry.rows), store.rows, threshold))
  {
    var services := Registry.FindAllEnabled(registry.rows);
    ghost var calls: seq<NotifierCall> := [];
    alerts := [];
    for k := 0 to |services|
      invariant calls == AlertCalls(services[..k], store.rows, threshold)
      invariant forall c :: c in calls ==> |c.recentChecks| == threshold
      invariant alerts == AlertsOf(notifier, calls)
    {
      AlertCallsStep(services, store.rows, threshold, k);
      var service := services[k];
      var recent := FindRecentByServiceId(store.rows, service.id, threshold);
      if |recent| < threshold {
        continue;
      }
      var window := recent[..threshold];
      if AllDown(window) {
        AlertsOfAppend(notifier, calls, NotifierCall(service, window, threshold));
        alerts := alerts + [ServiceDownRepeatedly(notifier, service, window, threshold)];
        calls := calls + [NotifierCall(service, window, threshold)];
      }
    }
    assert services[..|services|] == services;
  }

  /** What one loop iteration reports: how the cycle ended, and the alerts raised after it. */
  datatype IterationReport = IterationReport(cycle: Cycle.CycleOutcome, alerts: seq<Alert>)

  /** The check rows a cycle appends are all convertible. */
  lemma CycleRowsValid(services: seq<Service>, world: nat -> Cycle.Observation)
    ensures RowsValid(Cycle.CycleOf(services, world).saved)
  {
    var saved := Cycle.CycleOf(services, world).saved;
    Cycle.CyclePrefixRows(services, world, Cycle.SavedRow, |services|);
    forall x | x in saved
      ensures RowIsValid(x)
    {
      var i :| 0 <= i < |saved| && saved[i] == x;
      Cycle.CommittedRowAt(services, world, Cycle.SavedRow, |saved|, i);
    }
  }

  /**
   * One iteration over the registry `regRows` and the history `rows`: the cycle's rows
   * are appended, and alerts are evaluated on the grown history only when the cycle
   * completed; a failed cycle is caught and raises no alert.
   */
  function IterationOf(regRows: seq<Registry.ServiceRow>, rows: seq<HealthCheckRow>, notifier: Notifier,
                       threshold: nat, world: nat -> Cycle.Observation)
    : (r: (seq<HealthCheckRow>, IterationReport))
    requires Registry.AllRowsConvert(regRows) && RowsValid(rows) && threshold >= 1
    ensures RowsValid(r.0) && rows <= r.0
    ensures r.0 == rows + Cycle.CycleOf(Registry.FindAllEnabled(regRows), world).saved
    ensures r.1.cycle == Cycle.CycleOf(Registry.FindAllEnabled(regRows), world).outcome
    ensures r.1.cycle.Aborted? ==> r.1.alerts == []
    ensures r.1.cycle.Completed? ==>
              r.1.alerts == AlertsOf(notifier, AlertCalls(Registry.FindAllEnabled(regRows), r.0, threshold))
  {
    var services := Registry.FindAllEnabled(regRows);
    var run := Cycle.CycleOf(services, world);
    var saved := run.saved;
    var outcome := run.outcome;
    CycleRowsValid(services, world);
    var after := rows + saved;
    if outcome.Aborted? then (after, IterationReport(outcome, []))
    else
      (after, IterationReport(outcome, AlertsOf(notifier, AlertCalls(services, after, threshold))))
  }

  /** One iteration of the running `health_check_loop`: the cycle, then the alerts, failures caught. */
  method LoopIteration(registry: Registry.ServiceRepository, store: HealthCheckRepository, notifier: Notifier,
                       threshold: nat, world: nat -> Cycle.Observation)
    returns (report: IterationReport)
    requires registry.Valid() && store.Valid() && threshold >= 1
    modifies store
    ensures store.Valid()
    ensures (store.rows, report) == IterationOf(registry.rows, old(store.rows), notifier, threshold, world)
  {
    var outcome := Cycle.Execute(registry, store, world);
    if outcome.Aborted? {
      report := IterationReport(outcome, []);
      return;
    }
    var alerts := EvaluateAlerts(registry, store, notifier, threshold);
    report := IterationReport(outcome, alerts);
  }

  /** `n` iterations of the loop; `worlds(i)` is what the environment answers in iteration `i`. */
  function LoopOf(regRows: seq<Registry.ServiceRow>, rows: seq<HealthCheckRow>, notifier: Notifier,
                  threshold: nat, worlds: nat -> nat -> Cycle.Observation, n: nat)
    : (r: (seq<HealthCheckRow>, seq<IterationReport>))
    requires Registry.AllRowsConvert(regRows) && RowsValid(rows) && threshold >= 1
    ensures RowsValid(r.0) && rows <= r.0 && |r.1| == n
    ensures forall i :: 0 <= i < n && r.1[i].cycle.Aborted? ==> r.1[i].alerts == []
  {
    if n == 0 then (rows, [])
    else
      var (before, reports) := LoopOf(regRows, rows, notifier, threshold, worlds, n - 1);
      var (after, report) := IterationOf(regRows, before, notifier, threshold, worlds(n - 1));
      (after, reports + [report])
  }

  /**
   * Iteration `i` of the loop runs on the history the first `i` iterations left, and the
   * loop reports exactly what that iteration reports.
   */
  lemma {:induction false} LoopOfIteration(regRows: seq<Registry.ServiceRow>, rows: seq<HealthCheckRow>, notifier: Notifier,
                                           threshold: nat, worlds: nat -> nat -> Cycle.Observation, n: nat, i: nat)
    requires Registry.AllRowsConvert(regRows) && RowsValid(rows) && threshold >= 1 && i < n
    ensures LoopOf(regRows, rows, notifier, threshold, worlds, i + 1).0
            == IterationOf(regRows, LoopOf(regRows, rows, notifier, threshold, worlds, i).0, notifier, threshold, worlds(i)).0
    ensures LoopOf(regRows, rows, notifier, threshold, worlds, n).1[i]
            == IterationOf(regRows, LoopOf(regRows, rows, notifier, threshold, worlds, i).0, notifier, threshold, worlds(i)).1
  {
    var prev := LoopOf(regRows, rows, notifier, threshold, worlds, n - 1);
    var last := IterationOf(regRows, prev.0, notifier, threshold, worlds(n - 1));
    assert LoopOf(regRows, rows, notifier, threshold, worlds, n).1 == prev.1 + [last.1];
    if i < n - 1 {
      LoopOfIteration(regRows, rows, notifier, threshold, worlds, n - 1, i);
      assert (prev.1 + [last.1])[i] == prev.1[i];
    }
  }

  /**
   * The running `health_check_loop`, for `iterations` iterations: every iteration runs,
   * whatever the previous one raised, and the history only grows.
   */
  method HealthCheckLoop(registry: Registry.ServiceRepository, store: HealthCheckRepository, notifier: Notifier,
                         threshold: nat, worlds: nat -> nat -> Cycle.Observation, iterations: nat)
    returns (reports: seq<IterationReport>)
    requires registry.Valid() && store.Valid() && threshold >= 1
    modifies store
    ensures store.Valid()
    ensures (store.rows, reports) == LoopOf(registry.rows, old(store.rows), notifier, threshold, worlds, iterations)
  {
    reports := [];
    for i := 0 to iterations
      invariant store.Valid()
      invariant (store.rows, reports) == LoopOf(registry.rows, old(store.rows), notifier, threshold, worlds, i)
    {
      var report := LoopIteration(registry, store, notifier, threshold, worlds(i));
      reports := reports + [report];
    }
  }
}
