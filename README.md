# Service reliability monitor: health-check engine in Dafny

This project models the core of a service reliability monitor:
- A scheduler periodically runs a health-check cycle over the enabled services of a registry.
- Each service is probed over HTTP, and the raw probe data is classified as UP or DOWN, with a tri-state version verdict.
- The resulting record is appended to a history table.
- After each cycle, a service whose newest `threshold` checks are all DOWN is reported to an alert notifier. The notifier logs the alert and, when a webhook URL is configured, posts a payload.

Around that engine the model covers:
- the two SQLite-backed stores, as in-memory tables:
  - the service registry, keyed by id;
  - the append-only check history;
- the value objects and the `Service` factory;
- the use cases of the HTTP API (latest status, history, create, enable/disable, list, seed from configuration);
- the three DTO mappers.

One Dafny module models one source file. The project follows the source's own form file by file:
- Pure code becomes datatypes, functions and lemmas: the evaluator, value objects, factory, DTO mappers, version extraction and the alert payload.
- Code that changes state becomes classes and methods with loop invariants. The two stores are classes with a `rows` field. Saving, the cycle, alert evaluation, the scheduler loop and the state-changing use cases are methods.
  - Each method is proved against a function that specifies it, such as `CyclePrefix`, `AlertCalls`, `Upsert`/`UpsertAll` or `LatestSummaries`.
  - The lemmas beside those functions state what the source promises.

Effects the model cannot see are inputs:
- the HTTP response or the exception raised by the probe, and the elapsed time;
- the clock reading;
- whether the database commit of a check fails;
- the services the configuration loader produced.

An `Observation` bundles what the environment answers while one service is checked. In a cycle, a `world` function gives the observation for the service at each position.

Two behaviours of the code are worth stating outright:
- **No per-service failure isolation.** The first exception ends the cycle, and the scheduler catches it for the whole iteration. `RunHealthCheckCycle` models this. `AbortSkipsTheRest` states that the services after a failing one are not checked in that cycle.
- **Any non-DOWN entry stops an alert.** The alert test asks that every entry of the window be DOWN, so an UNKNOWN entry stops an alert just as an UP one does. `ServiceAlert` models this.

The stored check history is reloaded by a conversion that drops an empty version string (see "## Findings"). The queries of the model use the corrected conversion `ToDomain`; their as-written counterparts `FindLatestAsWritten` and `FindRecentAsWritten` differ from them exactly by `AsWrittenReload`, as `AsWrittenIsReloadOfCorrected` states.

## Model

| member | source | states |
|---|---|---|
| ValueObjects.EnvironmentFromValue | app/domain/model/value_objects.py:13-18 | `Environment(s)` succeeds exactly for the five lower-case values, and gives the member carrying `s` |
| ValueObjects.EnvironmentValueRoundTrip | app/domain/model/value_objects.py:13-18 | every environment's value is one of the five strings and parses back to that same member |
| ValueObjects.HealthStatusFromValue | app/domain/model/value_objects.py:21-24 | `HealthStatus(s)` succeeds exactly for "UP", "DOWN", "UNKNOWN", and gives the member carrying `s` |
| ValueObjects.HealthStatusValueRoundTrip | app/domain/model/value_objects.py:21-24 | every status's value is one of the three names and parses back to that same status |
| ValueObjects.Version.ToString | app/domain/model/value_objects.py:36-37 | `str(v)` is the text that wraps back into `v` |
| ValueObjects.VersionText | app/application/dto/service_health_summary_dto.py:29 | `str(v) if v else None` is absent exactly when the version is, and otherwise wraps back into the same version |
| ValueObjects.IsSameAsIsStringEquality | app/domain/model/value_objects.py:39-42 | `is_same_as` is false against `None` and true exactly for an equal wrapped string; it is reflexive and symmetric |
| ServiceModel.FromPrimitives | app/domain/model/service.py:21-45 | fails exactly for an environment string outside the five values; otherwise copies id, name, url and enabled, makes a missing environment `unknown`, and wraps any present expected version, "" included |
| ServiceModel.FromPrimitivesDefaults | app/domain/model/service.py:28-35 | without `enabled` and environment the service is enabled and `unknown` |
| HealthEvaluationService.StatusFor | app/domain/services/health_evaluation_service.py:33-39 | the status rule never yields UNKNOWN |
| HealthEvaluationService.Evaluate | app/domain/services/health_evaluation_service.py:30-63 | id, timestamp, latency and error pass through; the status is the status rule; a version is present exactly when one was reported; a verdict exists exactly when both versions do, and is true exactly when they are equal |
| HealthEvaluationService.StatusIsSuccessfulClass | app/domain/services/health_evaluation_service.py:33-39 | for every input the status is UP or DOWN, and UP exactly when a code of the 2xx Successful class (section 15.3 of RFC 9110) was received |
| HealthEvaluationService.ClassTwoIsTwoHundreds | app/domain/services/health_evaluation_service.py:36 | a code is in the Successful class exactly when 200 <= code < 300 |
| HealthEvaluationService.StatusBoundaries | app/domain/services/health_evaluation_service.py:34-39 | no code, 199 and 300 give DOWN; 200 and 299 give UP |
| HealthEvaluationService.VersionVerdictTriState | app/domain/services/health_evaluation_service.py:41-53 | no reported version gives no verdict; the verdict is `false` exactly on a real mismatch of two present versions |
| ServicePinger.ExtractVersion | app/infrastructure/http/service_pinger.py:53-73 | a "version" key of a JSON-object body wins, as Python's `str()` of its value; otherwise a non-empty header; otherwise none |
| ServicePinger.BodyVersionWinsOverHeader | app/infrastructure/http/service_pinger.py:61-64 | the body's key wins over any header, and JSON null reads as "None" |
| ServicePinger.UnusableBodyFallsThrough | app/infrastructure/http/service_pinger.py:61-73 | a non-JSON body or a JSON non-object behaves like an object without the key; an empty header gives none |
| ServicePinger.Ping | app/infrastructure/http/service_pinger.py:28-51 | never fails; the status code is present exactly when the error is absent; a response gives its code and extracted version; an exception gives no code, no version and its text |
| SqliteHealthCheckRepository.ToRow | app/infrastructure/db/sqlite_health_check_repository.py:19-28 | the stored status parses back to the result's, id and timestamp are copied, and the version column is present exactly when the version is |
| SqliteHealthCheckRepository.ToDomainAsWritten | app/infrastructure/db/sqlite_health_check_repository.py:82-92 | as written, a row reloads with a version exactly when its version column is a non-empty string |
| SqliteHealthCheckRepository.SaveLoadAsWritten | app/infrastructure/db/sqlite_health_check_repository.py:19-92 | as written, save then load is the identity except that `Version("")` reloads as no version |
| SqliteHealthCheckRepository.AsWrittenLosesVersionKeepsVerdict | app/infrastructure/db/sqlite_health_check_repository.py:89-90 | a concrete result with version "" and verdict `false` reloads with no version but the verdict still `false` |
| SqliteHealthCheckRepository.ToDomain | app/infrastructure/db/sqlite_health_check_repository.py:82-92 | corrected conversion: converting back to a row gives the same row |
| SqliteHealthCheckRepository.SaveLoadRoundTrip | app/infrastructure/db/sqlite_health_check_repository.py:19-92 | corrected: every result survives save then load unchanged |
| SqliteHealthCheckRepository.AsWrittenReload | app/infrastructure/db/sqlite_health_check_repository.py:82-92 | what the line-89 conversion changes: the version is dropped exactly when it is "", every other field is kept |
| SqliteHealthCheckRepository.AsWrittenIsReloadOfCorrected | app/infrastructure/db/sqlite_health_check_repository.py:82-92 | the as-written conversion of every row is the corrected conversion with an empty version dropped |
| SqliteHealthCheckRepository.ToDomainAll | app/infrastructure/db/sqlite_health_check_repository.py:80 | the list comprehension converts every row, in order |
| SqliteHealthCheckRepository.RowsOf | app/infrastructure/db/sqlite_health_check_repository.py:75 | the filter keeps exactly the rows of the service, each as many times as the table holds it |
| SqliteHealthCheckRepository.InsertNewestFirst | app/infrastructure/db/sqlite_health_check_repository.py:76 | insertion into the ordered rows adds exactly that row |
| SqliteHealthCheckRepository.InsertKeepsNewestFirst | app/infrastructure/db/sqlite_health_check_repository.py:76 | insertion keeps the rows ordered newest first |
| SqliteHealthCheckRepository.NewestFirst | app/infrastructure/db/sqlite_health_check_repository.py:76 | `ORDER BY timestamp DESC` is a permutation of the rows and is newest first |
| SqliteHealthCheckRepository.PrefixHoldsNewest | app/infrastructure/db/sqlite_health_check_repository.py:76-77 | a `LIMIT` prefix of newest-first rows is no older than any row it leaves out |
| SqliteHealthCheckRepository.RecentRows | app/infrastructure/db/sqlite_health_check_repository.py:73-79 | the query returns min(limit, count) rows of the table, all of the service, newest first |
| SqliteHealthCheckRepository.RecentRowsAreNewest | app/infrastructure/db/sqlite_health_check_repository.py:73-79 | the returned rows are a sub-multiset of the service's rows, and none left out is newer than any returned |
| SqliteHealthCheckRepository.WindowOfService | app/infrastructure/db/sqlite_health_check_repository.py:73-79 | any prefix of an ordering of the service's rows has the properties of the query result |
| SqliteHealthCheckRepository.FindRecentByServiceId | app/infrastructure/db/sqlite_health_check_repository.py:72-80 | `find_recent_by_service_id` (limit 20 by default) returns min(limit, count) results of the service, newest first, each the conversion of the query's row at the same position |
| SqliteHealthCheckRepository.FindRecentAsWritten | app/infrastructure/db/sqlite_health_check_repository.py:72-92 | as written, the same results with an empty version dropped from each |
| SqliteHealthCheckRepository.FindRecentIsNewest | app/infrastructure/db/sqlite_health_check_repository.py:72-80 | no row of the service left out is newer than any result returned |
| SqliteHealthCheckRepository.HeadOfNewestWindow | app/infrastructure/db/sqlite_health_check_repository.py:36-37 | the first row of a newest-first window that drops only older rows is the newest of all |
| SqliteHealthCheckRepository.WindowHeadIsNewest | app/infrastructure/db/sqlite_health_check_repository.py:33-38 | for a service with rows, the first row of the ordered query is at least as new as each of its rows |
| SqliteHealthCheckRepository.FindLatestByServiceId | app/infrastructure/db/sqlite_health_check_repository.py:32-41 | `find_latest_by_service_id` returns none exactly when the service has no row |
| SqliteHealthCheckRepository.FindLatestAsWritten | app/infrastructure/db/sqlite_health_check_repository.py:32-41 | as written, a result exists exactly when the service has a row, and it is the corrected latest result with an empty version dropped |
| SqliteHealthCheckRepository.LatestIsNewestRow | app/infrastructure/db/sqlite_health_check_repository.py:32-41 | the latest result is the conversion of one of the service's rows, the same row the as-written query converts, and no row of the service is newer |
| SqliteHealthCheckRepository.RecentHeadIsLatest | app/infrastructure/db/sqlite_health_check_repository.py:32-41 | the first result of `find_recent` is the result of `find_latest` |
| SqliteHealthCheckRepository.DistinctServiceIds | app/infrastructure/db/sqlite_health_check_repository.py:52-57 | `DISTINCT service_id` lists exactly the ids that have a row |
| SqliteHealthCheckRepository.DistinctServiceIdsHasNoRepeats | app/infrastructure/db/sqlite_health_check_repository.py:52-57 | each id appears once in that list |
| SqliteHealthCheckRepository.RecordLatest | app/infrastructure/db/sqlite_health_check_repository.py:59-68 | one loop step stores the next id's latest result and keeps those already stored |
| SqliteHealthCheckRepository.LatestMapComplete | app/infrastructure/db/sqlite_health_check_repository.py:43-70 | after the loop, the map has an entry exactly for each service with a latest result, holding that result |
| SqliteHealthCheckRepository.HealthCheckRepository.constructor | app/infrastructure/db/sqlite_health_check_repository.py:16-17 | a new history is empty |
| SqliteHealthCheckRepository.HealthCheckRepository.Save | app/infrastructure/db/sqlite_health_check_repository.py:19-30 | appends exactly the result's row and changes no existing row; a failed commit stores nothing and is raised |
| SqliteHealthCheckRepository.HealthCheckRepository.FindLatestForAllServices | app/infrastructure/db/sqlite_health_check_repository.py:43-70 | the map has one entry per service with a row, each that service's latest result |
| SqliteServiceRepository.ToDomain | app/infrastructure/db/sqlite_service_repository.py:66-75 | the row's id and flag are kept; a null environment reads as `unknown`; otherwise converting back gives the same row |
| SqliteServiceRepository.ToRow | app/infrastructure/db/sqlite_service_repository.py:47-54 | the stored row is valid and rebuilds, through `from_primitives`, exactly the saved service |
| SqliteServiceRepository.SaveLoadRoundTrip | app/infrastructure/db/sqlite_service_repository.py:47-75 | every service, an empty expected version included, survives save then load |
| SqliteServiceRepository.NullEnvironmentNormalizes | app/infrastructure/db/sqlite_service_repository.py:66-75 | a row with a null environment reloads and saves back as "unknown" |
| SqliteServiceRepository.IndexOfId | app/infrastructure/db/sqlite_service_repository.py:33-37 | the first row with the id, or none exactly when no row has it |
| SqliteServiceRepository.FindById | app/infrastructure/db/sqlite_service_repository.py:26-30 | `find_by_id` returns none exactly when no row has the id, else a service with that id |
| SqliteServiceRepository.FindByIdAt | app/infrastructure/db/sqlite_service_repository.py:26-30 | with unique ids, `find_by_id` of a row's id is that row's service |
| SqliteServiceRepository.Upsert | app/infrastructure/db/sqlite_service_repository.py:32-56 | an existing id is overwritten in place (same length), a new id is appended, every other row is unchanged |
| SqliteServiceRepository.UpsertKeepsValid | app/infrastructure/db/sqlite_service_repository.py:33-55 | ids stay unique and rows convertible after a save |
| SqliteServiceRepository.FindAfterSave | app/infrastructure/db/sqlite_service_repository.py:32-56 | after `save(s)`, `find_by_id(s.id)` is exactly `s` |
| SqliteServiceRepository.SaveLeavesOthers | app/infrastructure/db/sqlite_service_repository.py:33-55 | a save leaves what every other id finds unchanged |
| SqliteServiceRepository.UpsertAllKeepsValid | app/infrastructure/db/sqlite_service_repository.py:58-60 | ids stay unique after any sequence of saves |
| SqliteServiceRepository.LastWithId | app/infrastructure/db/sqlite_service_repository.py:58-60 | the last service of a batch with the id, none exactly when there is none |
| SqliteServiceRepository.SaveManyLastWins | app/infrastructure/db/sqlite_service_repository.py:58-60 | after `save_or_update_many`, an id finds the last batch entry with that id, or what it found before |
| SqliteServiceRepository.ListAll | app/infrastructure/db/sqlite_service_repository.py:62-64 | one service per row, in row order, with the row's id and flag |
| SqliteServiceRepository.ListAllAgreesWithFindById | app/infrastructure/db/sqlite_service_repository.py:62-64 | each listed service is what `find_by_id` returns for its id |
| SqliteServiceRepository.EnabledRow | app/infrastructure/db/sqlite_service_repository.py:21 | the filter keeps a row exactly when it is enabled |
| SqliteServiceRepository.FindAllEnabled | app/infrastructure/db/sqlite_service_repository.py:18-24 | in table order, the `k`-th service is that of the `k`-th enabled row, and every enabled row gives exactly one |
| SqliteServiceRepository.EnabledServicesAreDistinct | app/infrastructure/db/sqlite_service_repository.py:18-24 | with `id` the primary key, no service id repeats in the enabled list |
| SqliteServiceRepository.EnabledIsFilteredListAll | app/infrastructure/db/sqlite_service_repository.py:18-24 | the enabled services are exactly the listed services that are enabled |
| SqliteServiceRepository.ServiceRepository.constructor | app/infrastructure/db/sqlite_service_repository.py:15-16 | a new registry is empty |
| SqliteServiceRepository.ServiceRepository.Save | app/infrastructure/db/sqlite_service_repository.py:32-56 | the table becomes the upsert of the service and stays valid |
| SqliteServiceRepository.ServiceRepository.SaveOrUpdateMany | app/infrastructure/db/sqlite_service_repository.py:58-60 | the loop of saves leaves the table equal to saving the services one after another |
| AlertNotifier.NewNotifier | app/infrastructure/alerting/alert_notifier.py:23-24 | the URL is the argument when truthy, else the configured setting |
| AlertNotifier.ServiceDownRepeatedly | app/infrastructure/alerting/alert_notifier.py:26-64 | the log names the service, threshold and newest check's time; a payload exists exactly with a truthy URL, is posted there, and carries the service's fields, the threshold and the newest check's status and time |
| AlertNotifier.WebhookOnlyWhenConfigured | app/infrastructure/alerting/alert_notifier.py:23-44 | alerts post exactly when the argument or the setting is truthy, and a truthy argument is the target |
| HealthCheckScheduler.WindowAllDown | app/infrastructure/scheduling/health_check_scheduler.py:74 | the fetched checks are all DOWN exactly when the stored rows of the window all have the status "DOWN" |
| HealthCheckScheduler.ServiceAlert | app/infrastructure/scheduling/health_check_scheduler.py:68-76 | the service is alerted on exactly when it has at least `threshold` checks and the `find_recent` window of `threshold` rows is all DOWN; the call carries the service, the threshold and that window |
| HealthCheckScheduler.TooFewChecksNoAlert | app/infrastructure/scheduling/health_check_scheduler.py:68-70 | fewer than `threshold` checks never alert |
| HealthCheckScheduler.WindowRowHasFewNewer | app/infrastructure/scheduling/health_check_scheduler.py:68-76 | fewer than `threshold` checks of the service are strictly newer than any row of its window |
| HealthCheckScheduler.StreakFillsWindow | app/infrastructure/scheduling/health_check_scheduler.py:68-76 | when every non-DOWN check has at least `threshold` newer checks, the window is all DOWN |
| HealthCheckScheduler.DownStreakAlerts | app/infrastructure/scheduling/health_check_scheduler.py:68-76 | a service with at least `threshold` checks, whose every non-DOWN check has `threshold` newer ones, is alerted on, even after earlier UP checks |
| HealthCheckScheduler.LatestNotDownNoAlert | app/infrastructure/scheduling/health_check_scheduler.py:74 | a newest check that is UP or UNKNOWN prevents the alert |
| HealthCheckScheduler.AlertLeadsWithLatest | app/infrastructure/scheduling/health_check_scheduler.py:72-76 | the window passed to the notifier starts with the service's latest check |
| HealthCheckScheduler.AlertCalls | app/infrastructure/scheduling/health_check_scheduler.py:65-76 | every call is the alerting decision of one of the services, with `threshold` checks; every alerting service's call is among them; there are no more calls than services |
| Selection.DecidedPositions | app/infrastructure/scheduling/health_check_scheduler.py:67 | the positions of a list whose entry is kept, strictly increasing, all of them |
| Selection.Decisions | app/infrastructure/scheduling/health_check_scheduler.py:67-76 | one value per kept position, in that order |
| HealthCheckScheduler.AlertCallsInServiceOrder | app/infrastructure/scheduling/health_check_scheduler.py:65-76 | the calls are, in service order, exactly one per service whose decision is to alert |
| HealthCheckScheduler.OneAlertPerService | app/infrastructure/scheduling/health_check_scheduler.py:65-76 | over the registry's enabled services, one evaluation alerts on each service id at most once |
| HealthCheckScheduler.AlertCallsStep | app/infrastructure/scheduling/health_check_scheduler.py:67-76 | visiting the next service appends its call, if any, in service order |
| HealthCheckScheduler.AlertsOf | app/infrastructure/scheduling/health_check_scheduler.py:75-76 | one notifier alert per call |
| HealthCheckScheduler.AlertsOfAppend | app/infrastructure/scheduling/health_check_scheduler.py:75-76 | one more call adds exactly its alert at the end |
| HealthCheckScheduler.EvaluateAlerts | app/infrastructure/scheduling/health_check_scheduler.py:55-76 | the loop issues exactly the notifier calls of `AlertCalls`, in service order; it changes no state, so evaluating again on the same history alerts again |
| HealthCheckScheduler.CycleRowsValid | app/infrastructure/scheduling/health_check_scheduler.py:107 | every row a cycle adds converts back |
| HealthCheckScheduler.IterationOf | app/infrastructure/scheduling/health_check_scheduler.py:106-118 | the history grows by exactly the cycle's rows; the report carries the cycle's outcome; a completed cycle raises the alerts of `AlertCalls` on the grown history, a failed one none |
| HealthCheckScheduler.LoopIteration | app/infrastructure/scheduling/health_check_scheduler.py:106-118 | the new history and the report are those of `IterationOf`: the cycle runs, alerts are evaluated only if it completed, and a failed cycle is caught |
| HealthCheckScheduler.LoopOf | app/infrastructure/scheduling/health_check_scheduler.py:87-122 | after `n` iterations, there is one report each and the history has only grown; failed iterations raise no alert |
| HealthCheckScheduler.LoopOfIteration | app/infrastructure/scheduling/health_check_scheduler.py:87-122 | iteration `i` runs on the history the first `i` iterations left, and the loop's `i`-th report is that iteration's report |
| HealthCheckScheduler.HealthCheckLoop | app/infrastructure/scheduling/health_check_scheduler.py:78-122 | every iteration runs whatever the previous one raised, and the state equals `LoopOf` |
| RunHealthCheckForService.CheckOf | app/application/use_cases/run_health_check_for_service.py:30-44 | the check is `evaluate` of the ping data copied field by field; UP exactly for a 2xx response; an exception gives DOWN with its text |
| RunHealthCheckForService.Execute | app/application/use_cases/run_health_check_for_service.py:30-46 | exactly one row, that of the evaluated check, is appended; a failed commit appends nothing and is raised |
| RunHealthCheckForService.SavedCheckIsLatest | app/application/use_cases/run_health_check_for_service.py:40-46 | a check newer than the service's history becomes its latest result; as written, that check with an empty version dropped |
| RunHealthCheckCycle.CycleStep | app/application/use_cases/run_health_check_cycle.py:24-25 | checking the next service appends its row or aborts there |
| RunHealthCheckCycle.AbortIsFinal | app/application/use_cases/run_health_check_cycle.py:24-25 | once aborted, later services add nothing |
| RunHealthCheckCycle.CyclePrefixLength | app/application/use_cases/run_health_check_cycle.py:24-25 | a completed prefix saved one row per service; an aborted one saved the rows before the failing service, whose commit failed |
| RunHealthCheckCycle.CommittedRowAt | app/application/use_cases/run_health_check_cycle.py:24-25 | row `i` of the committed rows is service `i`'s row |
| RunHealthCheckCycle.CyclePrefixRows | app/application/use_cases/run_health_check_cycle.py:24-25 | the saved rows are those of the first services, in list order, each committed |
| RunHealthCheckCycle.CompletesIffNoFailure | app/application/use_cases/run_health_check_cycle.py:24-25 | a cycle completes exactly when no commit fails |
| RunHealthCheckCycle.AbortSkipsTheRest | app/application/use_cases/run_health_check_cycle.py:24-25 | a failing service ends the cycle: the services before it were saved, those after it are not checked |
| RunHealthCheckCycle.CompletedCycleRows | app/application/use_cases/run_health_check_cycle.py:22-25 | a successful cycle saves exactly one row per enabled service, in list order |
| RunHealthCheckCycle.CompletedCycleChecksEachEnabledOnce | app/application/use_cases/run_health_check_cycle.py:22-25 | a completed cycle saves one row per enabled service, in table order, with no service id repeated |
| RunHealthCheckCycle.CycleChecksOnlyEnabled | app/application/use_cases/run_health_check_cycle.py:22-25 | every saved row belongs to an enabled service of the snapshot |
| RunHealthCheckCycle.CommitStep | app/application/use_cases/run_health_check_cycle.py:24-25 | a successful commit extends the history by the next prefix's row |
| RunHealthCheckCycle.FailStep | app/application/use_cases/run_health_check_cycle.py:24-25 | a failed commit fixes the whole cycle's outcome at that service |
| RunHealthCheckCycle.CheckEach | app/application/use_cases/run_health_check_cycle.py:24-25 | the loop appends exactly the cycle's rows and returns its outcome |
| RunHealthCheckCycle.Execute | app/application/use_cases/run_health_check_cycle.py:21-25 | the enabled services are read once and checked in order; the history grows by exactly the cycle's rows |
| GetLatestHealthStatus.LatestSummaries | app/application/use_cases/get_latest_health_status.py:16-32 | no more summaries than services |
| GetLatestHealthStatus.SummaryIn | app/application/use_cases/get_latest_health_status.py:23-29 | the loop body yields a summary for a service exactly when it has a stored check |
| GetLatestHealthStatus.LatestSummariesInServiceOrder | app/application/use_cases/get_latest_health_status.py:22-30 | the summaries are, in the order of the services, exactly one per service with a latest check |
| GetLatestHealthStatus.SummaryAt | app/application/use_cases/get_latest_health_status.py:22-30 | the `k`-th summary is built from the `k`-th service with a latest check and that check |
| GetLatestHealthStatus.CheckedServicesAreSummarized | app/application/use_cases/get_latest_health_status.py:22-30 | each enabled service with a latest check gets the summary of that check |
| GetLatestHealthStatus.SummariesComeFromCheckedServices | app/application/use_cases/get_latest_health_status.py:22-30 | each summary is built from an enabled service and its latest check; services never checked are skipped |
| GetLatestHealthStatus.OneSummaryPerCheckedService | app/application/use_cases/get_latest_health_status.py:22-30 | every service is summarized exactly when every service has a check |
| GetLatestHealthStatus.SummariesFromLatestMap | app/application/use_cases/get_latest_health_status.py:18-30 | building from the map of latest checks gives the latest summaries |
| GetLatestHealthStatus.SummarizeFound | app/application/use_cases/get_latest_health_status.py:20-30 | the loop yields, in service order, the summary of each service found in the map |
| GetLatestHealthStatus.Execute | app/application/use_cases/get_latest_health_status.py:16-32 | the loop returns the latest summaries of the enabled services, in `find_all_enabled` order |
| GetHealthHistoryForService.Execute | app/application/use_cases/get_health_history_for_service.py:29-36 | an unknown id, and only that, raises `ServiceNotFoundError`; otherwise the details of the service with its `find_recent` history (limit 20 by default) |
| GetHealthHistoryForService.HistoryLeadsWithLatest | app/application/use_cases/get_health_history_for_service.py:35-36 | the history items are the recent checks in order, the first being the latest |
| ServiceSetEnabled.SetEnabledRows | app/application/use_cases/service_set_enabled.py:19-20 | the registry stays valid; an unknown id changes nothing; a known id keeps the number of rows |
| ServiceSetEnabled.SetEnabledChangesOnlyTheFlag | app/application/use_cases/service_set_enabled.py:19-20 | only the flag of the service changes; every other id finds the same service |
| ServiceSetEnabled.UpsertStoredIsIdentity | app/infrastructure/db/sqlite_service_repository.py:38-45 | saving a service stored exactly as it is changes nothing |
| ServiceSetEnabled.SetEnabledIdempotent | app/application/use_cases/service_set_enabled.py:19-20 | setting the same flag twice equals setting it once |
| ServiceSetEnabled.Execute | app/application/use_cases/service_set_enabled.py:13-21 | an unknown id fails and leaves the registry alone; otherwise the service is saved with the new flag and the DTO reflects it |
| ServiceCreate.Execute | app/application/use_cases/service_create.py:12-22 | an invalid environment fails before any save; otherwise the built service is upserted (overwriting the same id) and returned as a DTO |
| ServiceCreate.CreatedDtoMirrorsRequest | app/application/use_cases/service_create.py:12-22 | the DTO carries back the request's fields, the environment defaulted |
| InitializeServicesFromConfig.Execute | app/application/use_cases/initialize_services_from_config.py:22-28 | an empty list writes nothing; otherwise every loaded service is saved in order |
| InitializeServicesFromConfig.SeedingLastEntryWins | app/application/use_cases/initialize_services_from_config.py:28 | the last loaded entry with an id wins, and services not loaded are untouched |
| ServiceListServices.Execute | app/application/use_cases/service_list_services.py:13-15 | one DTO per stored service, disabled ones included, in order; each rebuilds, through `from_primitives`, the stored service |
| ServiceDtoMapper.FromDomain | app/application/dto/service_dto.py:16-25 | the DTO's environment is a valid value, and `from_primitives` of its fields gives the service back |
| ServiceDtoMapper.FromDomainInjective | app/application/dto/service_dto.py:16-25 | distinct services give distinct DTOs |
| ServiceDtoMapper.CreateRequestDefaults | app/application/dto/service_dto.py:28-34 | a request with only id, name and url builds an enabled `unknown` service with no expected version |
| ServiceHealthSummaryDtoMapper.FromDomain | app/application/dto/service_health_summary_dto.py:21-32 | id and name from the service; environment and status parse back; time, latency and verdict pass through; version absent exactly when absent |
| ServiceHealthSummaryDtoMapper.SummaryKeepsCheck | app/application/dto/service_health_summary_dto.py:21-32 | the summary determines the check, all but its error message |
| ServiceDetailsDtoMapper.ItemFromDomain | app/application/dto/service_details_dto.py:19-28 | an item determines its check: status parses back, time kept, version absent exactly when absent |
| ServiceDetailsDtoMapper.DetailsFromDomain | app/application/dto/service_details_dto.py:38-50 | the service's fields are copied; the items are the checks' items, same length and order |
| ServiceDetailsDtoMapper.DetailsKeepHistory | app/application/dto/service_details_dto.py:38-50 | for a service's own checks, the details give back every check in order |

## Left out

- The async runtime: `asyncio.sleep`, `create_task` and the interval. A loop iteration is the ordered step "cycle, then alerts, failure caught".
- The forever `while True` loop is modelled as `iterations` iterations. The registry is read anew by each cycle, but no other writer changes it during the loop.
- The first `health_check_loop` (health_check_scheduler.py lines 20-53) is shadowed by the second and is not modelled.
- Real HTTP. The response or exception of the GET, and the elapsed time, are inputs. `time.perf_counter` float arithmetic is replaced by an elapsed-milliseconds input.
- JSON parsing: the body is "object with an optional version value", "other JSON" or "not JSON". `str()` of numbers, arrays and objects is carried as text with the value.
- `datetime.utcnow()` and `isoformat()`: timestamps are integers supplied by the caller.
- Logging is not modelled. The alert's log line is kept as its structured fields (`AlertMessage`), not as the formatted f-string.
- Webhook delivery is not modelled: the request is part of the result, and whether it succeeds changes nothing, since failures are caught.
- A database commit failure is modelled only for saving a check, since that is what ends a cycle. Commit failures of the registry are not modelled.
- SQLAlchemy sessions, the engine and the ORM schema are not modelled. The only schema fact used is that a service id is the primary key.
- Ties between equal timestamps are left unordered by SQL. The model puts the later-inserted row first.
- SqliteServiceRepository.FindAllEnabled: a query without `ORDER BY` has no order SQL guarantees; the model takes table order, which a plain SQLite table scan gives, and `ListAll` does the same.
- SqliteHealthCheckRepository.ToDomainAll: converts with the corrected `ToDomain`, so a stored "" comes back as `Version("")` where line 89 gives no version; `AsWrittenIsReloadOfCorrected` states the exact difference.
- SqliteHealthCheckRepository.FindRecentByServiceId: uses the corrected conversion, so a stored "" keeps its version where line 89 drops it; `FindRecentAsWritten` is the as-written query.
- SqliteHealthCheckRepository.FindLatestByServiceId: uses the corrected conversion, so a stored "" keeps its version where line 89 drops it; `FindLatestAsWritten` is the as-written query.
- SqliteHealthCheckRepository.HealthCheckRepository.FindLatestForAllServices: each map value is the corrected latest result, which differs from line 89 only for a stored "" version (`FindLatestAsWritten`).
- GetLatestHealthStatus.LatestSummaries: built on the corrected latest results, so a summary shows version "" where the source, through line 89, shows none.
- GetLatestHealthStatus.Execute: as `LatestSummaries`, a stored "" version appears as "" instead of none.
- GetHealthHistoryForService.Execute: the history items use the corrected conversion, so a stored "" version appears as "" instead of none.
- HealthCheckScheduler.ServiceAlert: the window's checks are the corrected conversions; the decision depends only on the status column, so it is the same as written, but the checks passed to the notifier keep a "" version.
- HealthCheckScheduler.ServiceAlert: requires threshold >= 1. With threshold <= 0 the source would call the notifier with an empty window, which then fails on `recent_checks[0]`.
- SqliteHealthCheckRepository.FindRecentByServiceId: the limit is a natural number. SQL `LIMIT` with a negative value is not modelled.
- ServiceHealthSummaryDtoMapper.SummaryKeepsCheck: the summary DTO has no error-message field, so the check is recovered without it.
- The configuration loader (`service_config_loader.py`) is not part of this model: its output is the input sequence of `InitializeServicesFromConfig.Execute`.
- `service_get_details.py` is not part of this model. Its `ServiceNotFoundError` is modelled once, in `GetHealthHistoryForService`, and used by set-enabled.
- The FastAPI routers, the UI and the settings object are not modelled. The threshold and the webhook setting are parameters.

## Findings

| source | as written | input that shows it | evidently intended | confidence | as-written member | corrected member |
|---|---|---|---|---|---|---|
| app/infrastructure/db/sqlite_health_check_repository.py:89 | `Version(row.version) if row.version else None` treats a stored empty version string as no version, while `versionMatchesExpected` is kept | the result of `evaluate` for a service expecting "1.0" that reports version "": saved with version "" and verdict `false`, reloaded with no version but verdict still `false`, a combination `evaluate` never produces | reload the version whenever the column is not null (`is not None`), as `Service.from_primitives` does for the expected version | not executed | SqliteHealthCheckRepository.AsWrittenLosesVersionKeepsVerdict | SqliteHealthCheckRepository.SaveLoadRoundTrip |
