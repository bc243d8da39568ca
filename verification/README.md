# A verified model of the `updater` scheduler

The `updater` package keeps a graph of updatable items fresh. Each item has three pieces of data:

- an optional update interval;
- an ordered list of direct dependencies;
- an optional last-update time.

One update cycle captures a start time and flattens the dependencies of the root item so that every dependency comes before its dependents. It then visits that list followed by the root, and updates every item that is *due*. An item is due in three cases:

- it was never updated;
- its interval has elapsed by the start time;
- some transitive dependency was updated after it.

Three services run such cycles in a loop:

- a thread-based service, which also has an inbox of forced updates and a wake flag;
- an asynchronous service;
- a "simple" asynchronous service with inline copies of the helpers.

This project models that core in Dafny as pure functions over immutable data, and proves what the cycle and the services guarantee.

- Items are `nat` ids in a map `id -> (interval, deps)`. A rank that strictly decreases along dependencies gives acyclicity and the termination measure of the flattening (`DependencyGraph`).
- Last-update times of all items form a map `Stamps`; an absent key is Python's `None`. Times and intervals are integers. The current time is a counter: reading "now" yields it, and every stamp advances it, so the stamps of one cycle strictly increase.
- The two comparisons of the source are a parameter: the thread-based service uses strict `>`, the others `>=` (`Staleness.Comparison`). So are the two next-update-time rules of the two item classes (`Staleness.NextRule`):
  - an `UpdateKeychain` answers "none" without a last update;
  - a stand-alone item with an interval fails with a `TypeError` (`None + interval`).
- Each service works with one item class, so each fixes its parameters:
  - the thread-based service calls `update()` on the `AbstractSyncUpdatableItem` it imports from `updater.updatable_item`. The model takes this to be the keychain-based class of `src/updater/updatable_item.py:26-34`, whose helpers (`src/updater/helpers.py`) the service calls. It uses the strict comparison and the keychain rule;
  - the asynchronous service declares its item as the `AbstractAsyncUpdatableItem` of `src/updater/updatable_item/abstract_async_updatable_item.py`, which cannot stamp (see "Left out"). The model pairs it instead with the keychain-based `AbstractAsyncUpdatableItem` of `src/updater/updatable_item.py:15-23`. It uses the non-strict comparison and the keychain rule;
  - the simple service calls `update_async()`, which only the stand-alone items have: non-strict comparison, item rule.

  `CooperativeService` takes the rule as a parameter; its lemmas hold for both rules, and only those two pairings occur in the source.
- Python exceptions are `Result`/`Option` values with an `Error` (`Outcomes`).
- An item's own `_run_update` is opaque. The set `fails` names the items whose update raises.
- A cycle keeps last-update times in `Stamps` rather than in item records. `Cycle.VisitRunsItemUpdate` ties the two together: updating an item in a visit has the same outcome and leaves the same last-update time as the item classes' own `update` (`KeychainItem.Update`) and `update_async` (`Items.UpdateAsync`).
- The services are state machines: `Iterate` is one pass of a service's loop, taking a `World` (stamps and clock) to the next one. A pass of a coroutine-based service also takes the time of the next stop request, if there is one; a request made before the pass's wait is over takes effect in that pass.

Modules, one per part of the source:

| module | file | models |
|---|---|---|
| `Outcomes` | outcomes.dfy | `None`, the exceptions raised, `min`/`max` |
| `Memento` | memento.dfy | `InMemoryUpdateDatetimeMemento` |
| `UpdateKeychain` | keychain.dfy | `UpdateKeychain` |
| `KeychainItem` | keychain_item.dfy | the keychain-based updatable items (`updatable_item.py`) |
| `Items` | items.dfy | `SimpleUpdatableItem` and `UpdatableItem` |
| `DependencyGraph` | graph.dfy | `get_dependencies_list` and the update list |
| `Staleness` | staleness.dfy | the staleness and next-time helpers, parameterised by comparison and item class |
| `KeychainHelpers` | keychain_helpers.dfy | `src/updater/helpers.py` (strict, keychains) |
| `Cycle` | cycle.dfy | one full update cycle |
| `ServiceState` | run_state.dfy | running states and the world a service acts on |
| `SyncService` | sync_service.dfy | `SyncUpdaterService` |
| `CooperativeService` | coop_service.dfy | `AsyncUpdaterService` and `SimpleUpdaterService` |

The helper module of the coroutine-based services (`src/updater/updater_service/helpers.py`) is `Staleness` with the comparison `NonStrict`. The inline helpers of `simple_updater_service.py` (lines 90-195) are the same functions, line for line.

Main results:

- **Every dependency is stamped when its dependent is reached.** During a cycle, every transitive dependency of the item being visited already has a last-update time (`Cycle.DependenciesStampedWhenReached`). So the staleness comparison never meets `None`, and a cycle can only be aborted by an item's own update (`Cycle.CycleFailsOnlyByRun`).
- **A cycle updates exactly the predicted items.** Under a sane clock, a cycle updates exactly the items of a declarative prediction (`Cycle.WillUpdate`): those whose time has come, those already stale, and those whose dependency the cycle updates. It leaves every item of the list not due (`Cycle.CycleUpdatesExactlyPredicted`, `Cycle.CycleLeavesItemsCalm`).
- **Updates are ordered.** A dependency updated in a cycle is stamped strictly before its dependents. The ordering the test suites check is a consequence (`SyncService.FirstPassOrdersStrictly`, `CooperativeService.PassOrdersStrictly`). A forced update reaches every dependent of the forced item (`SyncService.ForcedUpdateReachesDependents`).
- **The flattening is a topological listing of exactly the transitive dependencies.** It excludes the item itself and repeats only direct dependencies. A concrete graph shows such a repetition.

## Model

| member | source | states |
|---|---|---|
| `Memento.NewMemento` | src/updater/update_datetime_memento/update_datetime_memento.py:46-47 | a fresh in-memory memento loads `None` |
| `Memento.Store` | src/updater/update_datetime_memento/update_datetime_memento.py:49-53 | after storing `t`, loading returns `t` |
| `Memento.StoreOverwrites` | src/updater/update_datetime_memento/update_datetime_memento.py:49-50 | a later store replaces an earlier one completely |
| `Memento.StoreLoadedIsIdentity` | src/updater/update_datetime_memento/update_datetime_memento.py:52-53 | loading has no effect on the memento: storing back what was loaded gives the same memento |
| `Memento.Load` | src/updater/update_datetime_memento/update_datetime_memento.py:46-53 | a memento loads nothing exactly when nothing was ever stored in it |
| `UpdateKeychain.NewKeychain` | src/updater/update_keychain.py:11-22 | the interval is kept; absent dependencies read back as the empty list and given ones as that list; without a memento the keychain has no last update, with one it reads that memento |
| `UpdateKeychain.KeychainNext` | src/updater/update_keychain.py:27-32 | a next update time exists iff both interval and last update exist, and it is their sum |
| `UpdateKeychain.GetDependencies` | src/updater/update_keychain.py:16-25 | the list read back, with the interval and the memento, rebuilds the same keychain through the constructor: a copy with nothing lost |
| `UpdateKeychain.GetLastUpdate` | src/updater/update_keychain.py:34-38 | no last update exactly while the memento is fresh; setting back the time read changes nothing |
| `UpdateKeychain.GetNextUpdate` | src/updater/update_keychain.py:27-32 | a next update time exists iff the keychain has both interval and last update, and it is their sum |
| `UpdateKeychain.SetLastUpdate` | src/updater/update_keychain.py:34-38 | getting after setting `t` returns `t` whatever was stored; interval and dependencies are unchanged |
| `UpdateKeychain.NextUpdateAfterStamp` | src/updater/update_keychain.py:27-38 | after a stamp at `t` the next update time is `t + interval`, or none without an interval |
| `KeychainItem.SetLastUpdateToNow` | src/updater/updatable_item.py:9-11 | the last update becomes the current time, through the keychain setter, and nothing else changes |
| `KeychainItem.Update` | src/updater/updatable_item.py:17-31 | the update succeeds iff the item's own run does; then the item is stamped with the current time, otherwise it is unchanged and the error is the run's |
| `Items.NewItem` | src/updater/updatable_item/simple_updatable_item.py:11-20 | a new item has no last update, the given interval, and the given dependencies or none |
| `Items.ItemNext` | src/updater/updatable_item/updatable_item.py:38-46 | no interval gives no next time; an interval without a last update fails; otherwise the next time is last update plus interval |
| `Items.GetDependencies` | src/updater/updatable_item/updatable_item.py:25-32 | setting back the list read changes nothing: the getter returns the whole list |
| `Items.GetNextUpdate` | src/updater/updatable_item/simple_updatable_item.py:32-40 | none without an interval; with one, a value iff a last update exists, namely their sum, and otherwise the missing-last-update failure |
| `Items.FreshItemNextUpdateFails` | src/updater/updatable_item/simple_updatable_item.py:32-40 | a new item with an interval cannot report its next update time; one without an interval reports none |
| `Items.SetDependencies` | src/updater/updatable_item/updatable_item.py:25-28 | the dependency list is replaced wholesale; interval and last update are unchanged |
| `Items.SetUpdateInterval` | src/updater/updatable_item/updatable_item.py:34-36 | the interval is replaced, `None` included; dependencies and last update are unchanged |
| `Items.UpdateAsync` | src/updater/updatable_item/simple_updatable_item.py:46-55 | success iff the run succeeds; on success only the last update changes, to the current time; on failure the item is unchanged |
| `DependencyGraph.NoSelfDependency` | src/updater/helpers.py:21-22 | on a ranked graph no item depends on itself, so the recursion of the flattening ends |
| `DependencyGraph.AppendNewShape` | src/updater/helpers.py:23-25 | the de-duplicating append keeps the list so far as a prefix, adds exactly the missing elements, and adds no element twice |
| `DependencyGraph.FlattenMembers` | src/updater/helpers.py:21-26 | an item is in the flattening of `x` iff it is a transitive dependency of `x` |
| `DependencyGraph.FlattenExcludesSelf` | src/updater/helpers.py:19-27 | the flattening lists only items of the graph, never `x` itself |
| `DependencyGraph.FlattenOrder` | src/updater/helpers.py:22-26 | every transitive dependency of a listed item occurs before it |
| `DependencyGraph.FlattenRepeatsAreDirect` | src/updater/helpers.py:23-26 | an element that occurs twice in the flattening is a direct dependency of `x`: only sub-dependencies are de-duplicated |
| `DependencyGraph.FlattenMayRepeatDirectDependency` | src/updater/helpers.py:24-26 | on the graph 0 -> [1, 2], 1 -> [2] the flattening of 0 is [2, 1, 2] |
| `DependencyGraph.UpdateList` | src/updater/updater_service/simple_updater_service.py:176-179 | the update list ends with the root, holds exactly the root and its transitive dependencies, and lists dependencies first |
| `Staleness.NextTime` | src/updater/update_keychain.py:27-32 | with a last update both item classes give last update plus interval, or none; without one the keychain gives none and a stand-alone item with an interval fails |
| `Staleness.TimeHasCome` | src/updater/updater_service/helpers.py:8-23 | due by time iff never updated, or an interval exists and last update plus interval is not after the start |
| `Staleness.ScanNewer` | src/updater/updater_service/helpers.py:44-53 | fails iff it meets a missing time before a newer entry, in particular when the first entry or the item's own time is missing; `True` iff some entry is newer and every entry before it is present and not newer; `False` iff every entry is present and none is newer |
| `Staleness.DepsUpdated` | src/updater/updater_service/helpers.py:41-53 | with the item and all its transitive dependencies stamped, answers whether some dependency is newer (`>=`); fails only when a time is missing; fails whenever the item is unstamped and has a dependency, or a dependency is unstamped and no stamped one is newer; `True` implies stale and `False` implies all stamped and not stale |
| `Staleness.IsDue` | src/updater/updater_service/helpers.py:56-68 | never-updated items and items whose time has come are due whatever their dependencies hold; with dependencies stamped, due iff time has come or stale; it fails only when the time has not come and a dependency is unstamped, and always then unless a stamped dependency is newer |
| `Staleness.FirstDependencyUnstampedFails` | src/updater/updater_service/helpers.py:44-49 | an item whose time has not come and whose first flattened dependency was never updated makes the check raise |
| `Staleness.TieDecidesComparison` | src/updater/updater_service/helpers.py:47-49 | a dependency stamped at the same time as the item makes it due under `>=`, while under `>` it is due only by its time |
| `Staleness.MinNextFrom` | src/updater/updater_service/helpers.py:76-81 | the minimum loop fails iff some item's next time fails, gives none iff no item has one, and otherwise gives a present next time that bounds all others |
| `Staleness.CalcNextUpdate` | src/updater/updater_service/helpers.py:71-83 | the next update time of an item and its dependencies is the least present next time among them and is one of them; none iff no item has one; it fails iff some item's next time fails |
| `KeychainHelpers.HaveUpdateTimeCome` | src/updater/helpers.py:7-16 | true for a never-updated keychain, else iff an interval exists and last update plus interval is not after the start |
| `KeychainHelpers.DependenciesList` | src/updater/helpers.py:19-27 | the list holds exactly the transitive dependencies, never the item, each after its own dependencies |
| `KeychainHelpers.HaveDependenciesBeenUpdated` | src/updater/helpers.py:30-37 | with all times present, true iff some transitive dependency is strictly newer than the item; fails only on a missing time; fails when the item is unstamped and has a dependency, or a dependency is unstamped and no stamped one is strictly newer; `True` has a strictly newer witness |
| `KeychainHelpers.IsNeedUpdateItem` | src/updater/helpers.py:40-46 | a never-updated keychain or one whose time has come needs an update without the dependency check; with dependencies stamped, needed iff time has come or a dependency is strictly newer; it raises only when the time has not come and a dependency is unstamped, and always then unless a stamped dependency is strictly newer |
| `KeychainHelpers.NewerDependencyMakesDue` | src/updater/helpers.py:33-35 | when all items are stamped, one strictly newer transitive dependency makes the item need an update |
| `KeychainHelpers.NewerDependencyPropagates` | tests/test_update_keychain.py:53-63 | re-stamping the shared dependency makes its direct and its transitive dependents need an update |
| `KeychainHelpers.ElapsedIntervalMakesDue` | tests/test_update_keychain.py:65-73 | an elapsed one-second interval makes the keychain need an update |
| `KeychainHelpers.UnstampedDependencyRaises` | src/updater/helpers.py:33-35 | a stamped keychain whose interval has not elapsed and whose dependency was never updated makes the check raise |
| `KeychainHelpers.KeychainNextNeverFails` | src/updater/helpers.py:53-54 | with keychains the next-time calculation never fails |
| `KeychainHelpers.CalcNextUpdateTime` | src/updater/helpers.py:49-59 | none iff no keychain of the update list has both interval and last update; otherwise the least last-update-plus-interval among them, attained by one of them |
| `Cycle.VisitUpdatesIffDue` | src/updater/updater_service/sync_updater_service.py:86-90 | about `Cycle.Visit`, one turn of the cycle's loop: a visit after an error changes nothing; otherwise it changes nothing or stamps the item now; it updates the item iff the check says due and the update succeeds, and errs iff the check or the update raised |
| `Cycle.VisitRunsItemUpdate` | src/updater/updatable_item.py:17-20 | updating a due item in a visit has the outcome of the keychain item's `update` and of the stand-alone item's `update_async`, and leaves the last-update time they leave |
| `Cycle.RunTo` | src/updater/updater_service/async_updater_service.py:84-88 | the loop over the first `k` items changes nothing after an error, advances the clock by at most one per item, and loses no stamp |
| `Cycle.FullCycle` | src/updater/updater_service/async_updater_service.py:78-90 | a cycle fails only by an item's own update raising, never by the due check; the clock bound and the kept stamps are stated on `Cycle.RunTo` |
| `Cycle.ReachedItemsStamped` | src/updater/updater_service/async_updater_service.py:84-88 | after the first `k` visits, either all `k` items are stamped or an item's own update raised |
| `Cycle.DependenciesStampedWhenReached` | src/updater/updater_service/sync_updater_service.py:84-90 | when the cycle reaches an item without error, every transitive dependency of it has a last-update time |
| `Cycle.CycleFailsOnlyByRun` | src/updater/updater_service/sync_updater_service.py:86-90 | a full cycle is aborted only by an item's own update, never by a missing time, and a cycle without error leaves every listed item stamped |
| `Cycle.RunKeepsPast` | src/updater/updater_service/simple_updater_service.py:81-86 | visiting items keeps every stamp before the current time, never moves time backwards and never loses a stamp |
| `Cycle.WillUpdateUpward` | src/updater/updater_service/helpers.py:44-49 | if a cycle updates a transitive dependency of an item, it updates the item too |
| `Cycle.CycleLeavesItemsCalm` | src/updater/updater_service/sync_updater_service.py:81-91 | after a cycle without error each listed item is stamped, its time has not come, no dependency is newer, and each dependency updated in the cycle is stamped strictly before it |
| `Cycle.CycleUpdatesExactlyPredicted` | src/updater/updater_service/async_updater_service.py:78-90 | a cycle without error stamps every listed item, updating it iff the prediction says so; it changes no stamp of an unlisted item and loses none |
| `SyncService.NewService` | src/updater/updater_service/sync_updater_service.py:19-25 | a new service is stopped with an empty inbox, the wake flag clear, and no runner launched |
| `SyncService.IsRunning` | src/updater/updater_service/sync_updater_service.py:45-47 | running and stopping services both count as running |
| `SyncService.StartService` | src/updater/updater_service/sync_updater_service.py:55-61 | only a stopped service starts, becoming running with one more launch; otherwise nothing changes |
| `SyncService.StopService` | src/updater/updater_service/sync_updater_service.py:49-53 | only a running service is stopped, becoming stopping with the wake flag set; otherwise nothing changes |
| `SyncService.Lifecycle` | src/updater/updater_service/sync_updater_service.py:45-73 | stopped, then running with one launch, a second start is a no-op, a stop makes it stopping and still reported running, and the next loop check ends it stopped |
| `SyncService.ForceItemUpdate` | src/updater/updater_service/sync_updater_service.py:28-35 | accepted iff the item is the root or one of its transitive dependencies; then the item is queued last and the wake flag is set; otherwise the error is the ownership error |
| `SyncService.ForceKeepsOrder` | src/updater/updater_service/sync_updater_service.py:34 | two accepted forced updates are queued in the order they were asked for |
| `SyncService.WakeFlagIsSticky` | src/updater/updater_service/sync_updater_service.py:99-104 | an accepted forced update sets the wake flag, a pass never clears it, and every pass after it sleeps zero |
| `SyncService.UpdateOneFromInbox` | src/updater/updater_service/sync_updater_service.py:93-97 | the oldest forced item is dequeued and updated whether or not it is due: stamped with the current time, or unchanged with the run's error |
| `SyncService.ForcedRunsItemUpdate` | src/updater/updatable_item.py:26-31 | serving the inbox has the outcome of the dequeued keychain item's own `update` and leaves the last-update time it leaves; no other item's stamp moves |
| `SyncService.SleepFor` | src/updater/updater_service/sync_updater_service.py:101-104 | never negative, zero when woken, and otherwise exactly the time to a future deadline or zero for a past one |
| `SyncService.Iterate` | src/updater/updater_service/sync_updater_service.py:63-73 | a service that is not running ends stopped with nothing done; the loop sleeps iff it is still running; an error always ends it; sleeps are never negative and zero once woken |
| `SyncService.AfterCycle` | src/updater/updater_service/sync_updater_service.py:70-73 | an aborted cycle ends the loop with its error; otherwise the runner sleeps towards the earliest next update time of the update list |
| `SyncService.SleepUntilNext` | src/updater/updater_service/sync_updater_service.py:99-102 | a missing deadline ends the loop with an error; otherwise the clock advances by the sleep |
| `SyncService.ForcedWorld` | src/updater/updater_service/sync_updater_service.py:68-69 | an empty inbox changes nothing; otherwise the forced item is stamped and time advances before the cycle's start time is read |
| `SyncService.PassCycle` | src/updater/updater_service/sync_updater_service.py:81-87 | only an item's own update can abort the cycle of a pass |
| `SyncService.ForcedStartSane` | src/updater/updater_service/sync_updater_service.py:68-83 | in a world whose stamps lie in the past, the start time the cycle reads comes after every stamp, the forced item's included, and before the cycle's first stamp |
| `SyncService.RunningPassShape` | src/updater/updater_service/sync_updater_service.py:66-71 | a running pass without error dequeued one forced item, ran its cycle without error, and kept the cycle's stamps |
| `SyncService.PassStamps` | src/updater/updater_service/sync_updater_service.py:68-70 | the stamps a running pass without error leaves are those of its cycle |
| `SyncService.LoopErrors` | src/updater/updater_service/sync_updater_service.py:63-73 | the loop ends by error only when an item's own update raised or no deadline exists, never on a missing last-update time |
| `SyncService.NoIntervalEndsLoop` | src/updater/updater_service/sync_updater_service.py:99-101 | without any update interval a running pass always ends the loop, with the missing-deadline error unless an update raised |
| `SyncService.ForcedFailureEndsLoop` | src/updater/updater_service/sync_updater_service.py:65-73 | a forced update that raises ends the loop before the cycle, the item dequeued and no stamp changed |
| `SyncService.NoIntervalNoDeadline` | src/updater/helpers.py:49-59 | without update intervals no item has a next update time |
| `SyncService.PassKeepsWorldSane` | src/updater/updater_service/sync_updater_service.py:81-91 | a pass keeps every stamp in the past, never moves time backwards and loses no stamp |
| `SyncService.PassOrdersDependencies` | src/updater/updater_service/sync_updater_service.py:86-90 | after a pass without error no dependency is later than its dependent, and a dependency updated in the pass is stamped strictly earlier |
| `SyncService.FirstPassOrdersStrictly` | tests/test_sync_updater_service.py:61-65 | a first pass over never-updated items updates them all, each dependency strictly before its dependents |
| `SyncService.ForcedUpdateReachesDependents` | tests/test_sync_updater_service_force_update.py:50-57 | the forced item is stamped in the pass; every dependent of it in the update list ends with a strictly later stamp; every other stamped item that the cycle is not predicted to update keeps its stamp, which is earlier than the forced item's |
| `SyncService.ForcedCycleReachesDependents` | src/updater/updater_service/sync_updater_service.py:68-70 | a cycle right after an item was stamped with the latest time leaves all its dependents stamped after it, and every other item not predicted to update with its earlier stamp |
| `SyncService.ForcedUpdateScenario` | tests/test_sync_updater_service_force_update.py:12-57 | in the test's graph, forcing item 1 after a first pass leaves 1 later than the independent 3 and earlier than its dependent 2, and 2 later than 3 |
| `CooperativeService.NewService` | src/updater/updater_service/async_updater_service.py:18-22 | a new service is stopped with no loop task |
| `CooperativeService.IsRunning` | src/updater/updater_service/async_updater_service.py:33-34 | running and stopping services both count as running |
| `CooperativeService.StartService` | src/updater/updater_service/async_updater_service.py:41-44 | starting sets running and launches one more loop task, whatever the state |
| `CooperativeService.StopService` | src/updater/updater_service/async_updater_service.py:36-39 | a service that is not stopped becomes stopping; a stopped one is unchanged |
| `CooperativeService.Lifecycle` | src/updater/updater_service/simple_updater_service.py:32-44 | a new service is not running; starting twice launches two tasks; a stop leaves it stopping and reported running; stopping twice is stopping once |
| `CooperativeService.PassCycle` | src/updater/updater_service/async_updater_service.py:78-88 | only an item's own update can abort the cycle of a pass |
| `CooperativeService.PassStartSane` | src/updater/updater_service/async_updater_service.py:78-81 | in a world whose stamps lie in the past, the start time a pass reads comes after every stamp and before the cycle's first stamp |
| `CooperativeService.WaitFor` | src/updater/updater_service/async_updater_service.py:92-113 | never negative; zero once stopping or when the deadline cannot be computed; otherwise the time to the deadline, or zero if it passed |
| `CooperativeService.Iterate` | src/updater/updater_service/async_updater_service.py:46-61 | the cycle always runs; an error ends the loop task without a sleep; otherwise it leaves its loop iff the service was not running or a stop request came before the wait was over, and then the service is stopped; a task that stays keeps the service as it was |
| `CooperativeService.LoopExit` | src/updater/updater_service/simple_updater_service.py:46-61 | leaving the loop iff not running, failed, or stopped before the wait was over; leaving means not running; a stopping service runs its cycle and then leaves without sleeping |
| `CooperativeService.StopDuringCycleEndsLoop` | src/updater/updater_service/async_updater_service.py:36-58 | a stop request made during the cycle of a running pass ends the loop after that pass, without a sleep and without another cycle |
| `CooperativeService.StopDuringSleep` | tests/test_stopping_long_sleeping_async_service.py:25-32 | a stop request during the sleep ends the sleep when it is made and ends the loop; one made after the sleep leaves the pass as without it |
| `CooperativeService.NextTimeDefinedAfterCycle` | src/updater/updater_service/simple_updater_service.py:161-174 | after a cycle without error the next-time calculation succeeds, for either item class |
| `CooperativeService.RunningPassSleep` | src/updater/updater_service/async_updater_service.py:104-113 | a running pass sleeps at most until the earliest next update time, or not at all when there is none; it stays in its loop iff no stop request comes before that sleep is over, and then sleeps exactly that long |
| `CooperativeService.LoopErrors` | src/updater/updater_service/simple_updater_service.py:78-87 | a loop task ends by error only when an item's own update raised |
| `CooperativeService.PassKeepsWorldSane` | src/updater/updater_service/async_updater_service.py:81-88 | a pass keeps every stamp in the past, never moves time backwards and loses no stamp |
| `CooperativeService.PassOrdersStrictly` | tests/test_async_updater_service.py:64-68 | with `>=`, a pass without error leaves every listed item stamped strictly after each of its transitive dependencies |
| `CooperativeService.PassCycleOrdersStrictly` | src/updater/updater_service/async_updater_service.py:82-88 | the same order for the cycle of a pass |

## Left out

- Database persistence (`UpdateDatetimeDBRepository`, `UpdateDatetimeMementoWithDBRepo`) is SQLAlchemy I/O; the in-memory memento stands in for every memento.
- Threads, events, conditions, the queue's locking, `asyncio` tasks, `join` and its timeouts are not modelled. Each service is a state record and one pass of its loop is a function. The wake event is a flag; the inbox is a sequence.
- The thread-based service takes stop requests and forced updates only between passes. In the source, a stop request or a forced update made during its sleep sets the wake event and ends the sleep early. In the model a wake flag set before the sleep makes it zero, but one set during it cannot shorten it.
  - For a stop request this changes only the time at which the loop ends. The loop test at the next pass still ends the loop before another cycle, so the items end up the same.
  - A forced update made during a sleep is served only when that sleep ends. The forced item's stamp and the start of the next cycle are therefore later than in the source. That cycle also updates the items whose interval ran out in the meantime. For example: every item has interval 100 and was stamped at 0, and a leaf is forced at 10. The source stamps the leaf at about 10. The model stamps it only at the deadline, about 100, in the same pass as the other items.
- In the asynchronous service, a stop request and the end of the sleep falling at the same instant are taken as the stop winning. A start request arriving during a pass is not modelled.
- The wall clock is an integer counter; time zones, `timedelta` and `total_seconds` disappear with it.
- The clock advances strictly: each reading of the time and each stamp takes a later value than the one before. This is an idealisation. Two calls of `datetime.now` can return the same value. Then a dependency can share its dependent's stamp. Under `>=` that dependency reads as newer and the dependent would be updated again. The strictly-later ordering lemmas (`SyncService.FirstPassOrdersStrictly`, `CooperativeService.PassOrdersStrictly`, `SyncService.ForcedUpdateReachesDependents`) need not hold for such equal readings.
- Logging calls are left out.
- Object identity and aliasing are left out: items are values in an immutable map. `UpdateKeychain` copies the list it is given (`src/updater/update_keychain.py:19`) and every getter returns a copy, so for those the model is exact. `SimpleUpdatableItem` (`src/updater/updatable_item/simple_updatable_item.py:17`) and `UpdatableItem` (`src/updater/updatable_item/updatable_item.py:17`, and `set_dependencies` at line 28) keep the caller's list itself. In the source, a later change to that list reaches the item; in the model it does not.
- Cyclic dependency graphs are excluded by the rank: the source's recursion does not terminate on them.
- The body of an item's `_run_update` is not modelled: the set `fails` says whose update raises.
- Restarting the thread-based service after a stop is not modelled separately: the single `threading.Thread` object cannot be started twice, which is thread plumbing.
- The asynchronous service's `force_item_update`, which only a test calls, and the unit tests' `set_item_to_update` are not in the source and are not modelled.
- `UpdatableItem` (`src/updater/updatable_item/updatable_item.py:48`) names its getter `get_last_updated_datetime`. The services call `get_last_update_datetime`, so with this class they would fail on the attribute lookup. The model gives both item classes the getter the services use.
- An exception inside the asynchronous services' sleep task is not propagated: `asyncio.wait` stores it in the finished task. A missing deadline therefore ends the wait at once, and the loop runs its next cycle, with `CooperativeService.WaitFor` giving a zero sleep. The thread-based service instead raises and stops. This assumes a Python before 3.11. From 3.11 on, `asyncio.wait` refuses the bare coroutines that `src/updater/updater_service/async_updater_service.py:97-100` hands it, so the loop would raise at its first wait.
- The item class the asynchronous service declares, `AbstractAsyncUpdatableItem` of `src/updater/updatable_item/abstract_async_updatable_item.py:5-10`, cannot be updated by the cycle. Its base `AbstractUpdatableItem` (`src/updater/updatable_item/abstract_updatable_item.py:5-17`) is not a keychain. It has no `_set_last_update_datetime_to_now`, so its `update()` raises `AttributeError` after the run, and it leaves `get_next_update_datetime` to subclasses. The same holds for the second `AbstractSyncUpdatableItem`, in `src/updater/updatable_item/abstract_sync_updatable_item.py`. The model uses the keychain-based classes of the same names in `src/updater/updatable_item.py`. Which of the two sync classes `from updater.updatable_item import AbstractSyncUpdatableItem` finds depends on package contents that are not part of this model.
- Several lemmas assume non-negative intervals and stamps that lie before the cycle start:
  - `Cycle.CycleUpdatesExactlyPredicted` and `Cycle.CycleLeavesItemsCalm`;
  - `SyncService.PassOrdersDependencies`, `SyncService.FirstPassOrdersStrictly`, `SyncService.ForcedUpdateReachesDependents` and `SyncService.ForcedCycleReachesDependents`;
  - `CooperativeService.PassOrdersStrictly` and `CooperativeService.PassCycleOrdersStrictly`.

  Without these, a stamp can be later than the start time and the "exactly the due items" characterisation no longer holds. The source makes no such check.
