/** The thread-based service: a guarded life cycle, an inbox of forced
    updates drained one item per loop iteration, a full cycle with the strict
    comparison and the keychain's next-time rule, and a sleep until the next
    deadline that a wake flag cuts short. */
module SyncService {
  import opened Outcomes
  import opened DependencyGraph
  import opened Staleness
  import opened Cycle
  import opened ServiceState
  import opened KeychainHelpers
  import UpdateKeychain
  import KeychainItem

  /** The service owning `root`: its running state, the forced-update inbox
      (oldest first), the wake flag and how often the runner was launched. */
  datatype Service = Service(root: Id, state: RunState, inbox: seq<Id>, wake: bool, launches: nat)

  /** The outcome of one pass of the loop: the service and the world after
      it, the time slept (`None` when the loop ended instead of sleeping) and
      the error that ended the loop, if one did. */
  datatype Step = Step(svc: Service, world: World, sleep: Option<int>, error: Option<Error>)

  function NewService(root: Id): (r: Service)
    ensures r.root == root && r.state == Stopped && r.inbox == [] && !r.wake && r.launches == 0
  {
    Service(root, Stopped, [], false, 0)
  }

  /** `is_running`: a service that was asked to stop but whose loop has not
      ended yet still counts as running. */
  predicate IsRunning(svc: Service): (r: bool)
    ensures r <==> svc.state == Running || svc.state == Stopping
  {
    svc.state != Stopped
  }

  /** Only a stopped service starts, launching its runner once. */
  function StartService(svc: Service): (r: Service)
    ensures IsRunning(r)
    ensures svc.state == Stopped ==> r == svc.(state := Running, launches := svc.launches + 1)
    ensures svc.state != Stopped ==> r == svc
  {
    if svc.state == Stopped then svc.(state := Running, launches := svc.launches + 1) else svc
  }

  /** Only a running service is asked to stop; the request also wakes the
      sleeping runner. */
  function StopService(svc: Service): (r: Service)
    ensures svc.state == Running ==> r == svc.(state := Stopping, wake := true)
    ensures svc.state != Running ==> r == svc
  {
    if svc.state == Running then svc.(state := Stopping, wake := true) else svc
  }

  /** Queue a forced update of an item the service owns, and wake the runner. */
  function ForceItemUpdate(g: Graph, svc: Service, item: Id): (r: Result<Service>)
    requires Valid(g) && svc.root in g.nodes
    ensures r.Ok? <==> item == svc.root || DependsOn(g, svc.root, item)
    ensures r.Ok? ==> r.value == svc.(inbox := svc.inbox + [item], wake := true)
    ensures r.Err? ==> r.error == InvalidOwner
  {
    if item in UpdateList(g, svc.root) then Ok(svc.(inbox := svc.inbox + [item], wake := true))
    else Err(InvalidOwner)
  }

  /** Take the oldest forced item off the inbox and update it whether or not
      it is due: its own update runs first and, if it succeeds, the item is
      stamped with the current time. */
  function UpdateOneFromInbox(inbox: seq<Id>, w: World, fails: set<Id>): (r: (seq<Id>, World, Option<Error>))
    requires inbox != []
    ensures r.0 == inbox[1..]
    ensures inbox[0] in fails ==> r.1 == w && r.2 == Some(RunFailed)
    ensures inbox[0] !in fails ==> r.2.None? && r.1 == World(w.stamps[inbox[0] := w.clock], w.clock + 1)
  {
    var f := inbox[0];
    if f in fails then (inbox[1..], w, Some(RunFailed))
    else (inbox[1..], World(w.stamps[f := w.clock], w.clock + 1), None)
  }

  /** Serving the inbox runs the dequeued keychain item's own `update`: with
      the item's last update as the world records it, the outcome is that of
      `KeychainItem.Update` at the current time, the last update it leaves is
      the one the world records afterwards, and no other item's stamp moves. */
  lemma ForcedRunsItemUpdate(inbox: seq<Id>, w: World, fails: set<Id>, k: UpdateKeychain.Keychain)
    requires inbox != []
    requires UpdateKeychain.GetLastUpdate(k) == Lookup(w.stamps, inbox[0])
    ensures var r := UpdateOneFromInbox(inbox, w, fails);
            var u := KeychainItem.Update(k, w.clock, inbox[0] !in fails);
            && r.2 == u.error
            && UpdateKeychain.GetLastUpdate(u.item) == Lookup(r.1.stamps, inbox[0])
            && forall y :: y != inbox[0] ==> Lookup(r.1.stamps, y) == Lookup(w.stamps, y)
  {
  }

  /** The sleep before the next pass: until the deadline, never negative, and
      nothing at all once the wake flag is set. */
  function SleepFor(wake: bool, next: int, now: int): (r: int)
    ensures r >= 0
    ensures wake ==> r == 0
    ensures !wake && next >= now ==> now + r == next
    ensures !wake && next < now ==> r == 0
  {
    if wake then 0 else Max(next - now, 0)
  }

  /** One pass of the runner's loop. The loop condition is checked first: a
      service that is not running ends in `Stopped`. Otherwise one forced item
      is updated, then the full cycle runs against a fresh start time, then the
      next deadline is computed and slept until. Any error ends the loop, and
      ending the loop always leaves the service `Stopped`. */
  function Iterate(g: Graph, svc: Service, w: World, fails: set<Id>): (r: Step)
    requires Valid(g) && svc.root in g.nodes
    ensures r.svc.root == svc.root && r.svc.wake == svc.wake && r.svc.launches == svc.launches
    ensures r.sleep.None? <==> r.svc.state == Stopped
    ensures r.sleep.Some? ==> r.sleep.value >= 0 && (svc.wake ==> r.sleep.value == 0)
    ensures r.error.Some? ==> r.sleep.None?
    ensures svc.state != Running ==> r == Step(svc.(state := Stopped), w, None, None)
    ensures svc.state == Running && r.svc.state != Stopped ==> r.svc.state == Running
  {
    if svc.state != Running then Step(svc.(state := Stopped), w, None, None)
    else if svc.inbox != [] && svc.inbox[0] in fails then
      Step(svc.(state := Stopped, inbox := svc.inbox[1..]), w, None, Some(RunFailed))
    else
      var svc1 := svc.(inbox := if svc.inbox == [] then [] else svc.inbox[1..]);
      AfterCycle(g, svc1, PassCycle(g, svc, w, fails))
  }

  /** The rest of a running pass once its cycle has run: an aborted cycle
      ends the loop, otherwise the runner sleeps until the next deadline. */
  function AfterCycle(g: Graph, svc: Service, st: CycleState): (r: Step)
    requires Valid(g) && svc.root in g.nodes && svc.state == Running
    ensures r.svc.root == svc.root && r.svc.wake == svc.wake && r.svc.launches == svc.launches
    ensures r.svc.inbox == svc.inbox && r.world.stamps == st.stamps && r.world.clock >= st.clock
    ensures r.sleep.None? <==> r.svc.state == Stopped
    ensures r.sleep.Some? ==> r.svc == svc && r.error.None? && r.sleep.value >= 0 && (svc.wake ==> r.sleep.value == 0)
    ensures r.error.Some? ==> r.sleep.None?
    ensures st.error.Some? ==> r.error == st.error
    ensures st.error.None? ==> r == SleepUntilNext(svc, World(st.stamps, st.clock), CalcNextUpdateTime(g, st.stamps, svc.root))
  {
    if st.error.Some? then Step(svc.(state := Stopped), World(st.stamps, st.clock), None, st.error)
    else SleepUntilNext(svc, World(st.stamps, st.clock), CalcNextUpdateTime(g, st.stamps, svc.root))
  }

  /** Sleeping until the next deadline `next`, computed at time `w.clock`: a
      missing deadline ends the loop, since the subtraction from the current
      time rejects it. */
  function SleepUntilNext(svc: Service, w: World, next: Option<int>): (r: Step)
    ensures r.svc.root == svc.root && r.svc.wake == svc.wake && r.svc.launches == svc.launches
    ensures r.svc.inbox == svc.inbox && r.world.stamps == w.stamps && r.world.clock >= w.clock
    ensures r.sleep.None? ==> r.svc.state == Stopped
    ensures next.None? ==> r == Step(svc.(state := Stopped), w, None, Some(MissingDeadline))
    ensures next.Some? ==>
              r.svc == svc && r.error.None? && r.sleep == Some(SleepFor(svc.wake, next.value, w.clock))
              && r.world.clock == w.clock + r.sleep.value
  {
    if next.None? then Step(svc.(state := Stopped), w, None, Some(MissingDeadline))
    else
      var sleep := SleepFor(svc.wake, next.value, w.clock);
      Step(svc, World(w.stamps, w.clock + sleep), Some(sleep), None)
  }

  /** The stamps after the forced update of a running pass, whose clock is
      the start time the cycle of that pass captures. */
  function ForcedWorld(svc: Service, w: World, fails: set<Id>): (r: World)
    requires svc.inbox != [] ==> svc.inbox[0] !in fails
    ensures svc.inbox == [] ==> r == w
    ensures svc.inbox != [] ==> r.stamps == w.stamps[svc.inbox[0] := w.clock] && r.clock == w.clock + 1
  {
    if svc.inbox == [] then w else UpdateOneFromInbox(svc.inbox, w, fails).1
  }

  /** The full cycle of a running pass, run after its forced update against
      a start time read right after it. */
  function PassCycle(g: Graph, svc: Service, w: World, fails: set<Id>): (r: CycleState)
    requires Valid(g) && svc.root in g.nodes
    requires svc.inbox != [] ==> svc.inbox[0] !in fails
    ensures r.error.None? || r.error == Some(RunFailed)
  {
    var w1 := ForcedWorld(svc, w, fails);
    CycleFailsOnlyByRun(g, svc.root, Strict, KeychainRule, w1.stamps, w1.clock, w1.clock + 1, fails);
    FullCycle(g, svc.root, Strict, KeychainRule, w1.stamps, w1.clock, w1.clock + 1, fails)
  }

  /** In a world whose stamps lie in the past, the start time the cycle of a
      pass reads comes after every stamp, the forced item's included, and the
      first stamp of the cycle after it. */
  lemma ForcedStartSane(svc: Service, w: World, fails: set<Id>)
    requires svc.inbox != [] ==> svc.inbox[0] !in fails
    requires SaneWorld(w)
    ensures var w1 := ForcedWorld(svc, w, fails);
            SaneClock(w1.stamps, w1.clock, w1.clock + 1)
  {
  }

  // ---------------------------------------------------------------------------
  // Life cycle

  /** A new service is stopped; starting it makes it running with one launch
      of the runner, and starting again launches nothing more; a stop request
      makes it stopping (still reported running) and the next loop check
      stops it. */
  lemma Lifecycle(g: Graph, root: Id, w: World, fails: set<Id>)
    requires Valid(g) && root in g.nodes
    ensures !IsRunning(NewService(root))
    ensures var started := StartService(NewService(root));
            started.state == Running && started.launches == 1 && StartService(started) == started
    ensures var stopping := StopService(StartService(NewService(root)));
            stopping.state == Stopping && stopping.wake && IsRunning(stopping)
            && StopService(stopping) == stopping
            && Iterate(g, stopping, w, fails) == Step(stopping.(state := Stopped), w, None, None)
            && !IsRunning(Iterate(g, stopping, w, fails).svc)
    ensures StopService(NewService(root)) == NewService(root)
  {
  }

  /** The wake flag is never cleared: once a forced update or a stop request
      has set it, every later pass of the loop skips its sleep. */
  lemma WakeFlagIsSticky(g: Graph, svc: Service, w: World, fails: set<Id>, item: Id)
    requires Valid(g) && svc.root in g.nodes
    ensures ForceItemUpdate(g, svc, item).Ok? ==> ForceItemUpdate(g, svc, item).value.wake
    ensures svc.wake ==> Iterate(g, svc, w, fails).svc.wake
    ensures svc.wake && Iterate(g, svc, w, fails).sleep.Some? ==> Iterate(g, svc, w, fails).sleep == Some(0)
  {
  }

  /** A refused forced update leaves the service as it was; an accepted one
      queues the item behind the earlier ones. */
  lemma ForceKeepsOrder(g: Graph, svc: Service, a: Id, b: Id)
    requires Valid(g) && svc.root in g.nodes
    requires ForceItemUpdate(g, svc, a).Ok?
    ensures ForceItemUpdate(g, ForceItemUpdate(g, svc, a).value, b).Ok? ==>
              ForceItemUpdate(g, ForceItemUpdate(g, svc, a).value, b).value.inbox == svc.inbox + [a, b]
  {
  }

  // ---------------------------------------------------------------------------
  // One pass of the loop

  /** What a running pass that ends without error did: drained one forced
      item, and ran the full cycle against the start time right after it. */
  lemma RunningPassShape(g: Graph, svc: Service, w: World, fails: set<Id>)
    requires Valid(g) && svc.root in g.nodes && svc.state == Running
    requires Iterate(g, svc, w, fails).error.None?
    ensures svc.inbox != [] ==> svc.inbox[0] !in fails
    ensures var r := Iterate(g, svc, w, fails);
            var st := PassCycle(g, svc, w, fails);
            && r.svc == svc.(inbox := if svc.inbox == [] then [] else svc.inbox[1..])
            && st.error.None?
            && r.world.stamps == st.stamps
            && r.world.clock >= st.clock
  {
  }

  /** The stamps a running pass without error leaves are those of its cycle. */
  lemma PassStamps(g: Graph, svc: Service, w: World, fails: set<Id>)
    requires Valid(g) && svc.root in g.nodes && svc.state == Running
    requires Iterate(g, svc, w, fails).error.None?
    ensures svc.inbox != [] ==> svc.inbox[0] !in fails
    ensures PassCycle(g, svc, w, fails).error.None?
    ensures Iterate(g, svc, w, fails).world.stamps == PassCycle(g, svc, w, fails).stamps
  {
  }

  /** The only ways the loop ends by error: an item's own update raised, or
      no item has a next update time. A missing last-update time is never met,
      neither by a staleness comparison nor by the next-time calculation. */
  lemma LoopErrors(g: Graph, svc: Service, w: World, fails: set<Id>)
    requires Valid(g) && svc.root in g.nodes
    ensures var e := Iterate(g, svc, w, fails).error;
            e.None? || e == Some(RunFailed) || e == Some(MissingDeadline)
  {
    if svc.state == Running && (svc.inbox == [] || svc.inbox[0] !in fails) {
      var w1 := ForcedWorld(svc, w, fails);
      CycleFailsOnlyByRun(g, svc.root, Strict, KeychainRule, w1.stamps, w1.clock, w1.clock + 1, fails);
    }
  }

  /** A graph in which no item has an update interval has no deadline: a
      running pass always ends the loop, with the missing-deadline error
      unless an update raised first. */
  lemma NoIntervalEndsLoop(g: Graph, svc: Service, w: World, fails: set<Id>)
    requires Valid(g) && svc.root in g.nodes && svc.state == Running
    requires forall y :: y in g.nodes ==> g.nodes[y].interval.None?
    ensures Iterate(g, svc, w, fails).error == Some(MissingDeadline) || Iterate(g, svc, w, fails).error == Some(RunFailed)
    ensures Iterate(g, svc, w, fails).svc.state == Stopped
  {
    if svc.inbox == [] || svc.inbox[0] !in fails {
      var svc1 := svc.(inbox := if svc.inbox == [] then [] else svc.inbox[1..]);
      var st := PassCycle(g, svc, w, fails);
      RunningPassIsAfterCycle(g, svc, w, fails);
      NoIntervalAfterCycle(g, svc1, st);
    } else {
      ForcedFailureEndsLoop(g, svc, w, fails);
    }
  }

  /** A forced update that raises ends the loop before the cycle: the item
      is taken off the inbox and no stamp changes. */
  lemma ForcedFailureEndsLoop(g: Graph, svc: Service, w: World, fails: set<Id>)
    requires Valid(g) && svc.root in g.nodes && svc.state == Running
    requires svc.inbox != [] && svc.inbox[0] in fails
    ensures Iterate(g, svc, w, fails) == Step(svc.(state := Stopped, inbox := svc.inbox[1..]), w, None, Some(RunFailed))
  {
  }

  /** A running pass whose forced update, if any, succeeds continues with
      its cycle. */
  lemma RunningPassIsAfterCycle(g: Graph, svc: Service, w: World, fails: set<Id>)
    requires Valid(g) && svc.root in g.nodes && svc.state == Running
    requires svc.inbox == [] || svc.inbox[0] !in fails
    ensures Iterate(g, svc, w, fails) ==
            AfterCycle(g, svc.(inbox := if svc.inbox == [] then [] else svc.inbox[1..]), PassCycle(g, svc, w, fails))
  {
  }

  /** The part of `NoIntervalEndsLoop` after the cycle. */
  lemma NoIntervalAfterCycle(g: Graph, svc: Service, st: CycleState)
    requires Valid(g) && svc.root in g.nodes && svc.state == Running
    requires forall y :: y in g.nodes ==> g.nodes[y].interval.None?
    requires st.error.None? || st.error == Some(RunFailed)
    ensures AfterCycle(g, svc, st).error == Some(RunFailed) || AfterCycle(g, svc, st).error == Some(MissingDeadline)
    ensures AfterCycle(g, svc, st).svc.state == Stopped
  {
    NoIntervalNoDeadline(g, st.stamps, svc.root);
  }

  /** Without update intervals no item has a next update time. */
  lemma NoIntervalNoDeadline(g: Graph, s: Stamps, root: Id)
    requires Valid(g) && root in g.nodes
    requires forall y :: y in g.nodes ==> g.nodes[y].interval.None?
    ensures CalcNextUpdateTime(g, s, root).None?
  {
    forall y | y in UpdateList(g, root)
      ensures NextTime(g, s, y, KeychainRule) == Ok(None)
    {
    }
  }

  // ---------------------------------------------------------------------------
  // Time and order across a pass

  /** A pass keeps every stamp in the past and never moves time backwards. */
  lemma PassKeepsWorldSane(g: Graph, svc: Service, w: World, fails: set<Id>)
    requires Valid(g) && svc.root in g.nodes && SaneWorld(w)
    ensures SaneWorld(Iterate(g, svc, w, fails).world)
    ensures w.clock <= Iterate(g, svc, w, fails).world.clock
    ensures w.stamps.Keys <= Iterate(g, svc, w, fails).world.stamps.Keys
  {
    if svc.state == Running && (svc.inbox == [] || svc.inbox[0] !in fails) {
      var w1 := ForcedWorld(svc, w, fails);
      var list := UpdateList(g, svc.root);
      RunKeepsPast(g, Strict, KeychainRule, list, |list|, CycleState(w1.stamps, w1.clock + 1, None), w1.clock, fails);
    }
  }

  /** The ordering a successful pass cycle leaves behind. */
  lemma PassCycleOrders(g: Graph, svc: Service, w: World, fails: set<Id>)
    requires Valid(g) && svc.root in g.nodes && NonNegativeIntervals(g) && SaneWorld(w)
    requires svc.inbox != [] ==> svc.inbox[0] !in fails
    requires PassCycle(g, svc, w, fails).error.None?
    ensures var s' := PassCycle(g, svc, w, fails).stamps;
            var start := ForcedWorld(svc, w, fails).clock;
            forall y, d :: y in UpdateList(g, svc.root) && DependsOn(g, y, d) ==>
              y in s' && d in s' && s'[d] <= s'[y] && (s'[d] > start ==> s'[d] < s'[y])
  {
    var w1 := ForcedWorld(svc, w, fails);
    assert SaneClock(w1.stamps, w1.clock, w1.clock + 1);
    var st := FullCycle(g, svc.root, Strict, KeychainRule, w1.stamps, w1.clock, w1.clock + 1, fails);
    assert PassCycle(g, svc, w, fails) == st;
    CycleLeavesItemsCalm(g, svc.root, Strict, KeychainRule, w1.stamps, w1.clock, w1.clock + 1, fails);
  }

  /** After a pass that ends without error, no item of the update list has a
      dependency with a later stamp, and every dependency updated in the pass
      (after the captured start time) is stamped strictly before its
      dependent. */
  lemma PassOrdersDependencies(g: Graph, svc: Service, w: World, fails: set<Id>)
    requires Valid(g) && svc.root in g.nodes && NonNegativeIntervals(g) && SaneWorld(w)
    requires svc.state == Running
    ensures var r := Iterate(g, svc, w, fails);
            r.error.None? ==>
              var start := if svc.inbox == [] then w.clock else w.clock + 1;
              forall y, d :: y in UpdateList(g, svc.root) && DependsOn(g, y, d) ==>
                && y in r.world.stamps && d in r.world.stamps
                && r.world.stamps[d] <= r.world.stamps[y]
                && (r.world.stamps[d] > start ==> r.world.stamps[d] < r.world.stamps[y])
  {
    if Iterate(g, svc, w, fails).error.None? {
      RunningPassShape(g, svc, w, fails);
      PassCycleOrders(g, svc, w, fails);
    }
  }

  /** A pass over items that were never updated updates every item of the
      update list, each strictly after all of its dependencies. */
  lemma FirstPassOrdersStrictly(g: Graph, svc: Service, w: World, fails: set<Id>)
    requires Valid(g) && svc.root in g.nodes && NonNegativeIntervals(g) && SaneWorld(w)
    requires svc.state == Running && svc.inbox == []
    requires forall y :: y in UpdateList(g, svc.root) ==> y !in w.stamps
    ensures var r := Iterate(g, svc, w, fails);
            r.error.None? ==>
              forall y, d :: y in UpdateList(g, svc.root) && DependsOn(g, y, d) ==>
                y in r.world.stamps && d in r.world.stamps && w.clock < r.world.stamps[d] < r.world.stamps[y]
  {
    if Iterate(g, svc, w, fails).error.None? {
      PassStamps(g, svc, w, fails);
      FirstPassCycleOrdersStrictly(g, svc, w, fails);
    }
  }

  /** The cycle of a pass without forced item over never-updated items. */
  lemma FirstPassCycleOrdersStrictly(g: Graph, svc: Service, w: World, fails: set<Id>)
    requires Valid(g) && svc.root in g.nodes && NonNegativeIntervals(g) && SaneWorld(w)
    requires svc.inbox == [] && PassCycle(g, svc, w, fails).error.None?
    requires forall y :: y in UpdateList(g, svc.root) ==> y !in w.stamps
    ensures var s' := PassCycle(g, svc, w, fails).stamps;
            forall y, d :: y in UpdateList(g, svc.root) && DependsOn(g, y, d) ==>
              y in s' && d in s' && w.clock < s'[d] < s'[y]
  {
    FirstCycleOrdersStrictly(g, svc.root, w.stamps, w.clock, fails);
  }

  /** A cycle over items of which none was ever updated stamps all of them,
      each strictly after its dependencies. */
  lemma FirstCycleOrdersStrictly(g: Graph, root: Id, s: Stamps, start: int, fails: set<Id>)
    requires Valid(g) && root in g.nodes && NonNegativeIntervals(g) && SaneClock(s, start, start + 1)
    requires forall y :: y in UpdateList(g, root) ==> y !in s
    requires FullCycle(g, root, Strict, KeychainRule, s, start, start + 1, fails).error.None?
    ensures var s' := FullCycle(g, root, Strict, KeychainRule, s, start, start + 1, fails).stamps;
            forall y, d :: y in UpdateList(g, root) && DependsOn(g, y, d) ==>
              y in s' && d in s' && start < s'[d] < s'[y]
  {
    CycleLeavesItemsCalm(g, root, Strict, KeychainRule, s, start, start + 1, fails);
    CycleUpdatesExactlyPredicted(g, root, Strict, KeychainRule, s, start, start + 1, fails);
    var list := UpdateList(g, root);
    forall y | y in list
      ensures WillUpdate(g, s, start, Strict, KeychainRule, y)
    {
    }
  }

  /** The forced item of a pass is updated whether or not it is due, and
      every item of the update list that depends on it ends the pass with a
      strictly later stamp: the forced update reaches all of its dependents.
      An item that neither depends on the forced item nor is due on its own
      keeps its stamp, which is then older than the forced item's. */
  lemma ForcedUpdateReachesDependents(g: Graph, svc: Service, w: World, fails: set<Id>)
    requires Valid(g) && svc.root in g.nodes && NonNegativeIntervals(g) && SaneWorld(w)
    requires svc.state == Running && svc.inbox != []
    ensures var r := Iterate(g, svc, w, fails);
            var f := svc.inbox[0];
            r.error.None? ==>
              && f in r.world.stamps && r.world.stamps[f] >= w.clock
              && (forall y :: y in UpdateList(g, svc.root) && DependsOn(g, y, f) ==>
                    y in r.world.stamps && r.world.stamps[f] < r.world.stamps[y])
              && (forall y :: y in UpdateList(g, svc.root) && y != f && y in w.stamps
                              && !WillUpdate(g, w.stamps[f := w.clock], w.clock + 1, Strict, KeychainRule, y) ==>
                    y in r.world.stamps && r.world.stamps[y] == w.stamps[y] && r.world.stamps[y] < r.world.stamps[f])
  {
    if Iterate(g, svc, w, fails).error.None? {
      PassStamps(g, svc, w, fails);
      ForcedPassCycleReachesDependents(g, svc, w, fails);
    }
  }

  /** The forced-update scenario: item 2 depends on item 1 (ten-minute
      interval), the root 0 on items 2 and 3, and none of 0, 2, 3 has an
      interval. After a first pass stamped 1, 2, 3 and 0 in that order, item 1
      is forced. A pass without error then leaves 1 later than the
      independent 3 and earlier than its dependent 2. */
  lemma ForcedUpdateScenario(g: Graph, svc: Service, w: World, fails: set<Id>)
    requires g == Graph(map[1 := Node(Some(600), []), 2 := Node(None, [1]), 3 := Node(None, []),
                            0 := Node(None, [2, 3])],
                        map[1 := 0, 2 := 1, 3 := 0, 0 := 2])
    requires svc == Service(0, Running, [1], true, 1)
    requires w == World(map[1 := 1, 2 := 2, 3 := 3, 0 := 4], 10)
    ensures Valid(g)
    ensures var r := Iterate(g, svc, w, fails);
            r.error.None? ==>
              && 1 in r.world.stamps && 2 in r.world.stamps && 3 in r.world.stamps
              && r.world.stamps[1] < r.world.stamps[2]
              && r.world.stamps[3] < r.world.stamps[1]
              && r.world.stamps[3] < r.world.stamps[2]
  {
    ForcedScenarioSetting(g, svc, w);
    ForcedOrdersTwo(g, svc, w, fails, 2, 3);
  }

  /** The scenario meets what `ForcedOrdersTwo` needs, with 2 as the
      dependent of the forced item 1 and 3 as the item left alone. */
  lemma ForcedScenarioSetting(g: Graph, svc: Service, w: World)
    requires g == Graph(map[1 := Node(Some(600), []), 2 := Node(None, [1]), 3 := Node(None, []),
                            0 := Node(None, [2, 3])],
                        map[1 := 0, 2 := 1, 3 := 0, 0 := 2])
    requires svc == Service(0, Running, [1], true, 1)
    requires w == World(map[1 := 1, 2 := 2, 3 := 3, 0 := 4], 10)
    ensures Valid(g) && svc.root in g.nodes && NonNegativeIntervals(g) && SaneWorld(w)
    ensures svc.state == Running && svc.inbox != [] && svc.inbox[0] == 1
    ensures 2 in UpdateList(g, svc.root) && DependsOn(g, 2, svc.inbox[0])
    ensures 3 in UpdateList(g, svc.root) && 3 != svc.inbox[0] && 3 in w.stamps
    ensures !WillUpdate(g, w.stamps[svc.inbox[0] := w.clock], w.clock + 1, Strict, KeychainRule, 3)
  {
    ForcedScenarioWorld(w);
    ForcedScenarioGraph(g);
    ForcedScenarioList(g);
    LeafNotDue(g, w.stamps[1 := 10], 3, 11);
  }

  /** The scenario's stamps all lie before its clock. */
  lemma ForcedScenarioWorld(w: World)
    requires w == World(map[1 := 1, 2 := 2, 3 := 3, 0 := 4], 10)
    ensures SaneWorld(w) && 3 in w.stamps
  {
    assert w.stamps.Keys == {0, 1, 2, 3};
    forall y | y in w.stamps
      ensures w.stamps[y] < w.clock
    {
      assert y in {0, 1, 2, 3};
    }
  }

  /** `ForcedUpdateReachesDependents` for one dependent `dep` of the forced
      item and one other item `other` that the cycle will not update. */
  lemma ForcedOrdersTwo(g: Graph, svc: Service, w: World, fails: set<Id>, dep: Id, other: Id)
    requires Valid(g) && svc.root in g.nodes && NonNegativeIntervals(g) && SaneWorld(w)
    requires svc.state == Running && svc.inbox != []
    requires dep in UpdateList(g, svc.root) && DependsOn(g, dep, svc.inbox[0])
    requires other in UpdateList(g, svc.root) && other != svc.inbox[0] && other in w.stamps
    requires !WillUpdate(g, w.stamps[svc.inbox[0] := w.clock], w.clock + 1, Strict, KeychainRule, other)
    ensures var r := Iterate(g, svc, w, fails);
            var f := svc.inbox[0];
            r.error.None? ==>
              && f in r.world.stamps && dep in r.world.stamps && other in r.world.stamps
              && r.world.stamps[f] < r.world.stamps[dep]
              && r.world.stamps[other] < r.world.stamps[f]
  {
    ForcedUpdateReachesDependents(g, svc, w, fails);
  }

  /** The graph of the forced-update scenario is ranked, and 2 depends on 1. */
  lemma ForcedScenarioGraph(g: Graph)
    requires g == Graph(map[1 := Node(Some(600), []), 2 := Node(None, [1]), 3 := Node(None, []),
                            0 := Node(None, [2, 3])],
                        map[1 := 0, 2 := 1, 3 := 0, 0 := 2])
    ensures Valid(g) && NonNegativeIntervals(g) && 0 in g.nodes && g.nodes[3] == Node(None, [])
    ensures DependsOn(g, 2, 1)
  {
    assert g.nodes.Keys == {0, 1, 2, 3};
    forall x | x in g.nodes
      ensures x in g.rank && g.nodes[x].interval.Some? ==> g.nodes[x].interval.value >= 0
      ensures forall c :: c in g.nodes[x].deps ==> c in g.nodes && c in g.rank && g.rank[c] < g.rank[x]
    {
      assert x in {0, 1, 2, 3};
    }
    assert 1 in g.nodes[2].deps;
  }

  /** Items 2 and 3 are on the update list of the scenario's root 0. */
  lemma ForcedScenarioList(g: Graph)
    requires g == Graph(map[1 := Node(Some(600), []), 2 := Node(None, [1]), 3 := Node(None, []),
                            0 := Node(None, [2, 3])],
                        map[1 := 0, 2 := 1, 3 := 0, 0 := 2])
    requires Valid(g)
    ensures 2 in UpdateList(g, 0) && 3 in UpdateList(g, 0)
  {
    assert DependsOn(g, 0, 2) && DependsOn(g, 0, 3) by {
      assert 2 in g.nodes[0].deps && 3 in g.nodes[0].deps;
    }
  }

  /** An item without dependencies or interval that was updated before is not
      due in any cycle. */
  lemma LeafNotDue(g: Graph, s: Stamps, x: Id, start: int)
    requires Valid(g) && x in g.nodes && x in s
    requires g.nodes[x] == Node(None, [])
    ensures !WillUpdate(g, s, start, Strict, KeychainRule, x)
  {
    assert !Stale(g, s, x, Strict) by {
      forall d | DependsOn(g, x, d)
        ensures false
      {
      }
    }
  }

  /** The cycle of a pass that starts with a forced item. */
  lemma ForcedPassCycleReachesDependents(g: Graph, svc: Service, w: World, fails: set<Id>)
    requires Valid(g) && svc.root in g.nodes && NonNegativeIntervals(g) && SaneWorld(w)
    requires svc.inbox != [] && svc.inbox[0] !in fails && PassCycle(g, svc, w, fails).error.None?
    ensures var s' := PassCycle(g, svc, w, fails).stamps;
            var f := svc.inbox[0];
            && f in s' && s'[f] >= w.clock
            && (forall y :: y in UpdateList(g, svc.root) && DependsOn(g, y, f) ==> y in s' && s'[f] < s'[y])
            && (forall y :: y in UpdateList(g, svc.root) && y != f && y in w.stamps
                            && !WillUpdate(g, w.stamps[f := w.clock], w.clock + 1, Strict, KeychainRule, y) ==>
                  y in s' && s'[y] == w.stamps[y] && s'[y] < s'[f])
  {
    var f := svc.inbox[0];
    var c := w.clock;
    assert ForcedWorld(svc, w, fails) == World(w.stamps[f := c], c + 1);
    ForcedCycleReachesDependents(g, svc.root, w.stamps, c, f, fails);
  }

  /** A cycle that starts right after item `f` was stamped with the latest
      time ends with every dependent of `f` stamped strictly after it, and
      with every other item that was stamped and not due keeping its older
      stamp. */
  lemma ForcedCycleReachesDependents(g: Graph, root: Id, s: Stamps, c: int, f: Id, fails: set<Id>)
    requires Valid(g) && root in g.nodes && NonNegativeIntervals(g)
    requires forall y :: y in s ==> s[y] < c
    requires FullCycle(g, root, Strict, KeychainRule, s[f := c], c + 1, c + 2, fails).error.None?
    ensures var s' := FullCycle(g, root, Strict, KeychainRule, s[f := c], c + 1, c + 2, fails).stamps;
            && f in s' && s'[f] >= c
            && (forall y :: y in UpdateList(g, root) && DependsOn(g, y, f) ==> y in s' && s'[f] < s'[y])
            && (forall y :: y in UpdateList(g, root) && y != f && y in s
                            && !WillUpdate(g, s[f := c], c + 1, Strict, KeychainRule, y) ==>
                  y in s' && s'[y] == s[y] && s'[y] < s'[f])
  {
    ForcedCycleDependentsLater(g, root, s, c, f, fails);
    ForcedCycleKeepsOthers(g, root, s, c, f, fails);
  }

  /** The dependents half of `ForcedCycleReachesDependents`. */
  lemma ForcedCycleDependentsLater(g: Graph, root: Id, s: Stamps, c: int, f: Id, fails: set<Id>)
    requires Valid(g) && root in g.nodes && NonNegativeIntervals(g)
    requires forall y :: y in s ==> s[y] < c
    requires FullCycle(g, root, Strict, KeychainRule, s[f := c], c + 1, c + 2, fails).error.None?
    ensures var s' := FullCycle(g, root, Strict, KeychainRule, s[f := c], c + 1, c + 2, fails).stamps;
            && f in s' && s'[f] >= c
            && (forall y :: y in UpdateList(g, root) && DependsOn(g, y, f) ==> y in s' && s'[f] < s'[y])
  {
    var s1 := s[f := c];
    assert SaneClock(s1, c + 1, c + 2);
    assert f in s1 && forall z :: z in s1 && z != f ==> s1[z] < s1[f];
    var s' := FullCycle(g, root, Strict, KeychainRule, s1, c + 1, c + 2, fails).stamps;
    LatestStaysStamped(g, root, s1, c + 1, c + 2, fails, f);
    forall y | y in UpdateList(g, root) && DependsOn(g, y, f)
      ensures y in s' && s'[f] < s'[y]
    {
      DependentAfterLatest(g, root, s1, c + 1, c + 2, fails, y, f);
    }
  }

  /** A stamped item keeps a stamp at least as late through a cycle. */
  lemma LatestStaysStamped(g: Graph, root: Id, s: Stamps, start: int, clock: int, fails: set<Id>, f: Id)
    requires Valid(g) && root in g.nodes && NonNegativeIntervals(g) && SaneClock(s, start, clock)
    requires FullCycle(g, root, Strict, KeychainRule, s, start, clock, fails).error.None?
    requires f in s
    ensures var s' := FullCycle(g, root, Strict, KeychainRule, s, start, clock, fails).stamps;
            f in s' && s'[f] >= s[f]
  {
    CycleUpdatesExactlyPredicted(g, root, Strict, KeychainRule, s, start, clock, fails);
  }

  /** One dependent of the latest-stamped item `f` ends the cycle stamped
      after `f`. */
  lemma DependentAfterLatest(g: Graph, root: Id, s: Stamps, start: int, clock: int, fails: set<Id>, y: Id, f: Id)
    requires Valid(g) && root in g.nodes && NonNegativeIntervals(g) && SaneClock(s, start, clock)
    requires FullCycle(g, root, Strict, KeychainRule, s, start, clock, fails).error.None?
    requires f in s && forall z :: z in s && z != f ==> s[z] < s[f]
    requires y in UpdateList(g, root) && DependsOn(g, y, f)
    ensures var s' := FullCycle(g, root, Strict, KeychainRule, s, start, clock, fails).stamps;
            y in s' && f in s' && s'[f] < s'[y]
  {
    DependentOfLatestIsPredicted(g, s, start, y, f);
    CycleUpdatesExactlyPredicted(g, root, Strict, KeychainRule, s, start, clock, fails);
    CycleLeavesItemsCalm(g, root, Strict, KeychainRule, s, start, clock, fails);
  }

  /** The other half: an item that the cycle is not predicted to update
      keeps its stamp from before the forced update. */
  lemma ForcedCycleKeepsOthers(g: Graph, root: Id, s: Stamps, c: int, f: Id, fails: set<Id>)
    requires Valid(g) && root in g.nodes && NonNegativeIntervals(g)
    requires forall y :: y in s ==> s[y] < c
    requires FullCycle(g, root, Strict, KeychainRule, s[f := c], c + 1, c + 2, fails).error.None?
    ensures var s' := FullCycle(g, root, Strict, KeychainRule, s[f := c], c + 1, c + 2, fails).stamps;
            forall y :: y in UpdateList(g, root) && y != f && y in s
                        && !WillUpdate(g, s[f := c], c + 1, Strict, KeychainRule, y) ==>
              y in s' && s'[y] == s[y] && s'[y] < s'[f]
  {
    var s1 := s[f := c];
    CycleUpdatesExactlyPredicted(g, root, Strict, KeychainRule, s1, c + 1, c + 2, fails);
  }

  /** Every dependent of an item stamped after all others is predicted to
      be updated: it was never updated, or that dependency is newer. */
  lemma DependentOfLatestIsPredicted(g: Graph, s: Stamps, start: int, y: Id, f: Id)
    requires Valid(g) && y in g.nodes && DependsOn(g, y, f)
    requires f in s && forall z :: z in s && z != f ==> s[z] < s[f]
    ensures WillUpdate(g, s, start, Strict, KeychainRule, y)
  {
    NoSelfDependency(g, y);
    if y in s {
      assert Newer(Strict, s[f], s[y]);
    }
  }
}
