/** The coroutine-based services. The asynchronous service and the simple
    service share one life cycle and one loop: an unguarded start that
    launches another loop task, a stop that only marks the service as
    stopping, and a loop whose body always runs a full cycle with the
    non-strict comparison before it waits and only then checks the state.
    The item class, and with it the next-time rule, is a parameter. */
module CooperativeService {
  import opened Outcomes
  import opened DependencyGraph
  import opened Staleness
  import opened Cycle
  import opened ServiceState

  /** The service owning `root`: its running state and how many loop tasks
      were launched. */
  datatype Service = Service(root: Id, state: RunState, tasks: nat)

  /** The outcome of one pass of a loop task: the service and the world after
      it, the time waited (`None` when an update aborted the pass), whether
      the loop task left its loop, and the error that ended it, if one did. */
  datatype Step = Step(svc: Service, world: World, sleep: Option<int>, done: bool, error: Option<Error>)

  function NewService(root: Id): (r: Service)
    ensures r.root == root && r.state == Stopped && r.tasks == 0
  {
    Service(root, Stopped, 0)
  }

  /** `is_running`: a service that was asked to stop but whose loop has not
      ended yet still counts as running. */
  predicate IsRunning(svc: Service): (r: bool)
    ensures r <==> svc.state == Running || svc.state == Stopping
  {
    svc.state != Stopped
  }

  /** Starting marks the service running and launches another loop task,
      whatever the state was. */
  function StartService(svc: Service): (r: Service)
    ensures r.root == svc.root && r.state == Running && r.tasks == svc.tasks + 1
  {
    svc.(state := Running, tasks := svc.tasks + 1)
  }

  /** Stopping marks a service that is not stopped as stopping. */
  function StopService(svc: Service): (r: Service)
    ensures svc.state != Stopped ==> r == svc.(state := Stopping)
    ensures svc.state == Stopped ==> r == svc
  {
    if svc.state != Stopped then svc.(state := Stopping) else svc
  }

  /** The full cycle of a pass, against a start time read when it begins. */
  function PassCycle(g: Graph, svc: Service, w: World, rule: NextRule, fails: set<Id>): (r: CycleState)
    requires Valid(g) && svc.root in g.nodes
    ensures r.error.None? || r.error == Some(RunFailed)
  {
    CycleFailsOnlyByRun(g, svc.root, NonStrict, rule, w.stamps, w.clock, w.clock + 1, fails);
    FullCycle(g, svc.root, NonStrict, rule, w.stamps, w.clock, w.clock + 1, fails)
  }

  /** In a world whose stamps lie in the past, the start time a pass reads
      comes after every stamp, and the first stamp after it. */
  lemma PassStartSane(w: World)
    requires SaneWorld(w)
    ensures SaneClock(w.stamps, w.clock, w.clock + 1)
  {
  }

  /** The wait after a cycle: the first of the sleep until the next deadline
      and the stop request. A stopping service wakes at once; a sleep whose
      deadline computation fails (no deadline, or a missing last update) ends
      at once too, its error never looked at. */
  function WaitFor(state: RunState, next: Result<Option<int>>, now: int): (r: int)
    ensures r >= 0
    ensures state == Stopping ==> r == 0
    ensures state != Stopping && next.Ok? && next.value.Some? ==> r == Max(next.value.value - now, 0)
    ensures !(next.Ok? && next.value.Some?) ==> r == 0
  {
    if state == Stopping then 0
    else match next
      case Ok(Some(n)) => Max(n - now, 0)
      case _ => 0
  }

  /** One pass of a loop task. The cycle runs whatever the state, and an
      aborted cycle ends the loop task. Otherwise the task waits until the
      next deadline, or not at all when the service is stopping. `stopAt` is
      the time of the next stop request, if one comes: a request made before
      the wait is over, during an item's update or during the wait, marks a
      service that is not stopped as stopping and so ends the wait when it is
      made. After the wait the task leaves its loop unless the service is
      still running, and leaving marks the service stopped. */
  function Iterate(g: Graph, svc: Service, w: World, rule: NextRule, fails: set<Id>, stopAt: Option<int>): (r: Step)
    requires Valid(g) && svc.root in g.nodes
    ensures r.world.stamps == PassCycle(g, svc, w, rule, fails).stamps
    ensures r.svc.root == svc.root && r.svc.tasks == svc.tasks
    ensures r.done <==> r.svc.state == Stopped
    ensures !r.done ==> r.svc == svc
    ensures r.error.Some? <==> r.sleep.None?
    ensures r.error.Some? ==> r.error == PassCycle(g, svc, w, rule, fails).error && r.done
    ensures r.sleep.Some? ==>
              && 0 <= r.sleep.value
              && r.world.clock == PassCycle(g, svc, w, rule, fails).clock + r.sleep.value
    ensures r.error.None? ==>
              (r.done <==> svc.state != Running || (stopAt.Some? && stopAt.value <= r.world.clock))
  {
    var st := PassCycle(g, svc, w, rule, fails);
    if st.error.Some? then Step(svc.(state := Stopped), World(st.stamps, st.clock), None, true, st.error)
    else AfterCycle(svc, st, CalcNextUpdate(g, st.stamps, svc.root, rule), stopAt)
  }

  /** The rest of a pass after a cycle `st` that no update aborted, with
      `next` the computed next deadline: the wait, cut short by a stop
      request, and the state check that follows it. */
  function AfterCycle(svc: Service, st: CycleState, next: Result<Option<int>>, stopAt: Option<int>): Step
  {
    var full := WaitFor(svc.state, next, st.clock);
    var stopped := svc.state != Stopped && stopAt.Some? && stopAt.value <= st.clock + full;
    var sleep := if stopped then Max(stopAt.value - st.clock, 0) else full;
    var svc' := if stopped then StopService(svc) else svc;
    var w' := World(st.stamps, st.clock + sleep);
    if svc'.state != Running then Step(svc.(state := Stopped), w', Some(sleep), true, None)
    else Step(svc, w', Some(sleep), false, None)
  }

  // ---------------------------------------------------------------------------
  // Life cycle

  /** A new service is stopped. Starting is not guarded: starting twice
      launches two loop tasks. Stopping a running or stopping service makes it
      stopping, still reported running; stopping a stopped one does nothing. */
  lemma Lifecycle(root: Id, svc: Service)
    ensures !IsRunning(NewService(root))
    ensures StartService(StartService(svc)).tasks == svc.tasks + 2
    ensures IsRunning(StartService(svc))
    ensures svc.state != Stopped ==> StopService(svc).state == Stopping && IsRunning(StopService(svc))
    ensures StopService(StopService(svc)) == StopService(svc)
    ensures StopService(NewService(root)) == NewService(root)
  {
  }

  /** A loop task leaves its loop after a pass exactly when the service is no
      longer running, an update raised, or a stop request came before the
      pass was over; leaving means the service is stopped; the first pass of a
      task runs its cycle even when the service is already stopping; and a
      stopping service does not sleep. */
  lemma LoopExit(g: Graph, svc: Service, w: World, rule: NextRule, fails: set<Id>, stopAt: Option<int>)
    requires Valid(g) && svc.root in g.nodes
    ensures var r := Iterate(g, svc, w, rule, fails, stopAt);
            && (r.done <==> svc.state != Running || r.error.Some? || (stopAt.Some? && stopAt.value <= r.world.clock))
            && (r.done ==> !IsRunning(r.svc))
            && (svc.state == Stopping ==> r.done && (r.sleep.None? || r.sleep == Some(0)))
  {
  }

  /** A stop request made while the cycle of a running pass is still going
      on ends the loop task after that pass, without a sleep: the request
      takes effect in the pass during which it is made, not one cycle later. */
  lemma StopDuringCycleEndsLoop(g: Graph, svc: Service, w: World, rule: NextRule, fails: set<Id>, t: int)
    requires Valid(g) && svc.root in g.nodes && svc.state == Running
    requires t <= PassCycle(g, svc, w, rule, fails).clock
    ensures var r := Iterate(g, svc, w, rule, fails, Some(t));
            && r.done && r.svc.state == Stopped
            && (r.sleep.None? || r.sleep == Some(0))
            && r.world.stamps == PassCycle(g, svc, w, rule, fails).stamps
  {
  }

  /** A stop request made during the sleep of a running pass cuts the sleep
      short: the pass ends when the request is made, and the loop task leaves
      its loop. A request made after the sleep is over leaves the pass
      untouched. */
  lemma StopDuringSleep(g: Graph, svc: Service, w: World, rule: NextRule, fails: set<Id>, t: int)
    requires Valid(g) && svc.root in g.nodes && svc.state == Running
    requires PassCycle(g, svc, w, rule, fails).error.None?
    ensures var st := PassCycle(g, svc, w, rule, fails);
            var full := Iterate(g, svc, w, rule, fails, None).sleep.value;
            var r := Iterate(g, svc, w, rule, fails, Some(t));
            && (st.clock <= t <= st.clock + full ==> r.done && r.world.clock == t && r.sleep == Some(t - st.clock))
            && (t > st.clock + full ==> r == Iterate(g, svc, w, rule, fails, None))
  {
  }

  // ---------------------------------------------------------------------------
  // One pass of the loop

  /** After a cycle that no update aborted every item of the update list has
      a last-update time, so the next-time calculation cannot fail, whichever
      item class is used. */
  lemma NextTimeDefinedAfterCycle(g: Graph, svc: Service, w: World, rule: NextRule, fails: set<Id>)
    requires Valid(g) && svc.root in g.nodes
    requires PassCycle(g, svc, w, rule, fails).error.None?
    ensures CalcNextUpdate(g, PassCycle(g, svc, w, rule, fails).stamps, svc.root, rule).Ok?
  {
    CycleFailsOnlyByRun(g, svc.root, NonStrict, rule, w.stamps, w.clock, w.clock + 1, fails);
    StampedNextDefined(g, PassCycle(g, svc, w, rule, fails).stamps, svc.root, rule);
  }

  /** A pass of a running service sleeps until the earliest next update time,
      and not at all when there is none: unless a stop request comes before
      that sleep is over, the loop then runs its next cycle instead of
      ending. */
  lemma RunningPassSleep(g: Graph, svc: Service, w: World, rule: NextRule, fails: set<Id>, stopAt: Option<int>)
    requires Valid(g) && svc.root in g.nodes && svc.state == Running
    requires PassCycle(g, svc, w, rule, fails).error.None?
    ensures var st := PassCycle(g, svc, w, rule, fails);
            var r := Iterate(g, svc, w, rule, fails, stopAt);
            var full := match CalcNextUpdate(g, st.stamps, svc.root, rule)
                        case Ok(Some(n)) => Max(n - st.clock, 0)
                        case _ => 0;
            && r.error.None? && r.sleep.Some? && r.sleep.value <= full
            && (!r.done <==> stopAt.None? || stopAt.value > st.clock + full)
            && (!r.done ==> r.sleep == Some(full))
  {
    var st := PassCycle(g, svc, w, rule, fails);
    var next := CalcNextUpdate(g, st.stamps, svc.root, rule);
    assert Iterate(g, svc, w, rule, fails, stopAt) == AfterCycle(svc, st, next, stopAt);
    RunningAfterCycle(svc, st, next, stopAt);
  }

  /** `RunningPassSleep` for any cycle outcome and deadline. */
  lemma RunningAfterCycle(svc: Service, st: CycleState, next: Result<Option<int>>, stopAt: Option<int>)
    requires svc.state == Running
    ensures var r := AfterCycle(svc, st, next, stopAt);
            var full := match next
                        case Ok(Some(n)) => Max(n - st.clock, 0)
                        case _ => 0;
            && r.error.None? && r.sleep.Some? && r.sleep.value <= full
            && (!r.done <==> stopAt.None? || stopAt.value > st.clock + full)
            && (!r.done ==> r.sleep == Some(full))
  {
  }

  /** The only error that ends a loop task is an item's own update raising. */
  lemma LoopErrors(g: Graph, svc: Service, w: World, rule: NextRule, fails: set<Id>, stopAt: Option<int>)
    requires Valid(g) && svc.root in g.nodes
    ensures var e := Iterate(g, svc, w, rule, fails, stopAt).error;
            e.None? || e == Some(RunFailed)
  {
    CycleFailsOnlyByRun(g, svc.root, NonStrict, rule, w.stamps, w.clock, w.clock + 1, fails);
  }

  /** A pass keeps every stamp in the past and never moves time backwards. */
  lemma PassKeepsWorldSane(g: Graph, svc: Service, w: World, rule: NextRule, fails: set<Id>, stopAt: Option<int>)
    requires Valid(g) && svc.root in g.nodes && SaneWorld(w)
    ensures SaneWorld(Iterate(g, svc, w, rule, fails, stopAt).world)
    ensures w.clock <= Iterate(g, svc, w, rule, fails, stopAt).world.clock
    ensures w.stamps.Keys <= Iterate(g, svc, w, rule, fails, stopAt).world.stamps.Keys
  {
    var list := UpdateList(g, svc.root);
    RunKeepsPast(g, NonStrict, rule, list, |list|, CycleState(w.stamps, w.clock + 1, None), w.clock, fails);
  }

  /** With the non-strict comparison a pass that no update aborted leaves
      every item of the update list stamped strictly after each of its
      transitive dependencies. */
  lemma PassOrdersStrictly(g: Graph, svc: Service, w: World, rule: NextRule, fails: set<Id>, stopAt: Option<int>)
    requires Valid(g) && svc.root in g.nodes && NonNegativeIntervals(g) && SaneWorld(w)
    requires Iterate(g, svc, w, rule, fails, stopAt).error.None?
    ensures var s' := Iterate(g, svc, w, rule, fails, stopAt).world.stamps;
            forall y, d :: y in UpdateList(g, svc.root) && DependsOn(g, y, d) ==>
              y in s' && d in s' && s'[d] < s'[y]
  {
    PassCycleOrdersStrictly(g, svc, w, rule, fails);
  }

  /** The cycle of a pass under the non-strict comparison. */
  lemma PassCycleOrdersStrictly(g: Graph, svc: Service, w: World, rule: NextRule, fails: set<Id>)
    requires Valid(g) && svc.root in g.nodes && NonNegativeIntervals(g) && SaneWorld(w)
    requires PassCycle(g, svc, w, rule, fails).error.None?
    ensures var s' := PassCycle(g, svc, w, rule, fails).stamps;
            forall y, d :: y in UpdateList(g, svc.root) && DependsOn(g, y, d) ==>
              y in s' && d in s' && s'[d] < s'[y]
  {
    CycleLeavesItemsCalm(g, svc.root, NonStrict, rule, w.stamps, w.clock, w.clock + 1, fails);
  }
}
