/** One full update cycle: the items of the update list are visited in order
    against one captured start time, and every item found due is updated and
    stamped with the current time. Time is a counter: `clock` is the time the
    next stamp gets, and every stamp advances it by one, so stamps within a
    cycle strictly increase. */
module Cycle {
  import opened Outcomes
  import opened DependencyGraph
  import opened Staleness
  import UpdateKeychain
  import KeychainItem
  import Items

  /** The stamps so far, the current time, and the error that aborted the
      cycle, if one did. */
  datatype CycleState = CycleState(stamps: Stamps, clock: int, error: Option<Error>)

  /** Visiting one item: ask whether it is due; if so, run its update (which
      raises exactly when the item is in `fails`) and stamp it with the current
      time. Any error aborts the rest of the cycle. */
  function Visit(g: Graph, cmp: Comparison, rule: NextRule, x: Id, st: CycleState, start: int, fails: set<Id>): (r: CycleState)
    requires Valid(g) && x in g.nodes
  {
    if st.error.Some? then st
    else
      match IsDue(g, st.stamps, x, start, cmp, rule)
      case Err(e) => st.(error := Some(e))
      case Ok(due) =>
        if !due then st
        else if x in fails then st.(error := Some(RunFailed))
        else CycleState(st.stamps[x := st.clock], st.clock + 1, None)
  }

  /** A visit after an error changes nothing. Otherwise it either changes
      nothing or stamps the item with the current time and advances the
      clock; it updates the item exactly when the item is found due and its
      own update succeeds, and it ends with an error exactly when the check
      raised or the update did. */
  lemma VisitUpdatesIffDue(g: Graph, cmp: Comparison, rule: NextRule, x: Id, st: CycleState, start: int, fails: set<Id>)
    requires Valid(g) && x in g.nodes
    ensures var r := Visit(g, cmp, rule, x, st, start, fails);
            && (st.error.Some? ==> r == st)
            && ((r.stamps == st.stamps && r.clock == st.clock) ||
                (r.stamps == st.stamps[x := st.clock] && r.clock == st.clock + 1 && r.error.None?))
    ensures var r := Visit(g, cmp, rule, x, st, start, fails);
            var due := IsDue(g, st.stamps, x, start, cmp, rule);
            st.error.None? ==>
              && (r.clock == st.clock + 1 <==> due == Ok(true) && x !in fails)
              && (r.error.Some? <==> due.Err? || (due == Ok(true) && x in fails))
              && (due.Err? ==> r.error == Some(due.error))
  {
  }

  /** Updating a due item in a visit is the item's own update: for a
      keychain-based item and for a stand-alone item alike, the run succeeds
      exactly when the visit raises no error, and the item's last-update time
      afterwards is the stamp the visit leaves. */
  lemma VisitRunsItemUpdate(g: Graph, cmp: Comparison, rule: NextRule, x: Id, st: CycleState, start: int,
                            fails: set<Id>, k: UpdateKeychain.Keychain, it: Items.Item)
    requires Valid(g) && x in g.nodes && st.error.None?
    requires IsDue(g, st.stamps, x, start, cmp, rule) == Ok(true)
    requires UpdateKeychain.GetLastUpdate(k) == Lookup(st.stamps, x) && it.last == Lookup(st.stamps, x)
    ensures var r := Visit(g, cmp, rule, x, st, start, fails);
            var u := KeychainItem.Update(k, st.clock, x !in fails);
            var v := Items.UpdateAsync(it, st.clock, x !in fails);
            && r.error == u.error && r.error == v.error
            && UpdateKeychain.GetLastUpdate(u.item) == Lookup(r.stamps, x)
            && v.item.last == Lookup(r.stamps, x)
  {
  }

  /** The state after visiting the first `k` items of `list`. */
  function RunTo(g: Graph, cmp: Comparison, rule: NextRule, list: seq<Id>, k: nat, st0: CycleState, start: int, fails: set<Id>): (r: CycleState)
    requires Valid(g) && AllIn(g, list) && k <= |list|
    ensures st0.error.Some? ==> r == st0
    ensures st0.clock <= r.clock <= st0.clock + k
    ensures st0.stamps.Keys <= r.stamps.Keys
  {
    if k == 0 then st0
    else Visit(g, cmp, rule, list[k - 1], RunTo(g, cmp, rule, list, k - 1, st0, start, fails), start, fails)
  }

  /** `_update_items_full_cycle` / `_update_items`: visit the flattening of
      `root` and then `root`, against the cycle start time `start`, with the
      first stamp at `clock`. */
  function FullCycle(g: Graph, root: Id, cmp: Comparison, rule: NextRule, s: Stamps, start: int, clock: int, fails: set<Id>): (r: CycleState)
    requires Valid(g) && root in g.nodes
    ensures r.error.None? || r.error == Some(RunFailed)
  {
    var list := UpdateList(g, root);
    ReachedItemsStamped(g, cmp, rule, list, |list|, CycleState(s, clock, None), start, fails);
    RunTo(g, cmp, rule, list, |list|, CycleState(s, clock, None), start, fails)
  }

  // ---------------------------------------------------------------------------
  // Every dependency is stamped by the time its dependent is reached.

  ghost predicate Visited(list: seq<Id>, k: nat, s: Stamps)
    requires k <= |list|
  {
    forall i :: 0 <= i < k ==> list[i] in s
  }

  /** After `k` visits: no error and the first `k` items stamped, or an
      error raised by an item's own update. */
  ghost predicate ReachedSoFar(list: seq<Id>, k: nat, st: CycleState)
    requires k <= |list|
  {
    (st.error.None? ==> Visited(list, k, st.stamps)) &&
    (st.error.Some? ==> st.error == Some(RunFailed))
  }

  /** One visit keeps `ReachedSoFar`: an item whose dependencies are all
      stamped is either stamped by its visit, or found stamped, or fails in its
      own update. */
  lemma VisitKeepsReached(g: Graph, cmp: Comparison, rule: NextRule, list: seq<Id>, k: nat,
                          st: CycleState, start: int, fails: set<Id>)
    requires Valid(g) && AllIn(g, list) && DepsBefore(g, list) && k < |list|
    requires ReachedSoFar(list, k, st)
    ensures ReachedSoFar(list, k + 1, Visit(g, cmp, rule, list[k], st, start, fails))
  {
    var x := list[k];
    if st.error.None? {
      assert DepsStamped(g, st.stamps, x) by {
        forall d | DependsOn(g, x, d)
          ensures d in st.stamps
        {
          assert d in list[..k];
        }
      }
    }
  }

  lemma {:induction false} ReachedItemsStamped(g: Graph, cmp: Comparison, rule: NextRule, list: seq<Id>, k: nat,
                                               st0: CycleState, start: int, fails: set<Id>)
    requires Valid(g) && AllIn(g, list) && DepsBefore(g, list) && k <= |list|
    requires st0.error.None?
    ensures ReachedSoFar(list, k, RunTo(g, cmp, rule, list, k, st0, start, fails))
  {
    if k > 0 {
      var j := k - 1;
      ReachedItemsStamped(g, cmp, rule, list, j, st0, start, fails);
      var st := RunTo(g, cmp, rule, list, j, st0, start, fails);
      VisitKeepsReached(g, cmp, rule, list, j, st, start, fails);
    }
  }

  /** The headline property: when a cycle reaches the item at position `k` of
      the update list without an earlier error, every transitive dependency of
      that item already has a last-update time, so the dependency comparison
      never meets a missing value. */
  lemma DependenciesStampedWhenReached(g: Graph, root: Id, cmp: Comparison, rule: NextRule, s: Stamps,
                                       start: int, clock: int, fails: set<Id>, k: nat)
    requires Valid(g) && root in g.nodes && k < |UpdateList(g, root)|
    requires RunTo(g, cmp, rule, UpdateList(g, root), k, CycleState(s, clock, None), start, fails).error.None?
    ensures DepsStamped(g, RunTo(g, cmp, rule, UpdateList(g, root), k, CycleState(s, clock, None), start, fails).stamps,
                        UpdateList(g, root)[k])
  {
    var list := UpdateList(g, root);
    ReachedItemsStamped(g, cmp, rule, list, k, CycleState(s, clock, None), start, fails);
    var st := RunTo(g, cmp, rule, list, k, CycleState(s, clock, None), start, fails);
    forall d | DependsOn(g, list[k], d)
      ensures d in st.stamps
    {
      assert d in list[..k];
    }
  }

  /** Consequently a full cycle can only be aborted by an item's own update:
      never by a comparison with a missing time, from any starting stamps. */
  lemma CycleFailsOnlyByRun(g: Graph, root: Id, cmp: Comparison, rule: NextRule, s: Stamps,
                            start: int, clock: int, fails: set<Id>)
    requires Valid(g) && root in g.nodes
    ensures var st := FullCycle(g, root, cmp, rule, s, start, clock, fails);
            st.error.None? || st.error == Some(RunFailed)
    ensures var st := FullCycle(g, root, cmp, rule, s, start, clock, fails);
            st.error.None? ==> forall y :: y in UpdateList(g, root) ==> y in st.stamps
  {
    var list := UpdateList(g, root);
    ReachedItemsStamped(g, cmp, rule, list, |list|, CycleState(s, clock, None), start, fails);
  }

  /** Every stamp lies before the current time. */
  predicate InPast(st: CycleState)
  {
    forall y :: y in st.stamps ==> st.stamps[y] < st.clock
  }

  /** A visit keeps every stamp in the past, never moves time backwards and
      never forgets a stamp. */
  lemma VisitKeepsPast(g: Graph, cmp: Comparison, rule: NextRule, x: Id, st: CycleState, start: int, fails: set<Id>)
    requires Valid(g) && x in g.nodes && InPast(st)
    ensures var st' := Visit(g, cmp, rule, x, st, start, fails);
            InPast(st') && st.clock <= st'.clock && st.stamps.Keys <= st'.stamps.Keys
  {
  }

  /** A run keeps every stamp in the past, never moves time backwards and
      never forgets a stamp. */
  lemma {:induction false} RunKeepsPast(g: Graph, cmp: Comparison, rule: NextRule, list: seq<Id>, k: nat,
                                        st0: CycleState, start: int, fails: set<Id>)
    requires Valid(g) && AllIn(g, list) && k <= |list| && InPast(st0)
    ensures var st := RunTo(g, cmp, rule, list, k, st0, start, fails);
            InPast(st) && st0.clock <= st.clock && st0.stamps.Keys <= st.stamps.Keys
  {
    if k > 0 {
      var j := k - 1;
      RunKeepsPast(g, cmp, rule, list, j, st0, start, fails);
      var st := RunTo(g, cmp, rule, list, j, st0, start, fails);
      VisitKeepsPast(g, cmp, rule, list[j], st, start, fails);
    }
  }

  // ---------------------------------------------------------------------------
  // Under a well-behaved clock a cycle leaves every visited item not due, and
  // updates exactly the items a declarative rule predicts.

  /** No interval is negative. */
  predicate NonNegativeIntervals(g: Graph)
  {
    forall x :: x in g.nodes && g.nodes[x].interval.Some? ==> g.nodes[x].interval.value >= 0
  }

  /** The clock is sane at the start of a cycle: no existing stamp is after the
      cycle start, and the first stamp of the cycle is after it. */
  predicate SaneClock(s: Stamps, start: int, clock: int)
  {
    (forall y :: y in s ==> s[y] <= start) && start < clock
  }

  /** Which items a cycle starting from stamps `s0` updates: those whose time
      has come, those already stale, and those with a direct dependency that
      the cycle updates. */
  ghost predicate WillUpdate(g: Graph, s0: Stamps, start: int, cmp: Comparison, rule: NextRule, x: Id)
    requires Valid(g) && x in g.nodes
    decreases g.rank[x]
  {
    TimeHasCome(g, s0, x, start, rule) || Stale(g, s0, x, cmp) ||
    exists c :: c in g.nodes[x].deps && WillUpdate(g, s0, start, cmp, rule, c)
  }

  lemma {:induction false} WillUpdateUpward(g: Graph, s0: Stamps, start: int, cmp: Comparison, rule: NextRule, x: Id, d: Id)
    requires Valid(g) && x in g.nodes && DependsOn(g, x, d)
    requires d in g.nodes && WillUpdate(g, s0, start, cmp, rule, d)
    ensures WillUpdate(g, s0, start, cmp, rule, x)
    decreases g.rank[x]
  {
    var c :| c in g.nodes[x].deps && (c == d || DependsOn(g, c, d));
    if c != d {
      WillUpdateUpward(g, s0, start, cmp, rule, c, d);
    }
  }

  /** An item that a revisit in the same cycle would not update: stamped, its
      time not come, not stale, and stamped after each dependency updated in
      this cycle. */
  ghost predicate Calm(g: Graph, s: Stamps, x: Id, start: int, cmp: Comparison, rule: NextRule)
    requires Valid(g) && x in g.nodes
  {
    && x in s
    && !TimeHasCome(g, s, x, start, rule)
    && !Stale(g, s, x, cmp)
    && forall d :: DependsOn(g, x, d) && d in s && s[d] > start ==> s[d] < s[x]
  }

  /** What may have changed since the cycle began: only items among the first
      `k` of the list, and each of those only to a stamp of this cycle. */
  ghost predicate Framed(s0: Stamps, s: Stamps, list: seq<Id>, k: nat, clock0: int, clock: int)
    requires k <= |list|
  {
    && (forall y :: y in s0 ==> y in s)
    && (forall y :: y in s ==> s[y] < clock)
    && (forall y :: y in s ==> (y in s0 && s[y] == s0[y]) || (clock0 <= s[y] && y in list[..k]))
  }

  /** The first `k` items of the list: calm, and updated iff `WillUpdate` says so. */
  ghost predicate SettledPrefix(g: Graph, s0: Stamps, s: Stamps, list: seq<Id>, k: nat, start: int, cmp: Comparison, rule: NextRule)
    requires Valid(g) && AllIn(g, list) && k <= |list|
  {
    forall i :: 0 <= i < k ==>
      Calm(g, s, list[i], start, cmp, rule) &&
      (s[list[i]] > start <==> WillUpdate(g, s0, start, cmp, rule, list[i]))
  }

  /** Stamping `x` leaves calm every other item that does not depend on `x`. */
  lemma CalmAfterOtherStamp(g: Graph, s: Stamps, y: Id, x: Id, t: int, start: int, cmp: Comparison, rule: NextRule)
    requires Valid(g) && y in g.nodes && y != x && !DependsOn(g, y, x)
    requires Calm(g, s, y, start, cmp, rule)
    ensures Calm(g, s[x := t], y, start, cmp, rule)
  {
  }

  /** An item that is stale now, before its visit, was predicted to update:
      either it was stale at the start, or a newer dependency was updated in
      this cycle. */
  lemma StaleNowPredicted(g: Graph, s0: Stamps, st: CycleState, list: seq<Id>, k: nat,
                          start: int, clock0: int, cmp: Comparison, rule: NextRule)
    requires Valid(g) && AllIn(g, list) && DepsBefore(g, list) && k < |list|
    requires SaneClock(s0, start, clock0)
    requires Visited(list, k, st.stamps) && Framed(s0, st.stamps, list, k, clock0, st.clock)
    requires SettledPrefix(g, s0, st.stamps, list, k, start, cmp, rule)
    requires list[k] !in list[..k] && list[k] in s0
    requires Stale(g, st.stamps, list[k], cmp)
    ensures WillUpdate(g, s0, start, cmp, rule, list[k])
  {
    var s := st.stamps;
    var x := list[k];
    assert s[x] == s0[x];
    var d :| DependsOn(g, x, d) && d in s && Newer(cmp, s[d], s[x]);
    assert d in list[..k];
    var i :| 0 <= i < k && list[i] == d;
    if s[d] > start {
      DependsOnFacts(g, x, d);
      WillUpdateUpward(g, s0, start, cmp, rule, x, d);
    } else {
      assert Stale(g, s0, x, cmp);
    }
  }

  /** An item predicted to update whose time has not come is stale now: it
      was stale at the start, or a direct dependency has been updated in this
      cycle. */
  lemma PredictedStaleNow(g: Graph, s0: Stamps, st: CycleState, list: seq<Id>, k: nat,
                          start: int, clock0: int, cmp: Comparison, rule: NextRule)
    requires Valid(g) && AllIn(g, list) && DepsBefore(g, list) && k < |list|
    requires SaneClock(s0, start, clock0)
    requires Visited(list, k, st.stamps) && Framed(s0, st.stamps, list, k, clock0, st.clock)
    requires SettledPrefix(g, s0, st.stamps, list, k, start, cmp, rule)
    requires list[k] !in list[..k] && list[k] in s0
    requires WillUpdate(g, s0, start, cmp, rule, list[k]) && !TimeHasCome(g, st.stamps, list[k], start, rule)
    ensures Stale(g, st.stamps, list[k], cmp)
  {
    var s := st.stamps;
    var x := list[k];
    assert s[x] == s0[x];
    if Stale(g, s0, x, cmp) {
      var d :| DependsOn(g, x, d) && d in s0 && Newer(cmp, s0[d], s0[x]);
      assert Newer(cmp, s[d], s[x]);
    } else {
      var c :| c in g.nodes[x].deps && WillUpdate(g, s0, start, cmp, rule, c);
      assert DependsOn(g, x, c);
      assert c in list[..k];
      var i :| 0 <= i < k && list[i] == c;
      assert Newer(cmp, s[c], s[x]);
    }
  }

  /** For an item not visited yet, "due now" agrees with `WillUpdate`. */
  lemma DueMatchesPrediction(g: Graph, s0: Stamps, st: CycleState, list: seq<Id>, k: nat,
                             start: int, clock0: int, cmp: Comparison, rule: NextRule)
    requires Valid(g) && AllIn(g, list) && DepsBefore(g, list) && k < |list|
    requires SaneClock(s0, start, clock0)
    requires Visited(list, k, st.stamps) && Framed(s0, st.stamps, list, k, clock0, st.clock)
    requires SettledPrefix(g, s0, st.stamps, list, k, start, cmp, rule)
    requires list[k] !in list[..k]
    ensures DepsStamped(g, st.stamps, list[k])
    ensures Lookup(st.stamps, list[k]) == Lookup(s0, list[k])
    ensures TimeHasCome(g, st.stamps, list[k], start, rule) || Stale(g, st.stamps, list[k], cmp)
            <==> WillUpdate(g, s0, start, cmp, rule, list[k])
  {
    var s := st.stamps;
    var x := list[k];
    forall d | DependsOn(g, x, d)
      ensures d in s
    {
      assert d in list[..k];
    }
    assert Lookup(s, x) == Lookup(s0, x);
    if x in s0 {
      if Stale(g, s, x, cmp) {
        StaleNowPredicted(g, s0, st, list, k, start, clock0, cmp, rule);
      }
      if WillUpdate(g, s0, start, cmp, rule, x) && !TimeHasCome(g, s, x, start, rule) {
        PredictedStaleNow(g, s0, st, list, k, start, clock0, cmp, rule);
      }
    }
  }

  /** The loop invariant of the cycle at position `k`. */
  ghost predicate Invariant(g: Graph, cmp: Comparison, rule: NextRule, list: seq<Id>, k: nat,
                            s0: Stamps, start: int, clock0: int, st: CycleState)
    requires Valid(g) && AllIn(g, list) && k <= |list|
  {
    && clock0 <= st.clock
    && Visited(list, k, st.stamps)
    && Framed(s0, st.stamps, list, k, clock0, st.clock)
    && SettledPrefix(g, s0, st.stamps, list, k, start, cmp, rule)
  }

  /** The invariant extends over an item that the visit left calm, unchanged
      and decided as predicted. */
  lemma ExtendInvariant(g: Graph, cmp: Comparison, rule: NextRule, list: seq<Id>, k: nat,
                        s0: Stamps, start: int, clock0: int, st: CycleState)
    requires Valid(g) && AllIn(g, list) && k < |list|
    requires Invariant(g, cmp, rule, list, k, s0, start, clock0, st)
    requires Calm(g, st.stamps, list[k], start, cmp, rule)
    requires st.stamps[list[k]] > start <==> WillUpdate(g, s0, start, cmp, rule, list[k])
    ensures Invariant(g, cmp, rule, list, k + 1, s0, start, clock0, st)
  {
    assert list[..k + 1] == list[..k] + [list[k]];
  }

  /** Revisiting an item already visited in this cycle changes nothing. */
  lemma RevisitStep(g: Graph, cmp: Comparison, rule: NextRule, list: seq<Id>, k: nat,
                    s0: Stamps, start: int, clock0: int, fails: set<Id>, st: CycleState)
    requires Valid(g) && AllIn(g, list) && DepsBefore(g, list) && k < |list|
    requires st.error.None? && Invariant(g, cmp, rule, list, k, s0, start, clock0, st)
    requires list[k] in list[..k]
    ensures Visit(g, cmp, rule, list[k], st, start, fails) == st
    ensures Invariant(g, cmp, rule, list, k + 1, s0, start, clock0, st)
  {
    var x := list[k];
    var s := st.stamps;
    var i :| 0 <= i < k && list[i] == x;
    assert Calm(g, s, x, start, cmp, rule);
    assert DepsStamped(g, s, x) by {
      forall d | DependsOn(g, x, d) ensures d in s { assert d in list[..i]; }
    }
    assert IsDue(g, s, x, start, cmp, rule) == Ok(false);
    ExtendInvariant(g, cmp, rule, list, k, s0, start, clock0, st);
  }

  /** A first visit that finds the item not due changes nothing. */
  lemma CalmFirstVisitStep(g: Graph, cmp: Comparison, rule: NextRule, list: seq<Id>, k: nat,
                           s0: Stamps, start: int, clock0: int, fails: set<Id>, st: CycleState)
    requires Valid(g) && AllIn(g, list) && DepsBefore(g, list) && k < |list|
    requires SaneClock(s0, start, clock0)
    requires st.error.None? && Invariant(g, cmp, rule, list, k, s0, start, clock0, st)
    requires list[k] !in list[..k]
    requires !WillUpdate(g, s0, start, cmp, rule, list[k])
    ensures Visit(g, cmp, rule, list[k], st, start, fails) == st
    ensures Invariant(g, cmp, rule, list, k + 1, s0, start, clock0, st)
  {
    var x := list[k];
    var s := st.stamps;
    DueMatchesPrediction(g, s0, st, list, k, start, clock0, cmp, rule);
    assert x in s;
    assert s[x] <= start;
    assert !Stale(g, s, x, cmp);
    assert forall d :: DependsOn(g, x, d) && d in s ==> s[d] <= s[x];
    assert Calm(g, s, x, start, cmp, rule);
    ExtendInvariant(g, cmp, rule, list, k, s0, start, clock0, st);
  }

  /** Stamping an item that no earlier item depends on keeps the earlier items calm. */
  lemma EarlierStayCalm(g: Graph, cmp: Comparison, rule: NextRule, list: seq<Id>, k: nat,
                        s: Stamps, start: int, t: int)
    requires Valid(g) && AllIn(g, list) && DepsBefore(g, list) && k < |list|
    requires list[k] !in list[..k]
    requires forall i :: 0 <= i < k ==> Calm(g, s, list[i], start, cmp, rule)
    ensures forall i :: 0 <= i < k ==> Calm(g, s[list[k] := t], list[i], start, cmp, rule)
  {
    var x := list[k];
    forall i | 0 <= i < k
      ensures Calm(g, s[x := t], list[i], start, cmp, rule)
    {
      assert list[i] != x;
      assert !DependsOn(g, list[i], x);
      CalmAfterOtherStamp(g, s, list[i], x, t, start, cmp, rule);
    }
  }

  /** An item stamped after every other stamp and after the cycle start is calm. */
  lemma StampedItemCalm(g: Graph, s: Stamps, x: Id, t: int, start: int, cmp: Comparison, rule: NextRule)
    requires Valid(g) && x in g.nodes && NonNegativeIntervals(g)
    requires DepsStamped(g, s, x) && start < t
    requires forall y :: y in s ==> s[y] < t
    ensures Calm(g, s[x := t], x, start, cmp, rule)
  {
    NoSelfDependency(g, x);
    assert forall d :: DependsOn(g, x, d) ==> d != x && d in s && s[x := t][d] < t;
    assert !Stale(g, s[x := t], x, cmp);
  }

  /** Stamping the next item, when the prediction says it is updated and the
      result is calm everywhere, extends the invariant. */
  lemma StampExtendsInvariant(g: Graph, cmp: Comparison, rule: NextRule, list: seq<Id>, k: nat,
                              s0: Stamps, start: int, clock0: int, st: CycleState)
    requires Valid(g) && AllIn(g, list) && k < |list|
    requires SaneClock(s0, start, clock0)
    requires Invariant(g, cmp, rule, list, k, s0, start, clock0, st)
    requires list[k] !in list[..k] && WillUpdate(g, s0, start, cmp, rule, list[k])
    requires forall i :: 0 <= i < k ==> Calm(g, st.stamps[list[k] := st.clock], list[i], start, cmp, rule)
    requires Calm(g, st.stamps[list[k] := st.clock], list[k], start, cmp, rule)
    ensures Invariant(g, cmp, rule, list, k + 1, s0, start, clock0,
                      CycleState(st.stamps[list[k] := st.clock], st.clock + 1, None))
  {
    var x := list[k];
    var s' := st.stamps[x := st.clock];
    assert forall i :: 0 <= i < k ==> list[i] != x;
    assert list[..k + 1] == list[..k] + [x];
    assert Framed(s0, s', list, k + 1, clock0, st.clock + 1);
  }

  /** A first visit that finds the item due stamps it with the current time
      and keeps every earlier item calm. */
  lemma UpdatingVisitStep(g: Graph, cmp: Comparison, rule: NextRule, list: seq<Id>, k: nat,
                          s0: Stamps, start: int, clock0: int, fails: set<Id>, st: CycleState)
    requires Valid(g) && AllIn(g, list) && DepsBefore(g, list) && k < |list|
    requires NonNegativeIntervals(g) && SaneClock(s0, start, clock0)
    requires st.error.None? && Invariant(g, cmp, rule, list, k, s0, start, clock0, st)
    requires list[k] !in list[..k]
    requires WillUpdate(g, s0, start, cmp, rule, list[k])
    ensures list[k] in fails ==> Visit(g, cmp, rule, list[k], st, start, fails).error == Some(RunFailed)
    ensures list[k] !in fails ==>
              Visit(g, cmp, rule, list[k], st, start, fails) == CycleState(st.stamps[list[k] := st.clock], st.clock + 1, None)
    ensures list[k] !in fails ==>
              Invariant(g, cmp, rule, list, k + 1, s0, start, clock0, Visit(g, cmp, rule, list[k], st, start, fails))
  {
    var x := list[k];
    var s := st.stamps;
    DueMatchesPrediction(g, s0, st, list, k, start, clock0, cmp, rule);
    assert IsDue(g, s, x, start, cmp, rule) == Ok(true);
    EarlierStayCalm(g, cmp, rule, list, k, s, start, st.clock);
    StampedItemCalm(g, s, x, st.clock, start, cmp, rule);
    StampExtendsInvariant(g, cmp, rule, list, k, s0, start, clock0, st);
  }

  /** One visit keeps the loop invariant. */
  lemma VisitStep(g: Graph, cmp: Comparison, rule: NextRule, list: seq<Id>, k: nat,
                  s0: Stamps, start: int, clock0: int, fails: set<Id>, st: CycleState)
    requires Valid(g) && AllIn(g, list) && DepsBefore(g, list) && k < |list|
    requires NonNegativeIntervals(g) && SaneClock(s0, start, clock0)
    requires st.error.None? && Invariant(g, cmp, rule, list, k, s0, start, clock0, st)
    ensures var st' := Visit(g, cmp, rule, list[k], st, start, fails);
            st'.error.None? ==> Invariant(g, cmp, rule, list, k + 1, s0, start, clock0, st')
  {
    var x := list[k];
    if x in list[..k] {
      RevisitStep(g, cmp, rule, list, k, s0, start, clock0, fails, st);
    } else if !WillUpdate(g, s0, start, cmp, rule, x) {
      CalmFirstVisitStep(g, cmp, rule, list, k, s0, start, clock0, fails, st);
    } else {
      UpdatingVisitStep(g, cmp, rule, list, k, s0, start, clock0, fails, st);
    }
  }

  /** The invariant of the cycle loop, established one visit at a time. */
  lemma {:induction false} SettledUpTo(g: Graph, cmp: Comparison, rule: NextRule, list: seq<Id>, k: nat,
                                       s0: Stamps, start: int, clock0: int, fails: set<Id>)
    requires Valid(g) && AllIn(g, list) && DepsBefore(g, list) && k <= |list|
    requires NonNegativeIntervals(g) && SaneClock(s0, start, clock0)
    ensures var st := RunTo(g, cmp, rule, list, k, CycleState(s0, clock0, None), start, fails);
            st.error.None? ==> Invariant(g, cmp, rule, list, k, s0, start, clock0, st)
  {
    if k > 0 {
      var j := k - 1;
      var st0 := CycleState(s0, clock0, None);
      SettledUpTo(g, cmp, rule, list, j, s0, start, clock0, fails);
      var st := RunTo(g, cmp, rule, list, j, st0, start, fails);
      if st.error.None? {
        VisitStep(g, cmp, rule, list, j, s0, start, clock0, fails, st);
      }
    }
  }

  /** What `Calm` says about one item, spelled out. */
  lemma CalmMeans(g: Graph, s: Stamps, y: Id, start: int, cmp: Comparison, rule: NextRule)
    requires Valid(g) && y in g.nodes && Calm(g, s, y, start, cmp, rule) && DepsStamped(g, s, y)
    ensures y in s && !TimeHasCome(g, s, y, start, rule)
    ensures forall d :: DependsOn(g, y, d) ==>
              && d in s
              && !Newer(cmp, s[d], s[y])
              && (s[d] > start ==> s[d] < s[y])
  {
  }

  /** After a cycle that no update aborted, every item of the update list is
      stamped and would not be due again: its time has not come, no transitive
      dependency is newer by the cycle's comparison, and every dependency the
      cycle updated was stamped strictly before it. With the non-strict
      comparison this means every dependency is strictly older than its
      dependent. */
  lemma CycleLeavesItemsCalm(g: Graph, root: Id, cmp: Comparison, rule: NextRule, s: Stamps,
                             start: int, clock: int, fails: set<Id>)
    requires Valid(g) && root in g.nodes
    requires NonNegativeIntervals(g) && SaneClock(s, start, clock)
    requires FullCycle(g, root, cmp, rule, s, start, clock, fails).error.None?
    ensures var s' := FullCycle(g, root, cmp, rule, s, start, clock, fails).stamps;
            forall y :: y in UpdateList(g, root) ==>
              && y in s'
              && !TimeHasCome(g, s', y, start, rule)
              && forall d :: DependsOn(g, y, d) ==>
                   && d in s'
                   && !Newer(cmp, s'[d], s'[y])
                   && (s'[d] > start ==> s'[d] < s'[y])
  {
    var list := UpdateList(g, root);
    SettledUpTo(g, cmp, rule, list, |list|, s, start, clock, fails);
    var s' := FullCycle(g, root, cmp, rule, s, start, clock, fails).stamps;
    forall y | y in list
      ensures && y in s'
              && !TimeHasCome(g, s', y, start, rule)
              && forall d :: DependsOn(g, y, d) ==>
                   && d in s'
                   && !Newer(cmp, s'[d], s'[y])
                   && (s'[d] > start ==> s'[d] < s'[y])
    {
      ListedItemCalm(g, list, s', y, start, cmp, rule);
    }
  }

  /** A calm item of a dependency-ordered list whose items are all stamped. */
  lemma ListedItemCalm(g: Graph, list: seq<Id>, s: Stamps, y: Id, start: int, cmp: Comparison, rule: NextRule)
    requires Valid(g) && AllIn(g, list) && DepsBefore(g, list) && y in list
    requires Visited(list, |list|, s)
    requires forall i :: 0 <= i < |list| ==> Calm(g, s, list[i], start, cmp, rule)
    ensures y in s && !TimeHasCome(g, s, y, start, rule)
    ensures forall d :: DependsOn(g, y, d) ==>
              && d in s
              && !Newer(cmp, s[d], s[y])
              && (s[d] > start ==> s[d] < s[y])
  {
    var i :| 0 <= i < |list| && list[i] == y;
    assert DepsStamped(g, s, y) by {
      forall d | DependsOn(g, y, d) ensures d in s { assert d in list[..i]; }
    }
    CalmMeans(g, s, y, start, cmp, rule);
  }

  /** A cycle updates exactly the items of the update list that `WillUpdate`
      predicts, each with a stamp of this cycle, and leaves every other stamp
      as it was. */
  lemma CycleUpdatesExactlyPredicted(g: Graph, root: Id, cmp: Comparison, rule: NextRule, s: Stamps,
                                     start: int, clock: int, fails: set<Id>)
    requires Valid(g) && root in g.nodes
    requires NonNegativeIntervals(g) && SaneClock(s, start, clock)
    requires FullCycle(g, root, cmp, rule, s, start, clock, fails).error.None?
    ensures var s' := FullCycle(g, root, cmp, rule, s, start, clock, fails).stamps;
            forall y :: y in UpdateList(g, root) ==>
              y in s' && (s'[y] > start <==> WillUpdate(g, s, start, cmp, rule, y))
    ensures var s' := FullCycle(g, root, cmp, rule, s, start, clock, fails).stamps;
            forall y :: y in s' ==> (y in s && s'[y] == s[y]) || (clock <= s'[y] && y in UpdateList(g, root))
    ensures var s' := FullCycle(g, root, cmp, rule, s, start, clock, fails).stamps;
            forall y :: y in s ==> y in s'
  {
    var list := UpdateList(g, root);
    SettledUpTo(g, cmp, rule, list, |list|, s, start, clock, fails);
    assert list[..|list|] == list;
  }
}
