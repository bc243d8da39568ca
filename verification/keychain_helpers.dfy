/** The helper functions the thread-based service uses, for update keychains:
    the strict comparison (a dependency must be strictly newer) and the
    keychain's next-time rule (no next time without a last update). */
module KeychainHelpers {
  import opened Outcomes
  import opened DependencyGraph
  import opened Staleness

  /** Due by time: never updated, or an interval that has elapsed by `start`. */
  function HaveUpdateTimeCome(g: Graph, s: Stamps, x: Id, start: int): (r: bool)
    requires x in g.nodes
    ensures x !in s ==> r
    ensures x in s ==> (r <==> g.nodes[x].interval.Some? && s[x] + g.nodes[x].interval.value <= start)
  {
    TimeHasCome(g, s, x, start, KeychainRule)
  }

  /** The transitive dependencies of `x`, each after its own dependencies,
      `x` itself excluded. */
  function DependenciesList(g: Graph, x: Id): (r: seq<Id>)
    requires Valid(g) && x in g.nodes
    ensures forall d :: d in r <==> DependsOn(g, x, d)
    ensures x !in r
    ensures AllIn(g, r) && DepsBefore(g, r)
  {
    FlattenMembers(g, x);
    FlattenExcludesSelf(g, x);
    FlattenOrder(g, x);
    Flatten(g, x)
  }

  /** Some transitive dependency was updated strictly after `x`; comparing
      with a missing time fails. */
  function HaveDependenciesBeenUpdated(g: Graph, s: Stamps, x: Id): (r: Result<bool>)
    requires Valid(g) && x in g.nodes
    ensures r.Err? ==> r.error == MissingTimestamp
    ensures x in s && DepsStamped(g, s, x) ==>
              r == Ok(exists d :: DependsOn(g, x, d) && s[d] > s[x])
    ensures r.Err? ==> x !in s || exists d :: DependsOn(g, x, d) && d !in s
    ensures x !in s && (exists d :: DependsOn(g, x, d)) ==> r == Err(MissingTimestamp)
    ensures (&& x in s
             && (exists d :: DependsOn(g, x, d) && d !in s)
             && !(exists d :: DependsOn(g, x, d) && d in s && s[d] > s[x])) ==>
              r == Err(MissingTimestamp)
    ensures r == Ok(true) ==> x in s && exists d :: DependsOn(g, x, d) && d in s && s[d] > s[x]
  {
    DepsUpdated(g, s, x, Strict)
  }

  /** An item needs an update when its time has come, or else when a
      dependency is strictly newer. */
  function IsNeedUpdateItem(g: Graph, s: Stamps, x: Id, start: int): (r: Result<bool>)
    requires Valid(g) && x in g.nodes
    ensures x !in s ==> r == Ok(true)
    ensures HaveUpdateTimeCome(g, s, x, start) ==> r == Ok(true)
    ensures r.Err? ==> r.error == MissingTimestamp
    ensures DepsStamped(g, s, x) ==>
              r == Ok(HaveUpdateTimeCome(g, s, x, start) || exists d :: DependsOn(g, x, d) && s[d] > s[x])
    ensures r.Err? ==> !HaveUpdateTimeCome(g, s, x, start) && exists d :: DependsOn(g, x, d) && d !in s
    ensures (&& !HaveUpdateTimeCome(g, s, x, start)
             && (exists d :: DependsOn(g, x, d) && d !in s)
             && !(exists d :: DependsOn(g, x, d) && d in s && s[d] > s[x])) ==>
              r == Err(MissingTimestamp)
  {
    IsDue(g, s, x, start, Strict, KeychainRule)
  }

  /** A keychain updated at time 0 with a ten-minute interval, depending on
      one that was never updated: asked at time 1 whether it needs an update,
      the dependency comparison meets the missing time and raises. */
  lemma UnstampedDependencyRaises()
    ensures var g := Graph(map[1 := Node(Some(600), []), 2 := Node(Some(600), [1])], map[1 := 0, 2 := 1]);
            && Valid(g)
            && IsNeedUpdateItem(g, map[2 := 0], 2, 1) == Err(MissingTimestamp)
  {
    var g := Graph(map[1 := Node(Some(600), []), 2 := Node(Some(600), [1])], map[1 := 0, 2 := 1]);
    assert Valid(g);
    assert DependsOn(g, 2, 1) by {
      assert 1 in g.nodes[2].deps;
    }
    assert forall d :: !DependsOn(g, 1, d) by {
      assert g.nodes[1].deps == [];
    }
    assert forall d :: DependsOn(g, 2, d) ==> d == 1 by {
      assert g.nodes[2].deps == [1];
    }
  }

  /** When every item has a last update, one transitive dependency updated
      strictly after `x` makes `x` need an update. */
  lemma NewerDependencyMakesDue(g: Graph, s: Stamps, x: Id, d: Id, start: int)
    requires Valid(g) && x in g.nodes && g.nodes.Keys <= s.Keys
    requires DependsOn(g, x, d) && d in s && s[d] > s[x]
    ensures IsNeedUpdateItem(g, s, x, start) == Ok(true)
  {
    forall e | DependsOn(g, x, e)
      ensures e in s
    {
      DependsOnFacts(g, x, e);
    }
  }

  /** Four keychains with a ten-minute interval, 2 and 3 depending on 1 and 4
      on both: all are stamped at time 0, then 1 alone again at time 1. Asked
      at time 0, each of 2, 3 and 4 needs an update through its dependency on
      1, directly or transitively. */
  lemma NewerDependencyPropagates()
    ensures var g := Graph(map[1 := Node(Some(600), []), 2 := Node(Some(600), [1]),
                               3 := Node(Some(600), [1]), 4 := Node(Some(600), [2, 3])],
                           map[1 := 0, 2 := 1, 3 := 1, 4 := 2]);
            var s := map[1 := 1, 2 := 0, 3 := 0, 4 := 0];
            && Valid(g)
            && IsNeedUpdateItem(g, s, 2, 0) == Ok(true)
            && IsNeedUpdateItem(g, s, 3, 0) == Ok(true)
            && IsNeedUpdateItem(g, s, 4, 0) == Ok(true)
  {
    var g := Graph(map[1 := Node(Some(600), []), 2 := Node(Some(600), [1]),
                       3 := Node(Some(600), [1]), 4 := Node(Some(600), [2, 3])],
                   map[1 := 0, 2 := 1, 3 := 1, 4 := 2]);
    var s := map[1 := 1, 2 := 0, 3 := 0, 4 := 0];
    assert Valid(g);
    assert g.nodes.Keys <= s.Keys;
    assert DependsOn(g, 2, 1) by {
      assert 1 in g.nodes[2].deps;
    }
    NewerDependencyMakesDue(g, s, 2, 1, 0);
    assert DependsOn(g, 3, 1) by {
      assert 1 in g.nodes[3].deps;
    }
    NewerDependencyMakesDue(g, s, 3, 1, 0);
    assert DependsOn(g, 4, 1) by {
      assert 2 in g.nodes[4].deps && DependsOn(g, 2, 1);
    }
    NewerDependencyMakesDue(g, s, 4, 1, 0);
  }

  /** Two keychains stamped at time 0, item 7 with a one-second interval
      depending on item 6 with a ten-minute one: at time 2 item 7 needs an
      update because its own interval has elapsed. */
  lemma ElapsedIntervalMakesDue()
    ensures var g := Graph(map[6 := Node(Some(600), []), 7 := Node(Some(1), [6])], map[6 := 0, 7 := 1]);
            && Valid(g)
            && IsNeedUpdateItem(g, map[6 := 0, 7 := 0], 7, 2) == Ok(true)
  {
    var g := Graph(map[6 := Node(Some(600), []), 7 := Node(Some(1), [6])], map[6 := 0, 7 := 1]);
    assert Valid(g);
    assert HaveUpdateTimeCome(g, map[6 := 0, 7 := 0], 7, 2);
  }

  /** With the keychain rule the next-time calculation never fails. */
  lemma KeychainNextNeverFails(g: Graph, s: Stamps, root: Id)
    requires Valid(g) && root in g.nodes
    ensures CalcNextUpdate(g, s, root, KeychainRule).Ok?
  {
    forall y | y in UpdateList(g, root)
      ensures NextTime(g, s, y, KeychainRule).Ok?
    {
    }
  }

  /** The earliest next update time over `x` and its dependencies, `None`
      when no item of them has both an interval and a last update. */
  function CalcNextUpdateTime(g: Graph, s: Stamps, x: Id): (r: Option<int>)
    requires Valid(g) && x in g.nodes
    ensures r.None? <==> forall y :: y in UpdateList(g, x) ==> NextTime(g, s, y, KeychainRule) == Ok(None)
    ensures r.Some? ==>
              && (forall y :: y in UpdateList(g, x) && y in s && g.nodes[y].interval.Some? ==>
                    r.value <= s[y] + g.nodes[y].interval.value)
              && exists y :: y in UpdateList(g, x) && y in s && g.nodes[y].interval.Some? &&
                    r.value == s[y] + g.nodes[y].interval.value
  {
    KeychainNextNeverFails(g, s, x);
    CalcNextUpdate(g, s, x, KeychainRule).value
  }
}
