/** The staleness policy and the next-wake calculation, shared by the helper
    modules of the services. Two choices vary between the copies in the
    source: the comparison of a dependency's last update with the item's own
    (strict `>` or non-strict `>=`), and the item class's rule for the next
    update time (an `UpdateKeychain` or a stand-alone item). */
module Staleness {
  import opened Outcomes
  import opened DependencyGraph
  import UpdateKeychain
  import Items

  /** The last-update time of every item that has one. */
  type Stamps = map<Id, int>

  datatype Comparison = Strict | NonStrict

  datatype NextRule = KeychainRule | ItemRule

  function Lookup(s: Stamps, x: Id): Option<int>
  {
    if x in s then Some(s[x]) else None
  }

  /** A dependency updated at `dep` makes an item updated at `own` stale. */
  predicate Newer(cmp: Comparison, dep: int, own: int)
  {
    match cmp
    case Strict => dep > own
    case NonStrict => dep >= own
  }

  /** `get_next_update_datetime` of item `x`. Both rules agree once the item
      has a last update; without one, the keychain answers "none" while a
      stand-alone item with an interval fails. */
  function NextTime(g: Graph, s: Stamps, x: Id, rule: NextRule): (r: Result<Option<int>>)
    requires x in g.nodes
    ensures x in s ==> r == Ok(if g.nodes[x].interval.Some? then Some(s[x] + g.nodes[x].interval.value) else None)
    ensures x !in s ==>
              r == (if rule == ItemRule && g.nodes[x].interval.Some? then Err(MissingLastUpdate) else Ok(None))
  {
    match rule
    case KeychainRule => Ok(UpdateKeychain.KeychainNext(g.nodes[x].interval, Lookup(s, x)))
    case ItemRule => Items.ItemNext(g.nodes[x].interval, Lookup(s, x))
  }

  /** The time-has-come check: due when never updated, otherwise when a next
      update time exists and is not after the cycle start. The next time is
      only asked for when a last update exists, so this check never fails. */
  function TimeHasCome(g: Graph, s: Stamps, x: Id, start: int, rule: NextRule): (r: bool)
    requires x in g.nodes
    ensures r <==> x !in s || (g.nodes[x].interval.Some? && s[x] + g.nodes[x].interval.value <= start)
  {
    x !in s || (var n := NextTime(g, s, x, rule).value; n.Some? && n.value <= start)
  }

  /** The loop over a dependency list: stops at the first dependency newer
      than `own`, and fails on a missing time met before that. */
  function ScanNewer(s: Stamps, list: seq<Id>, own: Option<int>, cmp: Comparison): (r: Result<bool>)
    ensures r.Err? ==> r.error == MissingTimestamp
    ensures list != [] && (list[0] !in s || own.None?) ==> r == Err(MissingTimestamp)
    ensures r == Ok(true) <==>
              exists i :: 0 <= i < |list| && list[i] in s && own.Some? && Newer(cmp, s[list[i]], own.value) &&
                forall j :: 0 <= j < i ==> list[j] in s && !Newer(cmp, s[list[j]], own.value)
    ensures r == Ok(false) <==>
              forall i :: 0 <= i < |list| ==> list[i] in s && own.Some? && !Newer(cmp, s[list[i]], own.value)
    ensures own.Some? && (forall i :: 0 <= i < |list| ==> list[i] in s) ==>
              r == Ok(exists i :: 0 <= i < |list| && Newer(cmp, s[list[i]], own.value))
    decreases |list|
  {
    if list == [] then Ok(false)
    else if list[0] !in s || own.None? then Err(MissingTimestamp)
    else if Newer(cmp, s[list[0]], own.value) then Ok(true)
    else
      var r := ScanNewer(s, list[1..], own, cmp);
      assert forall i :: 1 <= i < |list| ==> list[i] == list[1..][i - 1];
      assert forall i :: 0 <= i < |list[1..]| ==> list[1..][i] == list[i + 1];
      r
  }

  /** Some transitive dependency of `x` was updated after `x` (or at the same
      time, for the non-strict comparison). */
  ghost predicate Stale(g: Graph, s: Stamps, x: Id, cmp: Comparison)
    requires Valid(g) && x in g.nodes
  {
    x in s && exists d :: DependsOn(g, x, d) && d in s && Newer(cmp, s[d], s[x])
  }

  /** Every transitive dependency of `x` has a last-update time. */
  ghost predicate DepsStamped(g: Graph, s: Stamps, x: Id)
    requires Valid(g) && x in g.nodes
  {
    forall d :: DependsOn(g, x, d) ==> d in s
  }

  /** The dependency check: scans the flattened dependencies of `x` for one
      newer than `x`. It fails when it meets a missing time. */
  function DepsUpdated(g: Graph, s: Stamps, x: Id, cmp: Comparison): (r: Result<bool>)
    requires Valid(g) && x in g.nodes
    ensures r.Err? ==> r.error == MissingTimestamp
    ensures r.Err? ==> x !in s || !DepsStamped(g, s, x)
    ensures x !in s && (exists d :: DependsOn(g, x, d)) ==> r == Err(MissingTimestamp)
    ensures x in s && !DepsStamped(g, s, x) && !Stale(g, s, x, cmp) ==> r == Err(MissingTimestamp)
    ensures r == Ok(true) ==> Stale(g, s, x, cmp)
    ensures r == Ok(false) ==> DepsStamped(g, s, x) && !Stale(g, s, x, cmp)
    ensures x in s && DepsStamped(g, s, x) ==> r == Ok(Stale(g, s, x, cmp))
  {
    var list := Flatten(g, x);
    FlattenMembers(g, x);
    assert forall d :: d in list <==> exists i :: 0 <= i < |list| && list[i] == d;
    var r := ScanNewer(s, list, Lookup(s, x), cmp);
    assert r == Ok(true) ==> Stale(g, s, x, cmp);
    assert r == Ok(false) ==> DepsStamped(g, s, x);
    assert r.Ok? ==> (r.value ==> r == Ok(true)) && (!r.value ==> r == Ok(false));
    r
  }

  /** `is_need_update_item`: time-has-come first; only when that is false is
      the dependency check evaluated. */
  function IsDue(g: Graph, s: Stamps, x: Id, start: int, cmp: Comparison, rule: NextRule): (r: Result<bool>)
    requires Valid(g) && x in g.nodes
    ensures x !in s ==> r == Ok(true)
    ensures TimeHasCome(g, s, x, start, rule) ==> r == Ok(true)
    ensures r.Err? ==> r.error == MissingTimestamp
    ensures DepsStamped(g, s, x) ==> r == Ok(TimeHasCome(g, s, x, start, rule) || Stale(g, s, x, cmp))
    ensures r.Err? ==> !TimeHasCome(g, s, x, start, rule) && !DepsStamped(g, s, x)
    ensures !TimeHasCome(g, s, x, start, rule) && !DepsStamped(g, s, x) && !Stale(g, s, x, cmp) ==>
              r == Err(MissingTimestamp)
  {
    if TimeHasCome(g, s, x, start, rule) then Ok(true) else DepsUpdated(g, s, x, cmp)
  }

  /** An item whose time has not come and whose first flattened dependency
      was never updated cannot be checked: the first comparison meets a
      missing time. */
  lemma FirstDependencyUnstampedFails(g: Graph, s: Stamps, x: Id, start: int, cmp: Comparison, rule: NextRule)
    requires Valid(g) && x in g.nodes && !TimeHasCome(g, s, x, start, rule)
    requires Flatten(g, x) != [] && Flatten(g, x)[0] !in s
    ensures IsDue(g, s, x, start, cmp, rule) == Err(MissingTimestamp)
  {
    assert DepsUpdated(g, s, x, cmp) == ScanNewer(s, Flatten(g, x), Lookup(s, x), cmp);
  }

  /** Where the two comparisons part: a transitive dependency updated at the
      very time of the item makes it due under `>=`, while under `>` an item
      none of whose dependencies is later is due only if its time has come. */
  lemma TieDecidesComparison(g: Graph, s: Stamps, x: Id, d: Id, start: int, rule: NextRule)
    requires Valid(g) && x in g.nodes && x in s && DepsStamped(g, s, x)
    requires DependsOn(g, x, d) && s[d] == s[x]
    requires forall e :: DependsOn(g, x, e) ==> s[e] <= s[x]
    ensures IsDue(g, s, x, start, NonStrict, rule) == Ok(true)
    ensures IsDue(g, s, x, start, Strict, rule) == Ok(TimeHasCome(g, s, x, start, rule))
  {
    assert d in s && Newer(NonStrict, s[d], s[x]);
  }

  /** The minimum loop of `calc_next_update_datetime` over `list`, starting
      from the running minimum `acc`. */
  function MinNextFrom(g: Graph, s: Stamps, list: seq<Id>, rule: NextRule, acc: Option<int>): (r: Result<Option<int>>)
    requires AllIn(g, list)
    ensures r.Err? <==> exists i :: 0 <= i < |list| && NextTime(g, s, list[i], rule).Err?
    ensures r.Ok? && r.value.None? <==>
              acc.None? && forall i :: 0 <= i < |list| ==> NextTime(g, s, list[i], rule) == Ok(None)
    ensures r.Ok? && r.value.Some? ==>
              (acc.Some? ==> r.value.value <= acc.value) &&
              (forall i :: 0 <= i < |list| && NextTime(g, s, list[i], rule).Ok? && NextTime(g, s, list[i], rule).value.Some? ==>
                 r.value.value <= NextTime(g, s, list[i], rule).value.value) &&
              ((acc.Some? && r.value.value == acc.value) ||
               exists i :: 0 <= i < |list| && NextTime(g, s, list[i], rule) == Ok(Some(r.value.value)))
    decreases |list|
  {
    if list == [] then Ok(acc)
    else
      match NextTime(g, s, list[0], rule)
      case Err(e) => Err(e)
      case Ok(n) =>
        var acc' := if acc.None? then n else if n.Some? then Some(Min(acc.value, n.value)) else acc;
        var r := MinNextFrom(g, s, list[1..], rule, acc');
        assert forall i :: 1 <= i < |list| ==> list[i] == list[1..][i - 1];
        assert forall i :: 0 <= i < |list[1..]| ==> list[1..][i] == list[i + 1];
        r
  }

  /** `calc_next_update_datetime`: the earliest present next update time over
      the flattening of `x` and `x` itself, or none when no item has one. It
      fails only when some item's own next time fails. */
  function CalcNextUpdate(g: Graph, s: Stamps, x: Id, rule: NextRule): (r: Result<Option<int>>)
    requires Valid(g) && x in g.nodes
    ensures r.Err? <==> exists y :: y in UpdateList(g, x) && NextTime(g, s, y, rule).Err?
    ensures r.Ok? && r.value.None? <==> forall y :: y in UpdateList(g, x) ==> NextTime(g, s, y, rule) == Ok(None)
    ensures r.Ok? && r.value.Some? ==>
              (forall y :: y in UpdateList(g, x) && NextTime(g, s, y, rule).Ok? && NextTime(g, s, y, rule).value.Some? ==>
                 r.value.value <= NextTime(g, s, y, rule).value.value) &&
              exists y :: y in UpdateList(g, x) && NextTime(g, s, y, rule) == Ok(Some(r.value.value))
  {
    var list := UpdateList(g, x);
    var r := MinNextFrom(g, s, list, rule, None);
    assert forall y :: y in list <==> exists i :: 0 <= i < |list| && list[i] == y;
    r
  }

  /** Once every item of the update list has a last update, the next-time
      calculation succeeds whichever item class is used. */
  lemma StampedNextDefined(g: Graph, s: Stamps, x: Id, rule: NextRule)
    requires Valid(g) && x in g.nodes
    requires forall y :: y in UpdateList(g, x) ==> y in s
    ensures CalcNextUpdate(g, s, x, rule).Ok?
  {
    forall y | y in UpdateList(g, x)
      ensures NextTime(g, s, y, rule).Ok?
    {
    }
  }
}
