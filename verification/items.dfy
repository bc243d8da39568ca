/** The stand-alone updatable items (`SimpleUpdatableItem` and
    `UpdatableItem`), which keep their last-update time in a field. The two
    classes behave alike; `UpdatableItem` adds the two setters. */
module Items {
  import opened Outcomes
  import opened DependencyGraph

  datatype Item = Item(interval: Option<int>, deps: seq<Id>, last: Option<int>)

  /** The constructor: never updated, dependencies default to the empty list. */
  function NewItem(interval: Option<int>, deps: Option<seq<Id>>): (it: Item)
    ensures it.last == None
    ensures it.interval == interval
    ensures deps.None? ==> it.deps == []
    ensures deps.Some? ==> it.deps == deps.value
  {
    Item(interval, if deps.Some? then deps.value else [], None)
  }

  /** The dependency list, as a value: setting it back changes nothing. */
  function GetDependencies(it: Item): (r: seq<Id>)
    ensures SetDependencies(it, r) == it
  {
    it.deps
  }

  /** The items' next-update rule: none without an interval, and a failure
      (`None + interval`) with an interval but no last update yet. */
  function ItemNext(interval: Option<int>, last: Option<int>): (r: Result<Option<int>>)
    ensures interval.None? ==> r == Ok(None)
    ensures interval.Some? && last.None? ==> r == Err(MissingLastUpdate)
    ensures interval.Some? && last.Some? ==> r == Ok(Some(last.value + interval.value))
  {
    if interval.None? then Ok(None)
    else if last.None? then Err(MissingLastUpdate)
    else Ok(Some(last.value + interval.value))
  }

  /** `get_next_update_datetime`: none without an interval, a failure with
      an interval but no last update, and otherwise last update plus
      interval. */
  function GetNextUpdate(it: Item): (r: Result<Option<int>>)
    ensures it.interval.None? ==> r == Ok(None)
    ensures it.interval.Some? ==> (r.Ok? <==> it.last.Some?)
    ensures r.Err? ==> r.error == MissingLastUpdate
    ensures r.Ok? && r.value.Some? ==> it.last.Some? && r.value.value == it.last.value + it.interval.value
  {
    ItemNext(it.interval, it.last)
  }

  /** A fresh item with an interval cannot report its next update time. */
  lemma FreshItemNextUpdateFails(interval: int, deps: Option<seq<Id>>)
    ensures GetNextUpdate(NewItem(Some(interval), deps)) == Err(MissingLastUpdate)
    ensures GetNextUpdate(NewItem(None, deps)) == Ok(None)
  {
  }

  /** Replaces the whole dependency list. */
  function SetDependencies(it: Item, deps: seq<Id>): (r: Item)
    ensures r.deps == deps
    ensures r.interval == it.interval && r.last == it.last
  {
    it.(deps := deps)
  }

  /** Replaces the interval, `None` included. */
  function SetUpdateInterval(it: Item, interval: Option<int>): (r: Item)
    ensures r.interval == interval
    ensures r.deps == it.deps && r.last == it.last
  {
    it.(interval := interval)
  }

  /** `update_async`: the item's own work (outcome `runSucceeds`), then the
      stamp with the current time. */
  function UpdateAsync(it: Item, now: int, runSucceeds: bool): (r: Attempt<Item>)
    ensures r.error.None? <==> runSucceeds
    ensures runSucceeds ==> r.item.last == Some(now) && r.item.interval == it.interval && r.item.deps == it.deps
    ensures !runSucceeds ==> r.item == it && r.error == Some(RunFailed)
  {
    if runSucceeds then Attempt(it.(last := Some(now)), None)
    else Attempt(it, Some(RunFailed))
  }
}
