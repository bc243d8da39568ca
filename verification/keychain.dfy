/** An `UpdateKeychain`: an item's interval, its direct dependencies and the
    memento that holds its last-update time. */
module UpdateKeychain {
  import opened Outcomes
  import opened Memento
  import opened DependencyGraph

  datatype Keychain = Keychain(interval: Option<int>, deps: seq<Id>, memento: InMemoryMemento)

  /** The constructor. Absent dependencies default to the empty list and an
      absent memento to a fresh in-memory one. The dependency list is a value,
      so later changes to the caller's list cannot reach the keychain. */
  function NewKeychain(interval: Option<int>, deps: Option<seq<Id>>, memento: Option<InMemoryMemento>): (k: Keychain)
    ensures k.interval == interval
    ensures deps.None? ==> k.deps == []
    ensures deps.Some? ==> k.deps == deps.value
    ensures memento.None? ==> Load(k.memento) == None
    ensures memento.Some? ==> Load(k.memento) == Load(memento.value)
  {
    Keychain(interval,
             if deps.Some? then deps.value else [],
             if memento.Some? then memento.value else NewMemento())
  }

  /** The dependency list, as a value: rebuilding a keychain from its
      interval, this list and its memento gives the same keychain. */
  function GetDependencies(k: Keychain): (r: seq<Id>)
    ensures NewKeychain(k.interval, Some(r), Some(k.memento)) == k
  {
    k.deps
  }

  /** The last-update time, read through the memento: none exactly for a
      fresh memento, and storing back the time read changes nothing. */
  function GetLastUpdate(k: Keychain): (r: Option<int>)
    ensures r.None? <==> k.memento == NewMemento()
    ensures r.Some? ==> SetLastUpdate(k, r.value) == k
  {
    Load(k.memento)
  }

  /** The keychain's next-update rule: a time only when both the last update
      and the interval are present. */
  function KeychainNext(interval: Option<int>, last: Option<int>): (r: Option<int>)
    ensures r.Some? <==> interval.Some? && last.Some?
    ensures r.Some? ==> r.value == last.value + interval.value
  {
    if interval.Some? && last.Some? then Some(last.value + interval.value) else None
  }

  /** `get_next_update_datetime`: last update plus interval, and none when
      either is missing. */
  function GetNextUpdate(k: Keychain): (r: Option<int>)
    ensures r.Some? <==> k.interval.Some? && GetLastUpdate(k).Some?
    ensures r.Some? ==> r.value == GetLastUpdate(k).value + k.interval.value
  {
    KeychainNext(k.interval, GetLastUpdate(k))
  }

  /** Stores the time through the memento, unconditionally: an earlier time may
      replace a later one. The interval and the dependencies do not change. */
  function SetLastUpdate(k: Keychain, t: int): (r: Keychain)
    ensures Load(r.memento) == Some(t)
    ensures r.interval == k.interval
    ensures r.deps == k.deps
  {
    k.(memento := Store(k.memento, t))
  }

  /** After a stamp at `t` the next update is `t + interval`, or none without an interval. */
  lemma NextUpdateAfterStamp(k: Keychain, t: int)
    ensures k.interval.Some? ==> GetNextUpdate(SetLastUpdate(k, t)) == Some(t + k.interval.value)
    ensures k.interval.None? ==> GetNextUpdate(SetLastUpdate(k, t)) == None
  {
  }
}
