/** The updatable item built on a keychain: `update` runs the item's own
    work and only then stamps the last-update time with the current time. */
module KeychainItem {
  import opened Outcomes
  import opened UpdateKeychain

  /** `_set_last_update_datetime_to_now`, with the current time as a parameter. */
  function SetLastUpdateToNow(k: Keychain, now: int): (r: Keychain)
    ensures GetLastUpdate(r) == Some(now)
    ensures r.interval == k.interval && GetDependencies(r) == GetDependencies(k)
  {
    SetLastUpdate(k, now)
  }

  /** Sync and async `update` alike: `_run_update` (an opaque step whose
      outcome is `runSucceeds`) and then the stamp. When the run raises, the
      stamp is never reached and the item is unchanged. */
  function Update(k: Keychain, now: int, runSucceeds: bool): (r: Attempt<Keychain>)
    ensures r.error.None? <==> runSucceeds
    ensures runSucceeds ==> GetLastUpdate(r.item) == Some(now)
    ensures runSucceeds ==> r.item.interval == k.interval && GetDependencies(r.item) == GetDependencies(k)
    ensures !runSucceeds ==> r.item == k && r.error == Some(RunFailed)
  {
    if runSucceeds then Attempt(SetLastUpdateToNow(k, now), None) else Attempt(k, Some(RunFailed))
  }
}
