/** The life-cycle states shared by the update services, and the world the
    services act on: the last-update times of the items and the clock. */
module ServiceState {
  import opened Staleness

  /** The running state of a service. */
  datatype RunState = Running | Stopping | Stopped

  /** The last-update stamps and the current time; reading "now" yields
      `clock`, and every stamp advances it. */
  datatype World = World(stamps: Stamps, clock: int)

  /** Every stamp lies in the past. */
  predicate SaneWorld(w: World)
  {
    forall y :: y in w.stamps ==> w.stamps[y] < w.clock
  }
}
