/** Optional values, the scheduler's error conditions and a result type
    carrying either a value or one of those errors. */
module Outcomes {

  /** An optional value: `None` plays the role of Python's `None`. */
  datatype Option<+T> = None | Some(value: T)

  /** The ways an operation of the scheduler can fail. */
  datatype Error =
    | InvalidOwner        // force_item_update on an item the service does not own (ValueError)
    | MissingTimestamp    // a staleness comparison met a `None` last-update time (TypeError)
    | MissingLastUpdate   // `None + interval` when an item with an interval was never updated (TypeError)
    | MissingDeadline     // `None - now` when no item of the graph has a next update time (TypeError)
    | RunFailed           // the item's own `_run_update` raised

  datatype Result<+T> = Ok(value: T) | Err(error: Error)

  /** An item after an update attempt, with the error the attempt raised, if any. */
  datatype Attempt<+T> = Attempt(item: T, error: Option<Error>)

  /** The smaller of two integers, as Python's `min`. */
  function Min(a: int, b: int): (r: int)
    ensures r <= a && r <= b
    ensures r == a || r == b
  {
    if a <= b then a else b
  }

  /** The larger of two integers, as Python's `max`. */
  function Max(a: int, b: int): (r: int)
    ensures r >= a && r >= b
    ensures r == a || r == b
  {
    if a >= b then a else b
  }
}
