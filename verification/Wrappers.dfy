// Optional values and results.

module Wrappers {
  datatype Option<+T> = None | Some(value: T)

  datatype Result<+T, +E> = Ok(value: T) | Err(error: E)

  // ---- First faults of a list of checks ----

  // e goes with the first entry of the list that holds.
  ghost predicate First<E>(faults: seq<(bool, E)>, e: E) {
    exists k :: FirstAt(faults, e, k)
  }

  ghost predicate FirstAt<E>(faults: seq<(bool, E)>, e: E, k: int) {
    0 <= k < |faults| && faults[k] == (true, e) && forall j :: 0 <= j < k ==> !faults[j].0
  }

  ghost predicate NoFault<E>(faults: seq<(bool, E)>) {
    forall j :: 0 <= j < |faults| ==> !faults[j].0
  }

  ghost predicate ReportsFirst<E>(faults: seq<(bool, E)>, verdict: Option<E>) {
    if verdict.None? then NoFault(faults) else First(faults, verdict.value)
  }
}
