/**
 * The one localStorage key each app keeps its whole list under, seen as a snapshot
 * of that list: `None` while the key has never been written.
 */
module Storage {
  import opened Wrappers

  /** `JSON.parse(localStorage.getItem(key)) || []`: a missing key reads as the empty list. */
  function Load<T>(saved: Option<seq<T>>): (list: seq<T>)
    ensures saved.None? ==> list == []
    ensures saved.Some? ==> list == saved.value
  {
    match saved
    case None => []
    case Some(list) => list
  }

  /** Reloading the page from the snapshot would give back `list`. */
  ghost predicate Mirrors<T>(stored: Option<seq<T>>, list: seq<T>) {
    Load(stored) == list
  }
}
