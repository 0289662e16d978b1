/** The record kept for every spec, and the in-memory store that holds the records
    (internal/state/store.go). */
module States {
  import opened Wrappers

  /** A point in time, in nanoseconds. The zero value of a Go `time.Time` is `NEVER`. */
  type Time = int

  const NEVER: Time := 0

  datatype Status = Healthy | Failing

  datatype SpecState = SpecState(
    status: Status,
    failures: int,
    successes: int,
    startedAt: Time,
    completedAt: Time)

  type StateMap = map<string, SpecState>

  /** What the runner assumes about a spec the store does not know yet. */
  const FIRST_STATE := SpecState(Healthy, 0, 0, NEVER, NEVER)

  function Lookup(states: StateMap, id: string): Option<SpecState> {
    if id in states then Some(states[id]) else None
  }

  function Entry(states: StateMap, id: string): SpecState {
    if id in states then states[id] else FIRST_STATE
  }

  /** Stores are maps: they are equal when every lookup agrees. */
  lemma SameLookupsSameStore(a: StateMap, b: StateMap)
    requires forall id :: Lookup(a, id) == Lookup(b, id)
    ensures a == b
  {
    assert forall id :: id in a <==> Lookup(a, id).Some?;
    assert forall id :: id in b <==> Lookup(b, id).Some?;
    assert a.Keys == b.Keys;
    forall id | id in a ensures a[id] == b[id] {
      assert Lookup(a, id) == Lookup(b, id);
    }
  }

  class InMemoryStore {
    var states: StateMap

    constructor ()
      ensures states == map[]
    {
      states := map[];
    }

    method Get(id: string) returns (state: Option<SpecState>)
      ensures state == Lookup(states, id)
    {
      state := if id in states then Some(states[id]) else None;
    }

    method Set(id: string, state: SpecState)
      modifies this
      ensures states == old(states)[id := state]
    {
      states := states[id := state];
    }
  }
}
