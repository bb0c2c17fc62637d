/** The single-flight lease cache (leasecache.go). Each critical section of `get` is a
    method of the cache; the protocol interleaves them over any number of callers. */
module LeaseCache {
  import opened Common

  /** What a poll gave: the leases, or an error. */
  datatype Outcome = Leases | Failure

  /** How a fetch ends. */
  datatype FetchEnd = Returned(outcome: Outcome) | Panicked

  /** The error is set before the fetch starts, so a panic leaves a failure behind and never
      an empty success. */
  function Published(end: FetchEnd): Outcome { if end.Returned? then end.outcome else Failure }

  datatype Stored = Stored(poll: nat, outcome: Outcome)

  /** What the mutex protects. A poll is named by its number; its channel has the same
      name. `cached` is the stored result and the poll it is of, `at` when that landed. */
  datatype Shared = Shared(cached: Option<Stored>, at: Option<int>, inflight: Option<nat>)

  /** How a critical section leaves the caller. */
  datatype Next =
    | ReturnCached(got: Option<Stored>)  // unlock and return the stored result
    | WaitFor(poll: nat)                 // unlock and select on the poll's channel
    | Lead                               // unlock and fetch

  function Age(now: int, at: int): int { now - at }

  /** The loop head: wait for an in-flight poll, or lead a new one. */
  function JoinOrLead(s: Shared, poll: nat): (Shared, Next) {
    if s.inflight.Some? then (s, WaitFor(s.inflight.value)) else (s.(inflight := Some(poll)), Lead)
  }

  /** From entry to the first unlock; `poll` names the channel made if it leads. */
  function EnterSection(s: Shared, maxAge: int, now: int, poll: nat): (Shared, Next) {
    if maxAge > 0 && s.at.Some? && Age(now, s.at.value) < maxAge then (s, ReturnCached(s.cached))
    else JoinOrLead(s, poll)
  }

  /** From the re-lock after a wait to the next unlock. */
  function WakeSection(s: Shared, maxAge: int, poll: nat): (Shared, Next) {
    if maxAge > 0 then (s, ReturnCached(s.cached)) else JoinOrLead(s, poll)
  }

  /** The deferred store-and-release, run whether the fetch returned or panicked. */
  function LandSection(s: Shared, poll: nat, end: FetchEnd, now: int): Shared {
    Shared(Some(Stored(poll, Published(end))), Some(now), None)
  }

  class Cache {
    var cached: Option<Stored>
    var at: Option<int>
    var inflight: Option<nat>
    var closed: set<nat>  // channels that have been closed

    function State(): Shared
      reads this
    {
      Shared(cached, at, inflight)
    }

    constructor ()
      ensures State() == Shared(None, None, None) && closed == {}
    {
      cached, at, inflight, closed := None, None, None, {};
    }

    method Enter(maxAge: int, now: int, poll: nat) returns (next: Next)
      modifies this`inflight
      ensures (State(), next) == EnterSection(old(State()), maxAge, now, poll)
    {
      if maxAge > 0 && at.Some? && now - at.value < maxAge {
        return ReturnCached(cached);
      }
      if inflight.Some? {
        return WaitFor(inflight.value);
      }
      inflight := Some(poll);
      next := Lead;
    }

    method Wake(maxAge: int, poll: nat) returns (next: Next)
      modifies this`inflight
      ensures (State(), next) == WakeSection(old(State()), maxAge, poll)
    {
      if maxAge > 0 {
        return ReturnCached(cached);
      }
      if inflight.Some? {
        return WaitFor(inflight.value);
      }
      inflight := Some(poll);
      next := Lead;
    }

    method Land(poll: nat, end: FetchEnd, now: int)
      modifies this
      ensures State() == LandSection(old(State()), poll, end, now)
      ensures closed == old(closed) + {poll}
    {
      var outcome := Failure;
      if end.Returned? {
        outcome := end.outcome;
      }
      cached, at := Some(Stored(poll, outcome)), Some(now);
      inflight := None;
      closed := closed + {poll};
    }
  }
}
