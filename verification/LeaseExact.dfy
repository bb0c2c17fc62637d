/** What `get` does at every step, from the record of the run alone: who fetches, who waits,
    and who is answered with what (leasecache.go). */
module LeaseExact {
  import opened Common
  import opened LeaseCache
  import opened LeaseProtocol

  // ---- The record ----

  /** Event i is the latest landing so far. */
  predicate LastLanding(w: World, i: nat) {
    && i < |w.history| && w.history[i].FetchDone?
    && forall j :: i < j < |w.history| ==> !w.history[j].FetchDone?
  }

  predicate NoLanding(w: World) { forall j :: 0 <= j < |w.history| ==> !w.history[j].FetchDone? }

  predicate Fetches(w: World, u: nat) { u in w.callers && w.callers[u].Fetching? }

  ghost predicate NobodyFetches(w: World) { forall u :: !Fetches(w, u) }

  /** got is the result the landing at event i published: what the fetch returned, or a
      failure if it panicked. */
  predicate IsResultOf(w: World, got: Option<Stored>, i: nat) {
    && got.Some? && i < |w.history| && w.history[i].FetchDone?
    && got.value.poll in w.landed && w.landed[got.value.poll] == i
    && got.value.outcome == (match w.history[i].end case Returned(o) => o case Panicked => Failure)
  }

  /** The caller's own fetch starts with this event. */
  predicate Dispatches(w: World, w': World, t: nat, maxAge: int, entered: nat) {
    && t in w'.callers && w'.callers[t] == Fetching(maxAge, entered, |w.dispatched|)
    && w'.dispatched == w.dispatched + [|w.history|]
  }

  /** The caller waits for a running fetch. */
  ghost predicate WaitsForFetch(w: World, w': World, t: nat, maxAge: int, entered: nat) {
    && w'.dispatched == w.dispatched
    && exists u :: Fetches(w, u) && t in w'.callers && w'.callers[t] == Waiting(maxAge, entered, w.callers[u].poll)
  }

  // ---- What every run keeps, beside the protocol invariant ----

  predicate LandedAt(w: World, i: nat) { exists k :: k in w.landed && w.landed[k] == i }

  predicate Ticking(w: World) {
    && |w.clocks| == |w.history|
    && (forall i, j :: 0 <= i < j < |w.clocks| ==> w.clocks[i] <= w.clocks[j])
    && (forall i :: 0 <= i < |w.clocks| ==> w.clocks[i] <= w.clock)
  }

  predicate AllLandings(w: World) { forall i :: 0 <= i < |w.history| && w.history[i].FetchDone? ==> LandedAt(w, i) }

  /** Poll k was dispatched by an entry that found no landing younger than its maxAge, or by a
      forced caller waking. */
  ghost predicate RightlyDispatched(w: World, k: nat) {
    && k < |w.dispatched| && w.dispatched[k] < |w.history| == |w.clocks|
    && var d := w.dispatched[k];
       && !w.history[d].FetchDone? && !w.history[d].Cancel? && !w.history[d].ClockMoves?
       && (w.history[d].EnterGet? && w.history[d].maxAge > 0 ==>
             forall i :: 0 <= i < d && w.history[i].FetchDone? ==> w.clocks[d] - w.clocks[i] >= w.history[d].maxAge)
       && (w.history[d].WakeUp? ==>
             exists e, m :: 0 <= e < d && m <= 0 && w.history[e] == EnterGet(w.history[d].t, m))
  }

  ghost predicate Dispatched(w: World) { forall k :: 0 <= k < |w.dispatched| ==> RightlyDispatched(w, k) }

  ghost predicate Recorded(w: World) { Ticking(w) && AllLandings(w) && Dispatched(w) }

  lemma TickingStep(w: World, e: Event)
    requires Ticking(w) && Enabled(w, e)
    ensures Ticking(Step(w, e)) && Step(w, e).clock >= w.clock
  {
    HistoryKept(w, e);
    ClockOf(w, e);
    hide Step, Enabled;
  }

  lemma ClockOf(w: World, e: Event)
    requires Enabled(w, e)
    ensures Step(w, e).clock == if e.ClockMoves? then e.to else w.clock
  {
  }

  lemma LandedOf(w: World, e: Event)
    requires Enabled(w, e)
    ensures Step(w, e).landed == if e.FetchDone? then w.landed[w.callers[e.t].poll := |w.history|] else w.landed
  {
  }

  lemma LandingsStep(w: World, e: Event)
    requires Inv(w) && AllLandings(w) && |w.clocks| == |w.history| && Enabled(w, e)
    ensures AllLandings(Step(w, e))
  {
    HistoryKept(w, e);
    LandedOf(w, e);
    if e.FetchDone? { assert w.shared.inflight == Some(w.callers[e.t].poll); }
    hide Step, Enabled, CallersOk;
    var w' := Step(w, e);
    forall i | 0 <= i < |w'.history| && w'.history[i].FetchDone? ensures LandedAt(w', i) {
      if i < |w.history| {
        assert LandedAt(w, i);
        var k :| k in w.landed && w.landed[k] == i;
        assert w'.landed[k] == i;
      } else {
        assert w'.landed[w.callers[e.t].poll] == i;
      }
    }
  }

  /** The stored result is that of the last landing. */
  lemma StoredIsLast(w: World) returns (i: nat)
    requires Inv(w) && Recorded(w)
    ensures w.shared.cached.None? ==> NoLanding(w) && w.shared.at.None?
    ensures w.shared.cached.Some? ==>
              LastLanding(w, i) && IsResultOf(w, w.shared.cached, i) && w.shared.at == Some(w.clocks[i])
  {
    hide CallersOk, SingleFlight, Dispatched, Ticking;
    forall j | 0 <= j < |w.history| && w.history[j].FetchDone? ensures exists k :: k in w.landed && w.landed[k] == j {
      assert LandedAt(w, j);
    }
    i := 0;
    if w.shared.cached.Some? {
      assert Landed(w, w.shared.cached.value.poll);
      i := w.landed[w.shared.cached.value.poll];
    }
  }

  lemma MarkerIsFetcher(w: World)
    requires SingleFlight(w)
    ensures w.shared.inflight.None? <==> NobodyFetches(w)
    ensures w.shared.inflight.Some? ==> exists u :: Fetches(w, u) && w.callers[u].poll == w.shared.inflight.value
  {
    if w.shared.inflight.Some? {
      var u :| IsFetching(w, u, w.shared.inflight.value);
      assert Fetches(w, u);
    }
  }

  // ---- What an entry does ----

  /** An entry with a positive maxAge is answered at once exactly when the last landing is
      younger, and then with what that landing published; otherwise it waits for the running
      fetch if there is one, and starts a fetch if there is none. */
  ghost predicate EntersRightly(w: World, w': World, t: nat, maxAge: int) {
    if exists i: nat :: LastLanding(w, i) && i < |w.clocks| && maxAge > 0 && w.clock - w.clocks[i] < maxAge then
      && w'.dispatched == w.dispatched && t in w'.callers && w'.callers[t].Done?
      && w'.callers[t].how.Fresh? && exists i: nat :: LastLanding(w, i) && IsResultOf(w, w'.callers[t].how.got, i)
    else if NobodyFetches(w) then Dispatches(w, w', t, maxAge, |w.history|)
    else WaitsForFetch(w, w', t, maxAge, |w.history|)
  }

  lemma LastIsOne(w: World, i: nat, j: nat)
    requires LastLanding(w, i) && LastLanding(w, j)
    ensures i == j
  {
  }

  lemma EntryStep(w: World, t: nat, maxAge: int)
    requires Inv(w) && Recorded(w) && t !in w.callers
    ensures EntersRightly(w, Step(w, EnterGet(t, maxAge)), t, maxAge)
  {
    var i := StoredIsLast(w);
    MarkerIsFetcher(w);
    hide CallersOk, SingleFlight, Bookkeeping, Dispatched, Ticking, AllLandings, IsResultOf, Fetches, NobodyFetches;
    forall j: nat | LastLanding(w, j) ensures w.shared.cached.Some? ==> i == j {
      if w.shared.cached.Some? { LastIsOne(w, i, j); }
    }
  }

  /** A waiter woken is answered with the last landing's result, unless it is forced: then it
      waits for the running fetch if there is one, and starts one if there is none. */
  ghost predicate WakesRightly(w: World, w': World, t: nat, maxAge: int, entered: nat) {
    if maxAge > 0 then
      && w'.dispatched == w.dispatched && t in w'.callers && w'.callers[t].Done?
      && w'.callers[t].how.Shared_? && exists i: nat :: LastLanding(w, i) && IsResultOf(w, w'.callers[t].how.got, i)
    else if NobodyFetches(w) then Dispatches(w, w', t, maxAge, entered)
    else WaitsForFetch(w, w', t, maxAge, entered)
  }

  lemma WakeStep(w: World, t: nat)
    requires Inv(w) && Recorded(w) && Enabled(w, WakeUp(t))
    ensures WakesRightly(w, Step(w, WakeUp(t)), t, w.callers[t].maxAge, w.callers[t].entered)
  {
    var i := StoredIsLast(w);
    MarkerIsFetcher(w);
    assert w.callers[t].poll in w.landed;
    hide CallersOk, SingleFlight, Dispatched, Ticking, AllLandings, IsResultOf, Fetches, NobodyFetches, LastLanding;
  }

  // ---- Dispatches ----

  lemma DispatchKept(w: World, w': World, k: nat)
    requires RightlyDispatched(w, k) && |w'.history| == |w'.clocks| == |w.history| + 1
    requires forall i :: 0 <= i < |w.history| ==> w'.history[i] == w.history[i] && w'.clocks[i] == w.clocks[i]
    requires |w.dispatched| <= |w'.dispatched| && w'.dispatched[k] == w.dispatched[k]
    ensures RightlyDispatched(w', k)
  {
    var d := w.dispatched[k];
    if w.history[d].WakeUp? {
      var e, m :| 0 <= e < d && m <= 0 && w.history[e] == EnterGet(w.history[d].t, m);
      assert w'.history[e] == EnterGet(w'.history[d].t, m);
    }
  }

  lemma NewDispatch(w: World, e: Event)
    requires Inv(w) && Recorded(w) && Enabled(w, e)
    ensures Step(w, e).dispatched == w.dispatched
            || (Step(w, e).dispatched == w.dispatched + [|w.history|] && RightlyDispatched(Step(w, e), |w.dispatched|))
  {
    var w' := Step(w, e);
    HistoryKept(w, e);
    if e.EnterGet? {
      EntryStep(w, e.t, e.maxAge);
      hide Step, Inv, CallersOk, Bookkeeping, SingleFlight, Dispatched, AllLandings, NobodyFetches, IsResultOf;
      if w'.dispatched != w.dispatched && e.maxAge > 0 { NoYoungLanding(w, e.maxAge); }
    } else if e.WakeUp? {
      WakeStep(w, e.t);
      assert EntryOk(w, e.t, w.callers[e.t]);
      hide Step, Inv, CallersOk, Bookkeeping, SingleFlight, Dispatched, AllLandings, NobodyFetches, IsResultOf;
      if w'.dispatched != w.dispatched {
        assert w'.history[w.callers[e.t].entered] == EnterGet(e.t, w.callers[e.t].maxAge);
      }
    }
  }

  /** If the last landing is no younger than maxAge, none is. */
  lemma NoYoungLanding(w: World, maxAge: int)
    requires Ticking(w)
    requires !(exists i: nat :: LastLanding(w, i) && i < |w.clocks| && maxAge > 0 && w.clock - w.clocks[i] < maxAge)
    requires maxAge > 0
    ensures forall i :: 0 <= i < |w.history| && w.history[i].FetchDone? ==> w.clock - w.clocks[i] >= maxAge
  {
    forall i | 0 <= i < |w.history| && w.history[i].FetchDone? ensures w.clock - w.clocks[i] >= maxAge {
      var j := LatestFrom(w, i);
      assert w.clocks[i] <= w.clocks[j];
    }
  }

  lemma {:induction false} LatestFrom(w: World, i: nat) returns (j: nat)
    requires i < |w.history| && w.history[i].FetchDone?
    ensures i <= j && LastLanding(w, j)
    decreases |w.history| - i
  {
    if k :| i < k < |w.history| && w.history[k].FetchDone? {
      j := LatestFrom(w, k);
    } else {
      j := i;
    }
  }

  lemma RecordedStep(w: World, e: Event)
    requires Inv(w) && Recorded(w) && Enabled(w, e)
    ensures Recorded(Step(w, e))
  {
    TickingStep(w, e);
    LandingsStep(w, e);
    HistoryKept(w, e);
    NewDispatch(w, e);
    hide Step, Inv, Enabled, Ticking, AllLandings, RightlyDispatched;
    var w' := Step(w, e);
    forall k | 0 <= k < |w'.dispatched| ensures RightlyDispatched(w', k) {
      if k < |w.dispatched| { DispatchKept(w, w', k); }
    }
  }

  lemma {:induction false} ReachableRecorded(w: World, events: seq<Event>, w': World)
    requires Inv(w) && Recorded(w) && Reaches(w, events, w')
    ensures Inv(w') && Recorded(w')
    decreases |events|
  {
    hide Inv, Recorded, Step;
    if events != [] {
      StepInv(w, events[0]);
      RecordedStep(w, events[0]);
      ReachableRecorded(Step(w, events[0]), events[1..], w');
    }
  }

  lemma ReachableIsRecorded(clock: int, events: seq<Event>, w: World)
    requires Reaches(Init(clock), events, w)
    ensures Inv(w) && Recorded(w) && w.history == events
  {
    InitInv(clock);
    HistoryIsRun(Init(clock), events, w);
    assert Init(clock).history + events == events;
    ReachableRecorded(Init(clock), events, w);
  }

  // ---- The main results, over every reachable state ----

  /** What entering `get` does. */
  lemma EnterExactly(clock: int, events: seq<Event>, w: World, t: nat, maxAge: int)
    requires Reaches(Init(clock), events, w) && t !in w.callers
    ensures w.history == events && EntersRightly(w, Step(w, EnterGet(t, maxAge)), t, maxAge)
  {
    hide Reaches, Inv, Recorded, Step, EntersRightly;
    ReachableIsRecorded(clock, events, w);
    EntryStep(w, t, maxAge);
  }

  /** What waking after a wait does. */
  lemma WakeExactly(clock: int, events: seq<Event>, w: World, t: nat)
    requires Reaches(Init(clock), events, w) && Enabled(w, WakeUp(t))
    ensures w.history == events
    ensures WakesRightly(w, Step(w, WakeUp(t)), t, w.callers[t].maxAge, w.callers[t].entered)
  {
    hide Reaches, Inv, Recorded, Step, WakesRightly;
    ReachableIsRecorded(clock, events, w);
    WakeStep(w, t);
  }

  /** Fetches are spaced: one started by a caller entering with a positive maxAge starts at
      least maxAge after every landing before it; and one not started by an entry is started
      by a forced caller that has waited. */
  lemma FetchesAreSpaced(clock: int, events: seq<Event>, w: World, k: nat)
    requires Reaches(Init(clock), events, w) && k < |w.dispatched|
    ensures w.history == events && RightlyDispatched(w, k)
  {
    hide Reaches, Inv, RightlyDispatched, Ticking, AllLandings;
    ReachableIsRecorded(clock, events, w);
  }
}
