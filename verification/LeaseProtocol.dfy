/** Every interleaving of `get` callers. Time is an event counter next to the clock. */
module LeaseProtocol {
  import opened Common
  import opened LeaseCache

  /** entered is the number of the event by which the caller entered. */
  datatype Caller =
    | Waiting(maxAge: int, entered: nat, poll: nat)
    | Fetching(maxAge: int, entered: nat, poll: nat)
    | Done(maxAge: int, entered: nat, how: How)

  datatype How =
    | Fresh(got: Option<Stored>)      // young enough when the caller entered
    | Shared_(got: Option<Stored>)    // a poll the caller waited for, or a later one
    | Own(poll: nat, end: FetchEnd)   // its own fetch; a panic unwinds to the caller
    | Cancelled

  /** history: the events so far. clocks: the clock at each of them. shared: the cache.
      closed: closed channels. */
  datatype World = World(
    history: seq<Event>,
    clocks: seq<int>,
    clock: int,
    shared: Shared,
    closed: set<nat>,
    callers: map<nat, Caller>,
    dispatched: seq<nat>,          // event at which poll k was dispatched
    landed: map<nat, nat>)         // event at which poll k landed

  datatype Event =
    | EnterGet(t: nat, maxAge: int)
    | WakeUp(t: nat)
    | Cancel(t: nat)
    | FetchDone(t: nat, end: FetchEnd)
    | ClockMoves(to: int)

  function Init(clock: int): World {
    World([], [], clock, Shared(None, None, None), {}, map[], [], map[])
  }

  predicate Enabled(w: World, e: Event) {
    match e
    case EnterGet(t, _) => t !in w.callers
    case WakeUp(t) => t in w.callers && w.callers[t].Waiting? && w.callers[t].poll in w.closed
    case Cancel(t) => t in w.callers && w.callers[t].Waiting?
    case FetchDone(t, _) => t in w.callers && w.callers[t].Fetching?
    case ClockMoves(to) => to >= w.clock
  }

  /** Applies the outcome of an entry or wake section to its caller. */
  function Continue(w: World, t: nat, maxAge: int, entered: nat, shared: Shared, next: Next, entry: bool): World {
    match next
    case ReturnCached(got) => w.(callers :=
                                 w.callers[t := Done(maxAge, entered, if entry then Fresh(got) else Shared_(got))])
    case WaitFor(k) => w.(callers := w.callers[t := Waiting(maxAge, entered, k)])
    case Lead => w.(shared := shared, callers := w.callers[t := Fetching(maxAge, entered, |w.dispatched|)],
                    dispatched := w.dispatched + [|w.history|])
  }

  function Act(w: World, e: Event): World
    requires Enabled(w, e)
  {
    match e
    case EnterGet(t, maxAge) =>
      var (shared, next) := EnterSection(w.shared, maxAge, w.clock, |w.dispatched|);
      Continue(w, t, maxAge, |w.history|, shared, next, true)
    case WakeUp(t) =>
      var c := w.callers[t];
      var (shared, next) := WakeSection(w.shared, c.maxAge, |w.dispatched|);
      Continue(w, t, c.maxAge, c.entered, shared, next, false)
    case Cancel(t) =>
      var c := w.callers[t];
      w.(callers := w.callers[t := Done(c.maxAge, c.entered, Cancelled)])
    case FetchDone(t, end) =>
      var c := w.callers[t];
      w.(shared := LandSection(w.shared, c.poll, end, w.clock),
         closed := w.closed + {c.poll},
         landed := w.landed[c.poll := |w.history|],
         callers := w.callers[t := Done(c.maxAge, c.entered, Own(c.poll, end))])
    case ClockMoves(to) => w.(clock := to)
  }

  function Step(w: World, e: Event): World
    requires Enabled(w, e)
  {
    Act(w, e).(history := w.history + [e], clocks := w.clocks + [w.clock])
  }

  ghost predicate Reaches(w: World, events: seq<Event>, w': World)
    decreases |events|
  {
    if events == [] then w == w'
    else Enabled(w, events[0]) && Reaches(Step(w, events[0]), events[1..], w')
  }

  // ---- The invariant ----

  predicate IsFetching(w: World, t: nat, k: nat) {
    t in w.callers && w.callers[t].Fetching? && w.callers[t].poll == k
  }

  /** Single flight: the marker names the one fetching caller's poll. */
  ghost predicate SingleFlight(w: World) {
    && (forall t :: t in w.callers && w.callers[t].Fetching? ==> w.shared.inflight == Some(w.callers[t].poll))
    && (forall t, u :: t in w.callers && u in w.callers && w.callers[t].Fetching? && w.callers[u].Fetching? ==> t == u)
    && (w.shared.inflight.Some? ==> exists t :: IsFetching(w, t, w.shared.inflight.value))
  }

  /** Poll k landed, by the event recorded for it. */
  predicate Landed(w: World, k: nat) {
    k in w.landed && w.landed[k] < |w.history| == |w.clocks| && w.history[w.landed[k]].FetchDone?
  }

  /** A stored result is what its poll published. */
  predicate Honest(w: World, st: Stored) {
    Landed(w, st.poll) && st.outcome == Published(w.history[w.landed[st.poll]].end)
  }

  /** Every poll is numbered, and is in flight or landed; landed polls' channels are closed;
      the cache holds the latest of them, as published and stamped when it landed. */
  ghost predicate Bookkeeping(w: World) {
    && |w.clocks| == |w.history|
    && (forall k :: 0 <= k < |w.dispatched| ==> w.dispatched[k] < |w.history|)
    && w.closed == w.landed.Keys
    && (forall k :: k in w.landed ==> Landed(w, k) && k < |w.dispatched| && w.dispatched[k] < w.landed[k])
    && (forall k :: 0 <= k < |w.dispatched| ==> k in w.landed || w.shared.inflight == Some(k))
    && (w.shared.inflight.Some? ==> w.shared.inflight.value < |w.dispatched| && w.shared.inflight.value !in w.landed)
    && (w.shared.cached.Some? <==> w.shared.at.Some?)
    && (w.shared.cached.None? ==> w.landed == map[])
    && (w.shared.cached.Some? ==>
          && Honest(w, w.shared.cached.value)
          && w.shared.at == Some(w.clocks[w.landed[w.shared.cached.value.poll]])
          && forall k :: k in w.landed ==> w.landed[k] <= w.landed[w.shared.cached.value.poll])
  }

  /** Caller t entered by the event recorded for it. */
  predicate EntryOk(w: World, t: nat, c: Caller) {
    c.entered < |w.history| == |w.clocks| && w.history[c.entered] == EnterGet(t, c.maxAge)
  }

  /** A waiter waits for the poll in flight, or one that has landed since it entered. */
  predicate WaiterOk(w: World, c: Caller) {
    c.Waiting? ==>
      && c.poll < |w.dispatched|
      && (w.shared.inflight == Some(c.poll) || (c.poll in w.landed && c.entered < w.landed[c.poll]))
  }

  /** A fetcher dispatched its poll at or after its own entry. */
  predicate FetcherOk(w: World, c: Caller) {
    c.Fetching? ==> c.poll < |w.dispatched| && c.entered <= w.dispatched[c.poll]
  }

  /** got is what its poll published, and that poll was younger than maxAge by the clock at
      the caller's entry. */
  predicate YoungAtEntry(w: World, c: Caller, got: Option<Stored>) {
    && got.Some? && Honest(w, got.value) && c.entered < |w.clocks|
    && Age(w.clocks[c.entered], w.clocks[w.landed[got.value.poll]]) < c.maxAge
  }

  /** What a returned caller got. A forced caller only ever returns its own poll,
      dispatched after it entered. A non-forced caller returns a result young enough when
      it entered, or one that landed after it entered. */
  predicate ReturnOk(w: World, c: Caller) {
    c.Done? ==>
      match c.how
      case Fresh(got) => c.maxAge > 0 && YoungAtEntry(w, c, got)
      case Shared_(got) => c.maxAge > 0 && got.Some? && Honest(w, got.value) && c.entered < w.landed[got.value.poll]
      case Own(k, end) =>
        && Landed(w, k) && w.history[w.landed[k]].end == end
        && k < |w.dispatched| && c.entered <= w.dispatched[k] < w.landed[k]
      case Cancelled => true
  }

  predicate CallerOk(w: World, t: nat, c: Caller) {
    EntryOk(w, t, c) && WaiterOk(w, c) && FetcherOk(w, c) && ReturnOk(w, c)
  }

  ghost predicate CallersOk(w: World) {
    forall t :: t in w.callers ==> CallerOk(w, t, w.callers[t])
  }

  ghost predicate Inv(w: World) { SingleFlight(w) && Bookkeeping(w) && CallersOk(w) }

  lemma InitInv(clock: int)
    ensures Inv(Init(clock))
  {
  }

  lemma StepSingleFlight(w: World, e: Event)
    requires Inv(w) && Enabled(w, e)
    ensures SingleFlight(Step(w, e))
  {
    hide Bookkeeping, CallersOk;
    if e.EnterGet? || e.WakeUp? {
      LeadSingleFlight(w, e);
    } else {
      QuietSingleFlight(w, e);
    }
  }

  lemma LeadSingleFlight(w: World, e: Event)
    requires SingleFlight(w) && Enabled(w, e) && (e.EnterGet? || e.WakeUp?)
    ensures SingleFlight(Step(w, e))
  {
    var w' := Step(w, e);
    if w'.shared.inflight.Some? {
      if w'.shared.inflight == w.shared.inflight {
        var u :| IsFetching(w, u, w.shared.inflight.value);
        assert IsFetching(w', u, w.shared.inflight.value);
      } else {
        assert IsFetching(w', e.t, |w.dispatched|);
      }
    }
  }

  lemma QuietSingleFlight(w: World, e: Event)
    requires SingleFlight(w) && Enabled(w, e) && !e.EnterGet? && !e.WakeUp?
    ensures SingleFlight(Step(w, e))
  {
    var w' := Step(w, e);
    hide LandSection;
    if w'.shared.inflight.Some? && !e.FetchDone? {
      var u :| IsFetching(w, u, w.shared.inflight.value);
      assert IsFetching(w', u, w.shared.inflight.value);
    }
    if e.FetchDone? {
      assert w'.shared.inflight.None? by { LandingClears(w.shared, w.callers[e.t].poll, e.end, w.clock); }
    }
  }

  lemma LandingClears(s: Shared, poll: nat, end: FetchEnd, now: int)
    ensures LandSection(s, poll, end, now).inflight.None?
  {
  }

  /** Recorded events stay recorded. */
  lemma HistoryKept(w: World, e: Event)
    requires Enabled(w, e) && |w.clocks| == |w.history|
    ensures var w' := Step(w, e);
            && |w'.history| == |w'.clocks| == |w.history| + 1
            && w'.history[|w.history|] == e && w'.clocks[|w.history|] == w.clock
            && forall i :: 0 <= i < |w.history| ==> w'.history[i] == w.history[i] && w'.clocks[i] == w.clocks[i]
  {
    hide Act;
  }

  lemma LandingBookkeeping(w: World, e: Event)
    requires SingleFlight(w) && Bookkeeping(w) && Enabled(w, e) && e.FetchDone?
    ensures Bookkeeping(Step(w, e))
  {
    HistoryKept(w, e);
    assert w.shared.inflight == Some(w.callers[e.t].poll);
    hide SingleFlight;
  }

  /** What an entry or wake section leaves of the shared state: all of it, or a new poll
      dispatched by this event. */
  predicate QuietOrLeads(w: World, w': World) {
    && w'.closed == w.closed && w'.landed == w.landed
    && (|| (w'.shared == w.shared && w'.dispatched == w.dispatched)
        || (&& w.shared.inflight.None? && w'.shared == w.shared.(inflight := Some(|w.dispatched|))
            && w'.dispatched == w.dispatched + [|w.history|]))
  }

  lemma SectionLeads(w: World, e: Event)
    requires Enabled(w, e) && (e.EnterGet? || e.WakeUp?)
    ensures QuietOrLeads(w, Step(w, e))
  {
  }

  lemma LeadBookkeeping(w: World, e: Event)
    requires Bookkeeping(w) && Enabled(w, e) && (e.EnterGet? || e.WakeUp?)
    ensures Bookkeeping(Step(w, e))
  {
    SectionLeads(w, e);
    HistoryKept(w, e);
    hide Enabled, Step;
    var w' := Step(w, e);
    forall k | k in w.landed ensures Landed(w', k) {
      assert Landed(w, k);
    }
  }

  lemma QuietBookkeeping(w: World, e: Event)
    requires Bookkeeping(w) && Enabled(w, e) && (e.Cancel? || e.ClockMoves?)
    ensures Bookkeeping(Step(w, e))
  {
    HistoryKept(w, e);
  }

  lemma StepBookkeeping(w: World, e: Event)
    requires Inv(w) && Enabled(w, e)
    ensures Bookkeeping(Step(w, e))
  {
    hide CallersOk, Bookkeeping, SingleFlight, Step, Enabled;
    if e.FetchDone? {
      LandingBookkeeping(w, e);
    } else if e.EnterGet? || e.WakeUp? {
      LeadBookkeeping(w, e);
    } else {
      QuietBookkeeping(w, e);
    }
  }

  /** A caller an event does not touch stays in order. */
  lemma BystanderOk(w: World, e: Event, t: nat, c: Caller)
    requires SingleFlight(w) && Bookkeeping(w) && CallerOk(w, t, c) && Enabled(w, e)
    ensures CallerOk(Step(w, e), t, c)
  {
    hide SingleFlight, Bookkeeping, CallerOk, Step, Enabled;
    if e.FetchDone? {
      BystanderOfLanding(w, e, t, c);
    } else {
      BystanderOfOthers(w, e, t, c);
    }
  }

  lemma BystanderOfOthers(w: World, e: Event, t: nat, c: Caller)
    requires Bookkeeping(w) && CallerOk(w, t, c) && Enabled(w, e) && !e.FetchDone?
    ensures CallerOk(Step(w, e), t, c)
  {
    HistoryKept(w, e);
    var w' := Step(w, e);
    assert w'.landed == w.landed && w.dispatched <= w'.dispatched;
    assert w.shared.inflight.Some? ==> w'.shared.inflight == w.shared.inflight;
    hide Step, Enabled;
  }

  lemma BystanderOfLanding(w: World, e: Event, t: nat, c: Caller)
    requires SingleFlight(w) && Bookkeeping(w) && CallerOk(w, t, c) && Enabled(w, e) && e.FetchDone?
    ensures CallerOk(Step(w, e), t, c)
  {
    HistoryKept(w, e);
    var k := w.callers[e.t].poll;
    assert w.shared.inflight == Some(k) && k !in w.landed;
    hide SingleFlight;
  }

  /** The caller an event acts for ends in order. */
  lemma ActorOk(w: World, e: Event)
    requires SingleFlight(w) && Bookkeeping(w) && Enabled(w, e) && !e.ClockMoves?
    requires e.t in w.callers ==> CallerOk(w, e.t, w.callers[e.t])
    ensures e.t in Step(w, e).callers && CallerOk(Step(w, e), e.t, Step(w, e).callers[e.t])
  {
    HistoryKept(w, e);
  }

  lemma StepCallers(w: World, e: Event)
    requires Inv(w) && Enabled(w, e)
    ensures CallersOk(Step(w, e))
  {
    var w' := Step(w, e);
    forall t | t in w'.callers ensures CallerOk(w', t, w'.callers[t]) {
      OnlyActorChanges(w, e, t);
      hide Step, CallerOk, SingleFlight, Bookkeeping, Enabled;
      if !e.ClockMoves? && t == e.t {
        ActorOk(w, e);
      } else {
        BystanderOk(w, e, t, w.callers[t]);
      }
    }
  }

  lemma OnlyActorChanges(w: World, e: Event, t: nat)
    requires Inv(w) && Enabled(w, e)
    ensures e.ClockMoves? || t != e.t ==>
            (t in Step(w, e).callers <==> t in w.callers) && (t in w.callers ==> Step(w, e).callers[t] == w.callers[t])
    ensures t in w.callers ==> CallerOk(w, t, w.callers[t])
  {
    hide CallerOk, SingleFlight, Bookkeeping;
  }

  /** Every event of every interleaving keeps the invariant. */
  lemma StepInv(w: World, e: Event)
    requires Inv(w) && Enabled(w, e)
    ensures Inv(Step(w, e))
  {
    StepSingleFlight(w, e);
    StepBookkeeping(w, e);
    StepCallers(w, e);
  }

  lemma {:induction false} ReachableInv(w: World, events: seq<Event>, w': World)
    requires Inv(w) && Reaches(w, events, w')
    ensures Inv(w')
    decreases |events|
  {
    hide Inv, Step;
    if events != [] {
      StepInv(w, events[0]);
      ReachableInv(Step(w, events[0]), events[1..], w');
    }
  }

  // ---- The promises ----

  /** At most one fetch is in flight, in any reachable state. */
  lemma AtMostOneFetch(clock: int, events: seq<Event>, w: World, t: nat, u: nat)
    requires Reaches(Init(clock), events, w)
    requires t in w.callers && u in w.callers && w.callers[t].Fetching? && w.callers[u].Fetching?
    ensures t == u
  {
    InitInv(clock);
    ReachableInv(Init(clock), events, w);
  }

  /** The world's record is the run itself. */
  lemma {:induction false} HistoryIsRun(w: World, events: seq<Event>, w': World)
    requires Reaches(w, events, w')
    ensures w'.history == w.history + events
    decreases |events|
  {
    hide Act, Enabled;
    if events != [] {
      HistoryIsRun(Step(w, events[0]), events[1..], w');
      assert events == [events[0]] + events[1..];
    }
  }

  /** What every caller that has returned got, in any reachable state. */
  lemma ReturnsAreFresh(clock: int, events: seq<Event>, w: World, t: nat)
    requires Reaches(Init(clock), events, w)
    requires t in w.callers && w.callers[t].Done?
    ensures w.history == events && EntryOk(w, t, w.callers[t])
    ensures ReturnOk(w, w.callers[t])
    ensures w.callers[t].maxAge <= 0 ==>
              w.callers[t].how.Cancelled? ||
              (w.callers[t].how.Own? && w.callers[t].how.poll < |w.dispatched|
               && w.callers[t].entered <= w.dispatched[w.callers[t].how.poll])
  {
    InitInv(clock);
    ReachableInv(Init(clock), events, w);
    HistoryIsRun(Init(clock), events, w);
    assert Init(clock).history + events == events;
    hide Reaches, SingleFlight, Bookkeeping, Honest, Landed;
    assert CallerOk(w, t, w.callers[t]);
  }

  /** Whoever reads the result of a fetch that panicked reads a failure, never an empty
      success; whoever reads the result of one that returned reads what it returned. */
  lemma PanicReadsAsFailure(clock: int, events: seq<Event>, w: World, t: nat)
    requires Reaches(Init(clock), events, w)
    requires t in w.callers && w.callers[t].Done? && (w.callers[t].how.Fresh? || w.callers[t].how.Shared_?)
    ensures w.callers[t].how.got.Some?
    ensures var st := w.callers[t].how.got.value;
            && st.poll in w.landed && w.landed[st.poll] < |events| && events[w.landed[st.poll]].FetchDone?
            && st.outcome == Published(events[w.landed[st.poll]].end)
  {
    ReturnsAreFresh(clock, events, w, t);
    hide Reaches;
  }

  /** Every landing, a panicking fetch included, publishes an honest outcome, clears the
      marker and releases every caller waiting for it. */
  lemma LandingReleases(clock: int, events: seq<Event>, w: World, t: nat, end: FetchEnd, u: nat)
    requires Reaches(Init(clock), events, w) && Enabled(w, FetchDone(t, end))
    requires u in w.callers && w.callers[u].Waiting?
    ensures var w' := Step(w, FetchDone(t, end));
            && w'.shared.inflight.None? && Enabled(w', WakeUp(u))
            && w'.shared.cached == Some(Stored(w.callers[t].poll, if end.Panicked? then Failure else end.outcome))
  {
    InitInv(clock);
    ReachableInv(Init(clock), events, w);
    assert CallerOk(w, u, w.callers[u]);
  }

  /** No caller is ever stuck: whoever waits can be woken now, or a fetch is running whose
      landing, however it ends, will wake it. */
  lemma NobodyIsStuck(clock: int, events: seq<Event>, w: World, u: nat)
    requires Reaches(Init(clock), events, w)
    requires u in w.callers && w.callers[u].Waiting?
    ensures || Enabled(w, WakeUp(u))
            || exists t :: t in w.callers && w.callers[t].Fetching? && forall end :: WakesAfter(w, t, end, u)
  {
    InitInv(clock);
    ReachableInv(Init(clock), events, w);
    assert CallerOk(w, u, w.callers[u]);
    if !Enabled(w, WakeUp(u)) {
      var t :| IsFetching(w, t, w.callers[u].poll);
      forall end ensures WakesAfter(w, t, end, u) {
        LandingReleases(clock, events, w, t, end, u);
      }
    }
  }

  predicate WakesAfter(w: World, t: nat, end: FetchEnd, u: nat) {
    Enabled(w, FetchDone(t, end)) && Enabled(Step(w, FetchDone(t, end)), WakeUp(u))
  }
}
