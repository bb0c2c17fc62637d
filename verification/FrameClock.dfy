/** The monitor's frame clock (monitor.go): it stands still across the interval after a
    tick that saw dropped frames, so that blind time never counts as absence. */
module FrameClock {
  import opened Presence

  datatype Clock = Clock(offset: int, lastTick: int, prevBlind: bool, haveTick: bool)

  function FrameNow(c: Clock, now: int): int { now - c.offset }

  /** onTick credits the interval after a blind tick: it tests the previous tick's flag. */
  function OnTick(c: Clock, now: int, blind: bool): Clock {
    Clock(if c.haveTick && c.prevBlind then c.offset + (now - c.lastTick) else c.offset, now, blind, true)
  }

  function ResetBaseline(c: Clock): Clock { c.(prevBlind := false, haveTick := false) }

  class Monitor {
    var frameClockOffset: int
    var lastTickNow: int
    var prevBlind: bool
    var haveTick: bool
    const subject: Subject  // one frame-fed detector's presence

    function Value(): Clock
      reads this
    {
      Clock(frameClockOffset, lastTickNow, prevBlind, haveTick)
    }

    constructor (subject: Subject)
      ensures Value() == Clock(0, 0, false, false) && this.subject == subject
    {
      frameClockOffset, lastTickNow, prevBlind, haveTick := 0, 0, false, false;
      this.subject := subject;
    }

    method ResetTickBaseline()
      modifies this
      ensures Value() == ResetBaseline(old(Value()))
    {
      prevBlind := false;
      haveTick := false;
    }

    /** A frame that sights the subject is handed to it on the frame clock. */
    method HandleFrame(now: int)
      modifies subject
      ensures subject.Value() == Sighted(old(subject.Value()), subject.absenceAfter, FrameNow(Value(), now))
    {
      subject.Sighting(now - frameClockOffset);
    }

    method OnTickNow(now: int, tpDrops: nat, chanDrops: nat) returns (edge: int)
      modifies this, subject
      ensures Value() == OnTick(old(Value()), now, tpDrops > 0 || chanDrops > 0)
      ensures edge == Edge(old(subject.Value()), subject.confirmAfter, subject.absenceAfter, FrameNow(Value(), now))
      ensures subject.Value() ==
              Ticked(old(subject.Value()), subject.confirmAfter, subject.absenceAfter, FrameNow(Value(), now))
    {
      if haveTick && prevBlind {
        frameClockOffset := frameClockOffset + (now - lastTickNow);
      }
      var blind := tpDrops > 0 || chanDrops > 0;
      edge := subject.Transition(now - frameClockOffset);
      prevBlind := blind;
      lastTickNow := now;
      haveTick := true;
    }
  }

  // ---- Tick to tick ----

  /** From one tick to the next the frame clock advances by the real interval, or not at
      all if the earlier tick was blind: it never runs backwards from tick to tick. */
  lemma TickToTick(c: Clock, now1: int, blind1: bool, now2: int, blind2: bool)
    requires now1 <= now2
    ensures var c1 := OnTick(c, now1, blind1);
            var c2 := OnTick(c1, now2, blind2);
            && FrameNow(c2, now2) - FrameNow(c1, now1) == (if blind1 then 0 else now2 - now1)
            && FrameNow(c1, now1) <= FrameNow(c2, now2)
  {
  }

  /** Inside the interval the clock may run ahead: a frame between two ticks is stamped no
      later than the second tick exactly when the first was not blind (or the frame came
      at once). */
  lemma FrameBeforeNextTick(c: Clock, now1: int, blind1: bool, t: int, now2: int, blind2: bool)
    requires now1 <= t <= now2
    ensures var c1 := OnTick(c, now1, blind1);
            var c2 := OnTick(c1, now2, blind2);
            FrameNow(c1, t) <= FrameNow(c2, now2) <==> !blind1 || t == now1
  {
  }

  /** A reset between two ticks makes the clock jump by the whole gap instead. */
  lemma TickResetTick(c: Clock, now1: int, blind1: bool, now2: int, blind2: bool)
    ensures var c1 := OnTick(c, now1, blind1);
            var c2 := OnTick(ResetBaseline(c1), now2, blind2);
            FrameNow(c2, now2) - FrameNow(c1, now1) == now2 - now1
  {
  }

  /** A run of ticks (time, blind), without resets. */
  function Ticks(c: Clock, ticks: seq<(int, bool)>): Clock {
    if ticks == [] then c else
      var last := ticks[|ticks| - 1];
      OnTick(Ticks(c, ticks[..|ticks| - 1]), last.0, last.1)
  }

  /** The real time between the first and the last tick, without the intervals that
      follow a blind tick. */
  function Seen(ticks: seq<(int, bool)>): int {
    if |ticks| <= 1 then 0 else
      var n := |ticks| - 1;
      Seen(ticks[..n]) + (if ticks[n - 1].1 then 0 else ticks[n].0 - ticks[n - 1].0)
  }

  /** Over any run of ticks the frame clock advances by exactly the seen time. */
  lemma {:induction false} FrameClockIsSeenTime(c: Clock, ticks: seq<(int, bool)>)
    requires ticks != []
    ensures FrameNow(Ticks(c, ticks), ticks[|ticks| - 1].0)
            == FrameNow(Ticks(c, ticks[..1]), ticks[0].0) + Seen(ticks)
    ensures Ticks(c, ticks).haveTick && Ticks(c, ticks).lastTick == ticks[|ticks| - 1].0
            && Ticks(c, ticks).prevBlind == ticks[|ticks| - 1].1
  {
    var n := |ticks| - 1;
    if n == 0 {
      assert ticks[..1] == ticks;
    } else {
      FrameClockIsSeenTime(c, ticks[..n]);
      assert ticks[..n][..1] == ticks[..1];
    }
  }

  // ---- Absence in seen time ----

  datatype Event = FrameAt(now: int) | TickAt(now: int, blind: bool) | ResetAt(now: int)

  datatype World = World(clock: Clock, pres: State, now: int)

  function Step(w: World, confirm: int, absence: int, e: Event): World {
    match e
    case FrameAt(now) => World(w.clock, Sighted(w.pres, absence, FrameNow(w.clock, now)), now)
    case TickAt(now, blind) =>
      var c := OnTick(w.clock, now, blind);
      World(c, Ticked(w.pres, confirm, absence, FrameNow(c, now)), now)
    case ResetAt(now) => World(ResetBaseline(w.clock), w.pres, now)
  }

  function Run(w: World, confirm: int, absence: int, es: seq<Event>): World {
    if es == [] then w else Step(Run(w, confirm, absence, es[..|es| - 1]), confirm, absence, es[|es| - 1])
  }

  /** Inside an interval that follows a blind tick. */
  predicate Frozen(c: Clock) { c.haveTick && c.prevBlind }

  /** The real time that passes over a run outside frozen intervals. */
  function OutsideFrozen(w: World, confirm: int, absence: int, es: seq<Event>): int {
    if es == [] then 0 else
      var init := es[..|es| - 1];
      var mid := Run(w, confirm, absence, init);
      OutsideFrozen(w, confirm, absence, init) + (if Frozen(mid.clock) then 0 else es[|es| - 1].now - mid.now)
  }

  /** What resets add back: a reset inside a frozen interval gives up the credit for it, so
      the whole time since the blind tick counts after all. */
  function Unelided(w: World, confirm: int, absence: int, es: seq<Event>): int {
    if es == [] then 0 else
      var init, e := es[..|es| - 1], es[|es| - 1];
      var mid := Run(w, confirm, absence, init);
      Unelided(w, confirm, absence, init) + (if e.ResetAt? && Frozen(mid.clock) then e.now - mid.clock.lastTick else 0)
  }

  /** The time a run counts. */
  function SeenOver(w: World, confirm: int, absence: int, es: seq<Event>): int {
    OutsideFrozen(w, confirm, absence, es) + Unelided(w, confirm, absence, es)
  }

  predicate Monotone(w: World, es: seq<Event>) {
    && (forall i :: 0 <= i < |es| ==> w.now <= es[i].now)
    && (forall i, j :: 0 <= i < j < |es| ==> es[i].now <= es[j].now)
  }

  predicate NoFrames(es: seq<Event>) { forall i :: 0 <= i < |es| ==> !es[i].FrameAt? }

  /** How far the frame clock runs ahead inside a frozen interval. */
  function Ahead(w: World): int { if Frozen(w.clock) then w.now - w.clock.lastTick else 0 }

  /** The frame clock with a frozen interval counted as no time. */
  function Held(w: World): int { FrameNow(w.clock, w.now) - Ahead(w) }

  predicate Consistent(w: World) { w.clock.haveTick ==> w.clock.lastTick <= w.now }

  /** Over every run of frames, ticks and resets. */
  lemma {:induction false} HeldAdvancesBySeenTime(w: World, confirm: int, absence: int, es: seq<Event>)
    requires Consistent(w) && Monotone(w, es)
    ensures Consistent(Run(w, confirm, absence, es))
    ensures Held(Run(w, confirm, absence, es)) == Held(w) + SeenOver(w, confirm, absence, es)
    ensures es != [] ==> Run(w, confirm, absence, es).now == es[|es| - 1].now
  {
    if es != [] {
      HeldAdvancesBySeenTime(w, confirm, absence, es[..|es| - 1]);
      hide Ticked, Sighted;
    }
  }

  lemma {:induction false} LastSeenKept(w: World, confirm: int, absence: int, es: seq<Event>)
    requires NoFrames(es)
    ensures var r := Run(w, confirm, absence, es); r.pres.seen == w.pres.seen && r.pres.lastSeen == w.pres.lastSeen
  {
    if es != [] { LastSeenKept(w, confirm, absence, es[..|es| - 1]); }
  }

  /** The presence edge the tick at the end of a run reports. */
  function EdgeAt(w: World, confirm: int, absence: int, now: int, blind: bool): int {
    Edge(w.pres, confirm, absence, FrameNow(OnTick(w.clock, now, blind), now))
  }

  /** Right after a sighting: w is the world that has just taken the frame in. */
  predicate JustSighted(w: World) { Consistent(w) && w.pres.seen && w.pres.lastSeen == FrameNow(w.clock, w.now) }

  /** The tick at the end of any run without a further sighting reports -1 exactly when the
      subject is still confirmed and more than absenceAfter of counted time has passed; a
      sighting stamped ahead of the clock, inside a frozen interval, delays it by as much. */
  lemma LostExactlyAfterSeenAbsence(w: World, confirm: int, absence: int, es: seq<Event>, now: int, blind: bool)
    requires JustSighted(w) && NoFrames(es) && Monotone(w, es + [TickAt(now, blind)])
    ensures var r := Run(w, confirm, absence, es);
            EdgeAt(r, confirm, absence, now, blind) == -1
            <==> r.pres.present && SeenOver(w, confirm, absence, es + [TickAt(now, blind)]) - Ahead(w) > absence
  {
    var all := es + [TickAt(now, blind)];
    assert all[..|all| - 1] == es;
    LastSeenKept(w, confirm, absence, es);
    HeldAdvancesBySeenTime(w, confirm, absence, all);
  }

  /** So a -1 fires only after more than absenceAfter of counted time without a sighting. */
  lemma LostOnlyAfterSeenAbsence(w: World, confirm: int, absence: int, es: seq<Event>, now: int, blind: bool)
    requires JustSighted(w) && NoFrames(es) && Monotone(w, es + [TickAt(now, blind)])
    requires EdgeAt(Run(w, confirm, absence, es), confirm, absence, now, blind) == -1
    ensures SeenOver(w, confirm, absence, es + [TickAt(now, blind)]) > absence
  {
    LostExactlyAfterSeenAbsence(w, confirm, absence, es, now, blind);
  }

  /** Every reset finds the clock running, or comes at the very time of the blind tick. */
  ghost predicate ResetsOutsideBlindTime(w: World, confirm: int, absence: int, es: seq<Event>) {
    forall i :: 0 <= i < |es| && es[i].ResetAt? ==> ResetIsHarmless(Run(w, confirm, absence, es[..i]), es[i].now)
  }

  predicate ResetIsHarmless(mid: World, now: int) { !Frozen(mid.clock) || now == mid.clock.lastTick }

  lemma ResetsSnoc(w: World, confirm: int, absence: int, es: seq<Event>)
    requires es != []
    ensures var init, e := es[..|es| - 1], es[|es| - 1];
            ResetsOutsideBlindTime(w, confirm, absence, es)
            <==> ResetsOutsideBlindTime(w, confirm, absence, init)
                 && (e.ResetAt? ==> ResetIsHarmless(Run(w, confirm, absence, init), e.now))
  {
    hide Run, ResetIsHarmless;
    var n := |es| - 1;
    var init := es[..n];
    assert forall i :: 0 <= i < n ==> es[..i] == init[..i] && es[i] == init[i];
  }

  /** The blind time of a run is elided for good if and only if no reset falls inside it. */
  lemma {:induction false} ElidedExactly(w: World, confirm: int, absence: int, es: seq<Event>)
    requires Consistent(w) && Monotone(w, es)
    ensures Unelided(w, confirm, absence, es) >= 0
    ensures SeenOver(w, confirm, absence, es) == OutsideFrozen(w, confirm, absence, es)
            <==> ResetsOutsideBlindTime(w, confirm, absence, es)
  {
    hide Run, ResetsOutsideBlindTime, OutsideFrozen;
    if es != [] {
      var init := es[..|es| - 1];
      ElidedExactly(w, confirm, absence, init);
      HeldAdvancesBySeenTime(w, confirm, absence, init);
      ResetsSnoc(w, confirm, absence, es);
      RunNothing(w, confirm, absence);
      assert Unelided(w, confirm, absence, es) == Unelided(w, confirm, absence, init)
        + (if es[|es| - 1].ResetAt? && Frozen(Run(w, confirm, absence, init).clock)
           then es[|es| - 1].now - Run(w, confirm, absence, init).clock.lastTick else 0);
    } else {
      NoResets(w, confirm, absence);
    }
  }

  lemma NoResets(w: World, confirm: int, absence: int)
    ensures ResetsOutsideBlindTime(w, confirm, absence, []) && Unelided(w, confirm, absence, []) == 0
  {
  }

  lemma RunSnoc(w: World, confirm: int, absence: int, es: seq<Event>, e: Event)
    ensures Run(w, confirm, absence, es + [e]) == Step(Run(w, confirm, absence, es), confirm, absence, e)
    ensures OutsideFrozen(w, confirm, absence, es + [e]) == OutsideFrozen(w, confirm, absence, es)
            + (if Frozen(Run(w, confirm, absence, es).clock) then 0 else e.now - Run(w, confirm, absence, es).now)
  {
    assert (es + [e])[..|es|] == es;
    hide Step, Frozen;
  }

  lemma RunNothing(w: World, confirm: int, absence: int)
    ensures Run(w, confirm, absence, []) == w && OutsideFrozen(w, confirm, absence, []) == 0
  {
  }

  /** A start, a frame and a blind tick, all at 0: the subject is confirmed. */
  const START := World(Clock(0, 0, false, false), Fresh(), 0)
  const CONFIRMED := World(Clock(0, 0, true, true), State(true, true, 0, 0), 0)

  lemma ConfirmedIsReached()
    ensures Run(START, 0, 5, [FrameAt(0)] + [TickAt(0, true)]) == CONFIRMED
  {
    hide Run, OutsideFrozen;
    RunSnoc(START, 0, 5, [FrameAt(0)], TickAt(0, true));
    OneEvent(START, 0, 5, FrameAt(0));
  }

  lemma OneEvent(w: World, confirm: int, absence: int, e: Event)
    ensures Run(w, confirm, absence, [e]) == Step(w, confirm, absence, e)
    ensures OutsideFrozen(w, confirm, absence, [e]) == if Frozen(w.clock) then 0 else e.now - w.now
  {
    hide Run, OutsideFrozen, Step, Frozen;
    RunSnoc(w, confirm, absence, [], e);
    RunNothing(w, confirm, absence);
    assert [] + [e] == [e];
  }

  /** A reset can cost the elision: confirmed at 0 on a blind tick, then reset at 100 and
      ticked at 101. Only one unit passed outside the blind interval, yet the subject is
      reported lost with an absenceAfter of five. */
  lemma ResetUnelidesBlindInterval()
    ensures CONFIRMED == Run(START, 0, 5, [FrameAt(0)] + [TickAt(0, true)]) && JustSighted(CONFIRMED)
    ensures EdgeAt(Run(CONFIRMED, 0, 5, [ResetAt(100)]), 0, 5, 101, false) == -1
    ensures OutsideFrozen(CONFIRMED, 0, 5, [ResetAt(100)] + [TickAt(101, false)]) == 1
  {
    hide Run, OutsideFrozen, Step, EdgeAt, JustSighted, Frozen;
    ConfirmedIsReached();
    LostAfterReset();
    RunSnoc(CONFIRMED, 0, 5, [ResetAt(100)], TickAt(101, false));
    OneEvent(CONFIRMED, 0, 5, ResetAt(100));
  }

  lemma LostAfterReset()
    ensures JustSighted(CONFIRMED) && Frozen(CONFIRMED.clock)
    ensures var w := Step(CONFIRMED, 0, 5, ResetAt(100));
            !Frozen(w.clock) && w.now == 100 && EdgeAt(w, 0, 5, 101, false) == -1
  {
  }
}
