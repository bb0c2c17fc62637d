/** The detectors' debounced presence edge (detector.go). */
module Presence {

  datatype State = State(present: bool, seen: bool, runStart: int, lastSeen: int)

  function Fresh(): State { State(false, false, 0, 0) }

  function Sighted(s: State, absence: int, now: int): State {
    State(s.present, true, if !s.seen || now - s.lastSeen > absence then now else s.runStart, now)
  }

  /** The edge at now: +1 just confirmed, -1 just lost, 0 otherwise. */
  function Edge(s: State, confirm: int, absence: int, now: int): int {
    if s.present then (if !s.seen || now - s.lastSeen > absence then -1 else 0)
    else if s.seen && now - s.lastSeen <= absence && now - s.runStart >= confirm then 1
    else 0
  }

  function Ticked(s: State, confirm: int, absence: int, now: int): State {
    var e := Edge(s, confirm, absence, now);
    s.(present := if e == 1 then true else if e == -1 then false else s.present)
  }

  /** Present, and seen over a run as long as d. */
  predicate SustainedFor(s: State, d: int) { s.present && s.lastSeen - s.runStart >= d }

  class Subject {
    const confirmAfter: int
    const absenceAfter: int
    var present: bool
    var seen: bool
    var runStart: int
    var lastSeen: int

    function Value(): State
      reads this
    {
      State(present, seen, runStart, lastSeen)
    }

    constructor (confirmAfter: int, absenceAfter: int)
      ensures this.confirmAfter == confirmAfter && this.absenceAfter == absenceAfter && Value() == Fresh()
    {
      this.confirmAfter, this.absenceAfter := confirmAfter, absenceAfter;
      present, seen, runStart, lastSeen := false, false, 0, 0;
    }

    method Sighting(now: int)
      modifies this
      ensures Value() == Sighted(old(Value()), absenceAfter, now)
    {
      if !seen || now - lastSeen > absenceAfter {
        runStart := now;
      }
      lastSeen := now;
      seen := true;
    }

    method Transition(now: int) returns (edge: int)
      modifies this
      ensures edge == Edge(old(Value()), confirmAfter, absenceAfter, now)
      ensures Value() == Ticked(old(Value()), confirmAfter, absenceAfter, now)
    {
      if present {
        if !seen || now - lastSeen > absenceAfter {
          present := false;
          return -1;
        }
        return 0;
      }
      if seen && now - lastSeen <= absenceAfter && now - runStart >= confirmAfter {
        present := true;
        return 1;
      }
      edge := 0;
    }

    method IsSustainedFor(d: int) returns (r: bool)
      ensures r == SustainedFor(Value(), d)
    {
      r := present && lastSeen - runStart >= d;
    }
  }

  // ---- Whole runs, with arbitrary (even non-monotone) times ----

  datatype Op = Sight(now: int) | Tick(now: int)

  function Apply(s: State, confirm: int, absence: int, op: Op): State {
    match op
    case Sight(now) => Sighted(s, absence, now)
    case Tick(now) => Ticked(s, confirm, absence, now)
  }

  function After(confirm: int, absence: int, ops: seq<Op>): State {
    if ops == [] then Fresh() else Apply(After(confirm, absence, ops[..|ops| - 1]), confirm, absence, ops[|ops| - 1])
  }

  /** The non-zero edges a run reports, in order. */
  function Edges(confirm: int, absence: int, ops: seq<Op>): seq<int> {
    if ops == [] then [] else
      var init, last := ops[..|ops| - 1], ops[|ops| - 1];
      var e := if last.Tick? then Edge(After(confirm, absence, init), confirm, absence, last.now) else 0;
      Edges(confirm, absence, init) + (if e == 0 then [] else [e])
  }

  /** The times of a run's sightings. */
  function Sightings(ops: seq<Op>): seq<int> {
    if ops == [] then [] else
      Sightings(ops[..|ops| - 1]) + (if ops[|ops| - 1].Sight? then [ops[|ops| - 1].now] else [])
  }

  /** Where the last run of sightings with no gap over `absence` starts. */
  function RunIndex(s: seq<int>, absence: int): (j: nat)
    requires s != []
    ensures j < |s|
  {
    if |s| == 1 then 0
    else if s[|s| - 1] - s[|s| - 2] > absence then |s| - 1
    else RunIndex(s[..|s| - 1], absence)
  }

  /** s[j..] is an unbroken run, and it is the whole of it. */
  ghost predicate UnbrokenRun(s: seq<int>, j: nat, absence: int)
    requires j < |s|
  {
    && (forall i :: j < i < |s| ==> s[i] - s[i - 1] <= absence)
    && (j > 0 ==> s[j] - s[j - 1] > absence)
  }

  lemma {:induction false} RunIndexIsRun(s: seq<int>, absence: int)
    requires s != []
    ensures UnbrokenRun(s, RunIndex(s, absence), absence)
  {
    if |s| > 1 && s[|s| - 1] - s[|s| - 2] <= absence {
      var init := s[..|s| - 1];
      RunIndexIsRun(init, absence);
      var j := RunIndex(init, absence);
      forall i | j < i < |s| ensures s[i] - s[i - 1] <= absence {
        if i < |s| - 1 { assert init[i] - init[i - 1] <= absence; }
      }
    }
  }

  /** The fields remember exactly the last sighting and the start of its run. */
  lemma {:induction false} StateTracksSightings(confirm: int, absence: int, ops: seq<Op>)
    ensures var st, s := After(confirm, absence, ops), Sightings(ops);
            && (st.seen <==> s != [])
            && (st.seen ==> st.lastSeen == s[|s| - 1] && st.runStart == s[RunIndex(s, absence)])
  {
    if ops != [] {
      var init := ops[..|ops| - 1];
      StateTracksSightings(confirm, absence, init);
      var s, s' := Sightings(init), Sightings(ops);
      if ops[|ops| - 1].Sight? {
        assert s'[..|s'| - 1] == s;
        if s != [] { assert s'[|s'| - 2] == s[|s| - 1]; }
      } else {
        assert s' == s;
      }
    }
  }

  /** Edges alternate, starting with +1; the state is present exactly after an odd number. */
  lemma {:induction false} EdgesAlternate(confirm: int, absence: int, ops: seq<Op>)
    ensures var edges := Edges(confirm, absence, ops);
            && (forall i :: 0 <= i < |edges| ==> edges[i] == if i % 2 == 0 then 1 else -1)
            && (After(confirm, absence, ops).present <==> |edges| % 2 == 1)
  {
    if ops != [] {
      EdgesAlternate(confirm, absence, ops[..|ops| - 1]);
    }
  }

  /** A +1 means the sightings end in an unbroken run that is still fresh and has spanned
      confirmAfter. */
  lemma ConfirmedMeansSustained(confirm: int, absence: int, ops: seq<Op>, now: int)
    requires Edge(After(confirm, absence, ops), confirm, absence, now) == 1
    ensures var s := Sightings(ops);
            && s != [] && now - s[|s| - 1] <= absence
            && var j := RunIndex(s, absence);
               UnbrokenRun(s, j, absence) && now - s[j] >= confirm
  {
    StateTracksSightings(confirm, absence, ops);
    RunIndexIsRun(Sightings(ops), absence);
  }

  lemma {:induction false} RunIsUnique(s: seq<int>, absence: int, j: nat)
    requires j < |s| && UnbrokenRun(s, j, absence)
    ensures j == RunIndex(s, absence)
  {
    var n := |s| - 1;
    if j < n {
      assert s[n] - s[n - 1] <= absence;
      var init := s[..n];
      assert forall i :: 0 < i < n ==> init[i] - init[i - 1] == s[i] - s[i - 1];
      RunIsUnique(init, absence, j);
    }
  }

  /** A +1 is reported exactly when presence was not confirmed, the last sighting is fresh, and
      its unbroken run has lasted confirmAfter. */
  lemma ConfirmedExactly(confirm: int, absence: int, ops: seq<Op>, now: int)
    ensures var s := Sightings(ops);
            Edge(After(confirm, absence, ops), confirm, absence, now) == 1 <==>
            && |Edges(confirm, absence, ops)| % 2 == 0
            && s != [] && now - s[|s| - 1] <= absence
            && exists j :: 0 <= j < |s| && UnbrokenRun(s, j, absence) && now - s[j] >= confirm
  {
    var s := Sightings(ops);
    StateTracksSightings(confirm, absence, ops);
    EdgesAlternate(confirm, absence, ops);
    if s != [] { RunIndexIsRun(s, absence); }
    forall j | 0 <= j < |s| && UnbrokenRun(s, j, absence) ensures j == RunIndex(s, absence) {
      RunIsUnique(s, absence, j);
    }
  }

  /** A -1 is reported exactly when presence was confirmed and the last sighting is older
      than absenceAfter. */
  lemma LostExactly(confirm: int, absence: int, ops: seq<Op>, now: int)
    ensures Edge(After(confirm, absence, ops), confirm, absence, now) == -1 <==>
            && |Edges(confirm, absence, ops)| % 2 == 1
            && Sightings(ops) != [] && now - Sightings(ops)[|Sightings(ops)| - 1] > absence
  {
    StateTracksSightings(confirm, absence, ops);
    EdgesAlternate(confirm, absence, ops);
    PresentMeansSeen(confirm, absence, ops);
  }

  lemma {:induction false} PresentMeansSeen(confirm: int, absence: int, ops: seq<Op>)
    ensures After(confirm, absence, ops).present ==> After(confirm, absence, ops).seen
  {
    if ops != [] { PresentMeansSeen(confirm, absence, ops[..|ops| - 1]); }
  }

  /** What sustainedFor answers after a run: presence is confirmed and the last unbroken run
      of sightings spans at least d. */
  lemma SustainedExactly(confirm: int, absence: int, ops: seq<Op>, d: int)
    ensures var st, s := After(confirm, absence, ops), Sightings(ops);
            SustainedFor(st, d) <==>
            && |Edges(confirm, absence, ops)| % 2 == 1
            && s != [] && UnbrokenRun(s, RunIndex(s, absence), absence)
            && s[|s| - 1] - s[RunIndex(s, absence)] >= d
  {
    StateTracksSightings(confirm, absence, ops);
    EdgesAlternate(confirm, absence, ops);
    PresentMeansSeen(confirm, absence, ops);
    if Sightings(ops) != [] { RunIndexIsRun(Sightings(ops), absence); }
  }
}
