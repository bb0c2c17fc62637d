/** planSubnetRemaps as written: repeat passes over the movers until none is demoted. */
module RemapMethod {
  import opened RemapPlan

  function MoveKey(m: SubnetRemap): string { HostKey(m.row.identifier, m.row.idType, m.newID) }

  /** The keys of the rows that stay where they are. */
  ghost function StayKeys(rows: seq<HostRow>, f: SubnetFor, demoted: set<nat>): set<string> {
    set j: nat | j < |rows| && (!Mover(rows[j], f) || j in demoted) :: Key(rows[j])
  }

  /** The movers as the plan lists them. */
  ghost predicate Lists(rows: seq<HostRow>, f: SubnetFor, idx: seq<nat>, movers: seq<SubnetRemap>) {
    && |movers| == |idx|
    && (forall i :: 0 <= i < |idx| ==> idx[i] < |rows| && Mover(rows[idx[i]], f))
    && (forall i, j :: 0 <= i < j < |idx| ==> idx[i] < idx[j])
    && (forall k :: 0 <= k < |rows| && Mover(rows[k], f) ==> k in idx)
    && (forall i :: 0 <= i < |idx| ==> movers[i].row == rows[idx[i]] && MoveKey(movers[i]) == NewKey(rows[idx[i]], f))
  }

  ghost function Skipped(idx: seq<nat>, skip: seq<bool>): set<nat>
    requires |skip| == |idx|
  {
    set i | 0 <= i < |idx| && skip[i] :: idx[i]
  }

  /** Mover p's target is taken: by a staying row, or by an earlier mover still going. */
  ghost predicate Held(movers: seq<SubnetRemap>, skip: seq<bool>, staying: set<string>, p: nat)
    requires p < |movers| == |skip|
  {
    MoveKey(movers[p]) in staying || exists q :: 0 <= q < p && !skip[q] && MoveKey(movers[q]) == MoveKey(movers[p])
  }

  ghost predicate AllSkipsHeld(movers: seq<SubnetRemap>, skip: seq<bool>, staying: set<string>)
    requires |movers| == |skip|
  {
    forall p :: 0 <= p < |movers| && skip[p] ==> Held(movers, skip, staying, p)
  }

  /** Demoting one more held mover leaves every skipped mover's target taken. */
  lemma SkipKeepsHeld(movers: seq<SubnetRemap>, skip: seq<bool>, staying: set<string>, staying': set<string>, i: nat)
    requires i < |movers| == |skip| && !skip[i] && staying <= staying'
    requires AllSkipsHeld(movers, skip, staying) && Held(movers, skip, staying, i)
    ensures AllSkipsHeld(movers, skip[i := true], staying')
  {
    var after := skip[i := true];
    forall p | 0 <= p < |movers| && after[p] ensures Held(movers, after, staying', p) {
      assert Held(movers, skip, staying, p);
      if MoveKey(movers[p]) !in staying {
        var q :| 0 <= q < p && !skip[q] && MoveKey(movers[q]) == MoveKey(movers[p]);
        if q == i && MoveKey(movers[i]) !in staying {
          var q' :| 0 <= q' < i && !skip[q'] && MoveKey(movers[q']) == MoveKey(movers[i]);
          assert !after[q'];
        }
      }
    }
  }

  /** A held mover cannot avoid demotion. */
  lemma HeldIsUnavoidable(rows: seq<HostRow>, f: SubnetFor, idx: seq<nat>, movers: seq<SubnetRemap>, skip: seq<bool>,
                          i: nat)
    requires Lists(rows, f, idx, movers) && |skip| == |movers| && i < |movers|
    requires forall k :: k in Skipped(idx, skip) ==> Unavoidable(rows, f, k)
    requires Held(movers, skip, StayKeys(rows, f, Skipped(idx, skip)), i)
    ensures Unavoidable(rows, f, idx[i])
  {
    var k := idx[i];
    forall t: set<nat> | Closed(rows, f, t) ensures k in t {
      if MoveKey(movers[i]) in StayKeys(rows, f, Skipped(idx, skip)) {
        var j: nat :| j < |rows| && (!Mover(rows[j], f) || j in Skipped(idx, skip))
          && Key(rows[j]) == MoveKey(movers[i]);
        assert Blocks(rows, f, t, j, k);
      } else {
        var q :| 0 <= q < i && !skip[q] && MoveKey(movers[q]) == MoveKey(movers[i]);
        assert Rival(rows, f, idx[q], k);
      }
    }
  }

  /** After a pass that demotes nobody, the skipped movers are exactly the demoted rows. */
  lemma FixpointIsDemoted(rows: seq<HostRow>, f: SubnetFor, idx: seq<nat>, movers: seq<SubnetRemap>, skip: seq<bool>)
    requires Lists(rows, f, idx, movers) && |skip| == |movers|
    requires forall k :: k in Skipped(idx, skip) ==> Unavoidable(rows, f, k)
    requires AllSkipsHeld(movers, skip, StayKeys(rows, f, Skipped(idx, skip)))
    requires forall p :: 0 <= p < |movers| && !skip[p] ==> !Held(movers, skip, StayKeys(rows, f, Skipped(idx, skip)), p)
    ensures Skipped(idx, skip) == Demoted(rows, f)
  {
    var s := Skipped(idx, skip);
    var staying := StayKeys(rows, f, s);
    hide Key, NewKey, MoveKey;
    forall j, k | 0 <= j < |rows| && 0 <= k < |rows| && (Blocks(rows, f, s, j, k) || Rival(rows, f, j, k))
      ensures k in s {
      assert Mover(rows[k], f);
      var p :| 0 <= p < |idx| && idx[p] == k;
      TargetHeld(rows, f, idx, movers, skip, j, p);
    }
    assert Closed(rows, f, s);
  }

  /** A mover that is blocked or out-ranked finds its target held. */
  lemma TargetHeld(rows: seq<HostRow>, f: SubnetFor, idx: seq<nat>, movers: seq<SubnetRemap>, skip: seq<bool>, j: nat,
                   p: nat)
    requires Lists(rows, f, idx, movers) && |skip| == |movers| && p < |idx| && j < |rows|
    requires AllSkipsHeld(movers, skip, StayKeys(rows, f, Skipped(idx, skip)))
    requires Blocks(rows, f, Skipped(idx, skip), j, idx[p]) || Rival(rows, f, j, idx[p])
    ensures Held(movers, skip, StayKeys(rows, f, Skipped(idx, skip)), p)
  {
    hide Key, NewKey, MoveKey;
    var staying := StayKeys(rows, f, Skipped(idx, skip));
    if Blocks(rows, f, Skipped(idx, skip), j, idx[p]) {
      assert Key(rows[j]) in staying;
    } else {
      var q :| 0 <= q < |idx| && idx[q] == j;
      RivalHeld(movers, skip, staying, q, p);
    }
  }

  lemma RivalHeld(movers: seq<SubnetRemap>, skip: seq<bool>, staying: set<string>, q: nat, p: nat)
    requires q < p < |movers| == |skip| && MoveKey(movers[q]) == MoveKey(movers[p])
    requires AllSkipsHeld(movers, skip, staying)
    ensures Held(movers, skip, staying, p)
  {
    if skip[q] {
      assert Held(movers, skip, staying, q);
    }
  }

  /** The keys of the non-movers among the first n rows. */
  ghost function StayUpTo(rows: seq<HostRow>, f: SubnetFor, n: nat): set<string>
    requires n <= |rows|
  {
    if n == 0 then {}
    else StayUpTo(rows, f, n - 1) + (if Mover(rows[n - 1], f) then {} else {Key(rows[n - 1])})
  }

  lemma {:induction false} StayUpToExact(rows: seq<HostRow>, f: SubnetFor, n: nat)
    requires n <= |rows|
    ensures forall s :: s in StayUpTo(rows, f, n) <==> exists j: nat :: j < n && !Mover(rows[j], f) && Key(rows[j]) == s
  {
    hide Key, Mover;
    if n > 0 { StayUpToExact(rows, f, n - 1); }
  }

  lemma StayUpToAll(rows: seq<HostRow>, f: SubnetFor)
    ensures StayUpTo(rows, f, |rows|) == StayKeys(rows, f, {})
  {
    hide Key, Mover, StayUpTo;
    StayUpToExact(rows, f, |rows|);
  }

  /** The classification loop. */
  method Classify(rows: seq<HostRow>, f: SubnetFor)
    returns (staying: set<string>, movers: seq<SubnetRemap>, orphans: seq<HostRow>)
    ensures orphans == Orphans(rows, f)
    ensures |movers| == |MoverRows(rows, f, |rows|)|
    ensures forall i :: 0 <= i < |movers| ==>
              var k := MoverRows(rows, f, |rows|)[i];
              k < |rows| && Mover(rows[k], f) && movers[i] == SubnetRemap(rows[k], f(rows[k].ip).value)
    ensures staying == StayKeys(rows, f, {})
  {
    hide HostKey;
    staying, movers, orphans := {}, [], [];
    var n := 0;
    while n < |rows|
      invariant 0 <= n <= |rows|
      invariant orphans == Orphans(rows[..n], f)
      invariant |movers| == |MoverRows(rows, f, n)|
      invariant forall i :: 0 <= i < |movers| ==>
                  var k := MoverRows(rows, f, n)[i];
                  k < n && Mover(rows[k], f) && movers[i] == SubnetRemap(rows[k], f(rows[k].ip).value)
      invariant staying == StayUpTo(rows, f, n)
    {
      var r := rows[n];
      assert rows[..n + 1][..n] == rows[..n];
      var target := f(r.ip);
      if target.None? {
        orphans := orphans + [r];
        staying := staying + {HostKey(r.identifier, r.idType, r.subnet)};
      } else if target.value == r.subnet {
        staying := staying + {HostKey(r.identifier, r.idType, r.subnet)};
      } else {
        movers := movers + [SubnetRemap(r, target.value)];
      }
      n := n + 1;
    }
    assert rows[..n] == rows;
    StayUpToAll(rows, f);
  }

  lemma ClassifiedLists(rows: seq<HostRow>, f: SubnetFor, movers: seq<SubnetRemap>)
    requires |movers| == |MoverRows(rows, f, |rows|)|
    requires forall i :: 0 <= i < |movers| ==>
               var k := MoverRows(rows, f, |rows|)[i];
               k < |rows| && Mover(rows[k], f) && movers[i] == SubnetRemap(rows[k], f(rows[k].ip).value)
    ensures Lists(rows, f, MoverRows(rows, f, |rows|), movers)
  {
    hide HostKey;
    MoverRowsExact(rows, f, |rows|);
  }

  /** What holds between demotions: every skip so far is unavoidable, and its target held. */
  ghost predicate PlanState(rows: seq<HostRow>, f: SubnetFor, movers: seq<SubnetRemap>, skip: seq<bool>,
                            staying: set<string>) {
    var idx := MoverRows(rows, f, |rows|);
    && Lists(rows, f, idx, movers) && |skip| == |movers|
    && staying == StayKeys(rows, f, Skipped(idx, skip))
    && (forall k :: k in Skipped(idx, skip) ==> Unavoidable(rows, f, k))
    && AllSkipsHeld(movers, skip, staying)
  }

  lemma DemoteStep(rows: seq<HostRow>, f: SubnetFor, movers: seq<SubnetRemap>, skip: seq<bool>, staying: set<string>,
                   i: nat)
    requires PlanState(rows, f, movers, skip, staying) && i < |movers| && !skip[i] && Held(movers, skip, staying, i)
    ensures PlanState(rows, f, movers, skip[i := true], staying + {Key(movers[i].row)})
  {
    var idx := MoverRows(rows, f, |rows|);
    HeldIsUnavoidable(rows, f, idx, movers, skip, i);
    DemoteOne(rows, f, idx, movers, skip, i);
    SkipKeepsHeld(movers, skip, staying, staying + {Key(movers[i].row)}, i);
    hide Lists, StayKeys, AllSkipsHeld, Unavoidable, Held, MoverRows, Skipped, Key;
  }

  ghost predicate Wanted(movers: seq<SubnetRemap>, skip: seq<bool>, i: nat, s: string)
    requires i <= |movers| == |skip|
  {
    exists q :: 0 <= q < i && !skip[q] && MoveKey(movers[q]) == s
  }

  /** The claims after i movers: what stayed at the pass's start, and earlier targets. */
  ghost predicate Claims(movers: seq<SubnetRemap>, skip: seq<bool>, staying0: set<string>, claimed: set<string>, i: nat)
    requires i <= |movers| == |skip|
  {
    forall s :: s in claimed <==> s in staying0 || Wanted(movers, skip, i, s)
  }

  lemma ClaimedIffHeld(movers: seq<SubnetRemap>, skip: seq<bool>, staying0: set<string>, claimed: set<string>, i: nat)
    requires i < |movers| == |skip| && Claims(movers, skip, staying0, claimed, i)
    ensures MoveKey(movers[i]) in claimed <==> Held(movers, skip, staying0, i)
  {
    hide MoveKey;
  }

  lemma WantedNext(movers: seq<SubnetRemap>, skip: seq<bool>, i: nat, s: string)
    requires i < |movers| == |skip|
    ensures Wanted(movers, skip, i + 1, s) <==> Wanted(movers, skip, i, s) || (!skip[i] && MoveKey(movers[i]) == s)
    ensures Wanted(movers, skip[i := true], i + 1, s) <==> Wanted(movers, skip, i, s)
  {
    hide MoveKey;
    var after := skip[i := true];
    if Wanted(movers, skip, i, s) {
      var q :| 0 <= q < i && !skip[q] && MoveKey(movers[q]) == s;
      assert !after[q];
    }
  }

  lemma ClaimNext(movers: seq<SubnetRemap>, skip: seq<bool>, staying0: set<string>, claimed: set<string>, i: nat)
    requires i < |movers| == |skip| && Claims(movers, skip, staying0, claimed, i)
    ensures skip[i] ==> Claims(movers, skip, staying0, claimed, i + 1)
    ensures !skip[i] ==> Claims(movers, skip, staying0, claimed + {MoveKey(movers[i])}, i + 1)
    ensures Claims(movers, skip[i := true], staying0, claimed, i + 1)
  {
    hide MoveKey, Wanted;
    forall s { WantedNext(movers, skip, i, s); }
  }

  lemma HeldMonotone(movers: seq<SubnetRemap>, skip: seq<bool>, staying0: set<string>, staying: set<string>, i: nat)
    requires i < |movers| == |skip| && staying0 <= staying && Held(movers, skip, staying0, i)
    ensures Held(movers, skip, staying, i)
  {
  }

  /** skip extends skip0, only below i, and `demoted` says whether it grew. */
  ghost predicate Grown(skip0: seq<bool>, skip: seq<bool>, i: nat, demoted: bool) {
    && |skip| == |skip0|
    && (forall p :: 0 <= p < |skip| ==> (skip0[p] ==> skip[p]) && (p >= i ==> skip[p] == skip0[p]))
    && (if demoted then exists p :: 0 <= p < |skip| && skip[p] && !skip0[p] else skip == skip0)
  }

  ghost predicate NoneHeld(movers: seq<SubnetRemap>, skip: seq<bool>, staying: set<string>, i: nat)
    requires i <= |movers| == |skip|
  {
    forall p :: 0 <= p < i && !skip[p] ==> !Held(movers, skip, staying, p)
  }

  /** One pass: claim each target in row order, demoting the movers that come too late. */
  method Pass(rows: seq<HostRow>, f: SubnetFor, movers: seq<SubnetRemap>, skip0: seq<bool>, staying0: set<string>)
    returns (skip: seq<bool>, staying: set<string>, demoted: bool)
    requires |skip0| == |movers| && PlanState(rows, f, movers, skip0, staying0)
    ensures |skip| == |movers| && PlanState(rows, f, movers, skip, staying)
    ensures Grown(skip0, skip, |movers|, demoted)
    ensures !demoted ==> NoneHeld(movers, skip, staying, |movers|)
  {
    hide PlanState, Claims, Held, MoveKey, Key;
    skip, staying, demoted := skip0, staying0, false;
    var claimed := staying;
    NothingClaimed(movers, skip, staying);
    var i := 0;
    while i < |movers|
      invariant 0 <= i <= |movers| && |skip| == |movers|
      invariant Grown(skip0, skip, i, demoted)
      invariant PlanState(rows, f, movers, skip, staying) && staying0 <= staying
      invariant Claims(movers, skip, staying0, claimed, i)
      invariant !demoted ==> staying == staying0 && NoneHeld(movers, skip, staying0, i)
    {
      ClaimNext(movers, skip, staying0, claimed, i);
      if !skip[i] {
        var newKey := MoveKey(movers[i]);
        ClaimedIffHeld(movers, skip, staying0, claimed, i);
        if newKey in claimed {
          HeldMonotone(movers, skip, staying0, staying, i);
          DemoteStep(rows, f, movers, skip, staying, i);
          GrowOne(skip0, skip, i, demoted);
          skip := skip[i := true];
          staying := staying + {Key(movers[i].row)};
          demoted := true;
        } else {
          claimed := claimed + {newKey};
        }
      }
      i := i + 1;
    }
  }

  lemma NothingClaimed(movers: seq<SubnetRemap>, skip: seq<bool>, staying: set<string>)
    requires |movers| == |skip|
    ensures Claims(movers, skip, staying, staying, 0)
  {
  }

  lemma GrowOne(skip0: seq<bool>, skip: seq<bool>, i: nat, demoted: bool)
    requires i < |skip| && Grown(skip0, skip, i, demoted) && !skip[i]
    ensures Grown(skip0, skip[i := true], i + 1, true)
  {
    assert skip[i := true][i] && !skip0[i];
  }

  lemma DemoteOne(rows: seq<HostRow>, f: SubnetFor, idx: seq<nat>, movers: seq<SubnetRemap>, skip: seq<bool>, i: nat)
    requires Lists(rows, f, idx, movers) && |skip| == |movers| && i < |movers|
    ensures Skipped(idx, skip[i := true]) == Skipped(idx, skip) + {idx[i]}
    ensures StayKeys(rows, f, Skipped(idx, skip[i := true])) ==
            StayKeys(rows, f, Skipped(idx, skip)) + {Key(movers[i].row)}
  {
    hide HostKey;
    var after := skip[i := true];
    forall k ensures k in Skipped(idx, after) <==> k in Skipped(idx, skip) || k == idx[i] {
      if k == idx[i] { assert after[i]; }
      if k in Skipped(idx, skip) {
        var q :| 0 <= q < |idx| && skip[q] && idx[q] == k;
        assert after[q];
      }
    }
    var s, t := Skipped(idx, skip), Skipped(idx, after);
    assert t == s + {idx[i]};
    forall x ensures x in StayKeys(rows, f, t) <==> x in StayKeys(rows, f, s) || x == Key(movers[i].row) {
      if x in StayKeys(rows, f, s) {
        var j: nat :| j < |rows| && (!Mover(rows[j], f) || j in s) && Key(rows[j]) == x;
        assert !Mover(rows[j], f) || j in t;
      }
      if x == Key(movers[i].row) {
        assert idx[i] in t;
      }
    }
  }

  function CountFalse(skip: seq<bool>): nat {
    if skip == [] then 0 else CountFalse(skip[..|skip| - 1]) + (if skip[|skip| - 1] then 0 else 1)
  }

  lemma {:induction false} GrowthShrinksCount(skip0: seq<bool>, skip: seq<bool>)
    requires |skip0| == |skip| && forall p :: 0 <= p < |skip| && skip0[p] ==> skip[p]
    ensures CountFalse(skip) <= CountFalse(skip0)
    ensures (exists p :: 0 <= p < |skip| && skip[p] && !skip0[p]) ==> CountFalse(skip) < CountFalse(skip0)
  {
    if skip != [] {
      var n := |skip| - 1;
      GrowthShrinksCount(skip0[..n], skip[..n]);
      if p :| 0 <= p < |skip| && skip[p] && !skip0[p] {
        if p < n { assert skip[..n][p] && !skip0[..n][p]; }
      }
    }
  }

  /** The fixpoint loop: a demoted mover can block further movers, so pass again. It
      ends because each pass that demotes leaves fewer movers. */
  method DemoteToFixpoint(rows: seq<HostRow>, f: SubnetFor, movers: seq<SubnetRemap>, staying0: set<string>)
      returns (skip: seq<bool>)
    requires Lists(rows, f, MoverRows(rows, f, |rows|), movers)
    requires staying0 == StayKeys(rows, f, {})
    ensures |skip| == |movers| == |MoverRows(rows, f, |rows|)|
    ensures Skipped(MoverRows(rows, f, |rows|), skip) == Demoted(rows, f)
  {
    skip := seq(|movers|, i => false);
    var staying := staying0;
    var demoted := true;
    assert Skipped(MoverRows(rows, f, |rows|), skip) == {};
    while demoted
      invariant |skip| == |movers| && PlanState(rows, f, movers, skip, staying)
      invariant !demoted ==> NoneHeld(movers, skip, staying, |movers|)
      decreases CountFalse(skip), demoted
    {
      hide PlanState, NoneHeld;
      ghost var before := skip;
      skip, staying, demoted := Pass(rows, f, movers, skip, staying);
      GrowthShrinksCount(before, skip);
    }
    FixpointIsDemoted(rows, f, MoverRows(rows, f, |rows|), movers, skip);
  }

  /** planSubnetRemaps: moves exactly the movers outside the least demoted set. */
  method PlanSubnetRemaps(rows: seq<HostRow>, f: SubnetFor)
    returns (moves: seq<SubnetRemap>, orphans: seq<HostRow>, skipped: seq<SubnetRemap>)
    ensures moves == Reported(rows, f, Demoted(rows, f), |rows|, false)
    ensures skipped == Reported(rows, f, Demoted(rows, f), |rows|, true)
    ensures orphans == Orphans(rows, f)
  {
    var staying, movers;
    staying, movers, orphans := Classify(rows, f);
    ClassifiedLists(rows, f, movers);
    var skip := DemoteToFixpoint(rows, f, movers, staying);
    assert forall i :: 0 <= i < |movers| ==>
           MoverRows(rows, f, |rows|)[i] < |rows| && Mover(rows[MoverRows(rows, f, |rows|)[i]], f);
    hide Demoted, StayKeys, MoverRows, Orphans, HostKey, Select, Skipped, Lists, Reported;
    SelectIsReported(rows, f, |rows|, Demoted(rows, f), false);
    SelectIsReported(rows, f, |rows|, Demoted(rows, f), true);
    moves, skipped := SplitBySkip(rows, f, movers, skip);
  }

  /** The last loop: report each mover as a move or a skip. */
  method SplitBySkip(rows: seq<HostRow>, f: SubnetFor, movers: seq<SubnetRemap>, skip: seq<bool>)
    returns (moves: seq<SubnetRemap>, skipped: seq<SubnetRemap>)
    requires |skip| == |movers| && Lists(rows, f, MoverRows(rows, f, |rows|), movers)
    requires forall i :: 0 <= i < |movers| ==>
             movers[i] == SubnetRemap(rows[MoverRows(rows, f, |rows|)[i]], f(movers[i].row.ip).GetOr(0))
    requires Skipped(MoverRows(rows, f, |rows|), skip) == Demoted(rows, f)
    ensures moves == Select(rows, f, MoverRows(rows, f, |rows|), Demoted(rows, f), false)
    ensures skipped == Select(rows, f, MoverRows(rows, f, |rows|), Demoted(rows, f), true)
  {
    ghost var idx := MoverRows(rows, f, |rows|);
    moves, skipped := [], [];
    var i := 0;
    hide Demoted, StayKeys, MoverRows, HostKey, Skipped, Select, Key, NewKey;
    SelectNone(rows, f, Demoted(rows, f));
    while i < |movers|
      invariant 0 <= i <= |movers|
      invariant moves == Select(rows, f, idx[..i], Demoted(rows, f), false)
      invariant skipped == Select(rows, f, idx[..i], Demoted(rows, f), true)
    {
      SkipIffDemoted(idx, skip, i);
      SelectStep(rows, f, idx, i, Demoted(rows, f), false);
      SelectStep(rows, f, idx, i, Demoted(rows, f), true);
      if skip[i] {
        skipped := skipped + [movers[i]];
      } else {
        moves := moves + [movers[i]];
      }
      i := i + 1;
    }
    assert idx[..i] == idx;
  }

  lemma SelectNone(rows: seq<HostRow>, f: SubnetFor, d: set<nat>)
    ensures Select(rows, f, [], d, false) == [] && Select(rows, f, [], d, true) == []
  {
  }

  lemma SelectStep(rows: seq<HostRow>, f: SubnetFor, idx: seq<nat>, i: nat, d: set<nat>, want: bool)
    requires forall p :: 0 <= p < |idx| ==> idx[p] < |rows| && Mover(rows[idx[p]], f)
    requires i < |idx|
    ensures Mover(rows[idx[i]], f)
    ensures Select(rows, f, idx[..i + 1], d, want)
            == Select(rows, f, idx[..i], d, want)
               + (if (idx[i] in d) == want then [SubnetRemap(rows[idx[i]], f(rows[idx[i]].ip).value)] else [])
  {
    assert idx[..i + 1][..i] == idx[..i];
  }

  lemma SkipIffDemoted(idx: seq<nat>, skip: seq<bool>, i: nat)
    requires |skip| == |idx| && i < |idx| && forall i, j :: 0 <= i < j < |idx| ==> idx[i] < idx[j]
    ensures idx[i] in Skipped(idx, skip) <==> skip[i]
  {
    if idx[i] in Skipped(idx, skip) {
      var q :| 0 <= q < |idx| && skip[q] && idx[q] == idx[i];
      assert q == i;
    }
  }
}
