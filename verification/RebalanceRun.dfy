/** What one rebalance over all scopes plans (rebalanceTargets as a whole). */
module RebalanceRun {
  import opened Addresses
  import opened Rebalance
  import L = PoolLayout
  import LS = LayoutSafety
  import P = ScopePlan

  /** A scope's emitted pools, none if it does not lay out. */
  function ScopeBounds(sc: Scope): seq<PoolBound> {
    var laid := L.Layout(sc.cidr, P.SpecsOf(sc.plan));
    if laid.Err? then [] else PoolBounds(laid.value)
  }

  /** The occupancy a scope's pools are planned to end up with. */
  function PlannedOcc(sc: Scope, leases: seq<Lease>, fixed: set<string>): (occ: seq<int>)
    ensures |occ| == |ScopeBounds(sc)|
  {
    var mine := ScopeLeases(sc.cidr, leases);
    SweepOf(ScopeBounds(sc), mine, fixed, |mine|).occ
  }

  lemma {:induction false} ScopeLeasesFrom(c: Cidr, leases: seq<Lease>, j: nat) returns (k: nat)
    requires j < |ScopeLeases(c, leases)|
    ensures k < |leases| && leases[k] == ScopeLeases(c, leases)[j]
  {
    var init := leases[..|leases| - 1];
    if j < |ScopeLeases(c, init)| {
      k := ScopeLeasesFrom(c, init, j);
    } else {
      k := |leases| - 1;
    }
  }

  /** One lease per address overall means one per address in every scope. */
  lemma {:induction false} ScopeLeasesOnePerAddress(c: Cidr, leases: seq<Lease>)
    requires OnePerAddress(leases)
    ensures OnePerAddress(ScopeLeases(c, leases))
  {
    if leases != [] {
      var n := |leases| - 1;
      var init := leases[..n];
      assert OnePerAddress(init);
      ScopeLeasesOnePerAddress(c, init);
      var s := ScopeLeases(c, init);
      forall j | 0 <= j < |s| && s[j].ip.Some? && leases[n].ip.Some? ensures s[j].ip != leases[n].ip {
        var k := ScopeLeasesFrom(c, init, j);
        assert leases[k] == s[j];
      }
    }
  }

  lemma BoundsProper(sc: Scope)
    ensures ProperPools(ScopeBounds(sc))
  {
    var specs := P.SpecsOf(sc.plan);
    var laid := L.Layout(sc.cidr, specs);
    if laid.Ok? {
      LaidOut(sc.cidr, specs);
      hide L.Layout, P.SpecsOf;
      forall b | 0 <= b < |PoolBounds(laid.value)|
        ensures PoolBounds(laid.value)[b].lo <= PoolBounds(laid.value)[b].hi {
        var i := BoundsAreEmitted(laid.value, b);
      }
    }
  }

  lemma LaidOut(c: Cidr, specs: seq<L.PoolSpec>)
    requires L.Layout(c, specs).Ok?
    ensures forall i :: 0 <= i < |L.Layout(c, specs).value| && L.Layout(c, specs).value[i].range.Some?
              ==> L.Layout(c, specs).value[i].range.value.lo <= L.Layout(c, specs).value[i].range.value.hi
  {
    hide L.LayoutIn;
    LS.LayoutSafe(PoolWindow(c).value, specs);
  }

  /** With at most one lease per address no pool of any scope is planned above its capacity
      or below zero, and each scope's total occupancy is what it was. */
  lemma RunWithinCapacity(sc: Scope, leases: seq<Lease>, fixed: set<string>, i: nat)
    requires OnePerAddress(leases) && i < |ScopeBounds(sc)|
    ensures 0 <= PlannedOcc(sc, leases, fixed)[i] <= CapacityOf(ScopeBounds(sc)[i].lo, ScopeBounds(sc)[i].hi)
    ensures Sum(PlannedOcc(sc, leases, fixed)) == Sum(Occupancy(ScopeBounds(sc), ScopeLeases(sc.cidr, leases)))
  {
    hide SweepOf, Occupancy, Sum, ScopeBounds, ScopeLeases;
    var mine := ScopeLeases(sc.cidr, leases);
    ScopeLeasesOnePerAddress(sc.cidr, leases);
    BoundsProper(sc);
    SweepWithinCapacity(ScopeBounds(sc), mine, fixed, |mine|, i);
    SweepConserves(ScopeBounds(sc), mine, fixed, |mine|);
  }

  /** m releases the k-th lease, which is not fixed and lies in scope s, out of a pool of
      that scope into another. */
  ghost predicate Origin(scopes: seq<Scope>, leases: seq<Lease>, fixed: set<string>, m: RebalanceMove, s: nat, k: nat) {
    && s < |scopes| && k < |leases|
    && leases[k].text !in fixed && InScope(scopes[s].cidr, leases[k])
    && MoveOf(ScopeBounds(scopes[s]), leases[k], m)
  }

  lemma {:induction false} ScopeLeasesInScope(c: Cidr, leases: seq<Lease>, j: nat)
    requires j < |ScopeLeases(c, leases)|
    ensures InScope(c, ScopeLeases(c, leases)[j])
  {
    var init := leases[..|leases| - 1];
    if j < |ScopeLeases(c, init)| { ScopeLeasesInScope(c, init, j); }
  }

  lemma ScopeMoveOrigin(scopes: seq<Scope>, leases: seq<Lease>, fixed: set<string>, s: nat, j: nat) returns (k: nat)
    requires s < |scopes| && j < |ScopeMoves(scopes[s], leases, fixed)|
    ensures Origin(scopes, leases, fixed, ScopeMoves(scopes[s], leases, fixed)[j], s, k)
  {
    hide L.Layout, PoolBounds, ScopeLeases, SweepOf, MoveOf, InScope;
    var sc := scopes[s];
    var mine, pools := ScopeLeases(sc.cidr, leases), ScopeBounds(sc);
    var m := ScopeMoves(sc, leases, fixed)[j];
    EveryMoveExplained(pools, mine, fixed, |mine|);
    assert Explained(pools, mine, fixed, |mine|, m);
    var i :| 0 <= i < |mine| && mine[i].text !in fixed && MoveOf(pools, mine[i], m);
    k := ScopeLeasesFrom(sc.cidr, leases, i);
    ScopeLeasesInScope(sc.cidr, leases, i);
  }

  /** Every move of a whole run releases a lease that is not fixed, out of the pool its
      address sits in and into a different pool of the same scope and of its own class. */
  lemma {:induction false} EveryRunMoveHasOrigin(scopes: seq<Scope>, leases: seq<Lease>, fixed: set<string>, j: nat)
      returns (s: nat, k: nat)
    requires j < |AllMoves(scopes, leases, fixed)|
    ensures Origin(scopes, leases, fixed, AllMoves(scopes, leases, fixed)[j], s, k)
  {
    hide ScopeMoves, MoveOf, InScope, ScopeBounds;
    var n := |scopes| - 1;
    var init := scopes[..n];
    var before := AllMoves(init, leases, fixed);
    if j < |before| {
      s, k := EveryRunMoveHasOrigin(init, leases, fixed, j);
      assert init[s] == scopes[s];
    } else {
      s := n;
      k := ScopeMoveOrigin(scopes, leases, fixed, n, j - |before|);
    }
  }
}
