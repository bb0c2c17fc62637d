/** rebalanceTargets: which leases to release so that devices migrate into their own
    class's pool, never past its capacity (rebalance.go). */
module Rebalance {
  import opened ClassNames
  import opened Casing
  import opened Common
  import opened Addresses
  import D = DeviceClasses
  import C = ClassPartition
  import L = PoolLayout
  import LM = LayoutMethods
  import P = ScopePlan
  import SP = ScopePools

  /** A lease: its address (None if unparseable), the address text, and the MAC text. */
  datatype Lease = Lease(ip: Option<Addr>, text: string, hw: string)

  datatype PoolBound = PoolBound(cls: string, lo: Addr, hi: Addr)

  datatype RebalanceMove = RebalanceMove(text: string, hw: string, fromClass: string, toClass: string)

  datatype Scope = Scope(cidr: Cidr, plan: seq<P.PoolPlanEntry>)

  function CapacityOf(lo: Addr, hi: Addr): int { hi - lo + 1 }

  function PoolIndex(pools: seq<PoolBound>, u: Addr): (i: int)
    ensures -1 <= i < |pools|
    ensures i >= 0 ==> pools[i].lo <= u <= pools[i].hi
    ensures forall j :: 0 <= j < (if i >= 0 then i else |pools|) ==> !(pools[j].lo <= u <= pools[j].hi)
  {
    if pools == [] then -1 else
      var i := PoolIndex(pools[..|pools| - 1], u);
      if i >= 0 then i else if pools[|pools| - 1].lo <= u <= pools[|pools| - 1].hi then |pools| - 1 else -1
  }

  method FindPool(pools: seq<PoolBound>, u: Addr) returns (i: int)
    ensures i == PoolIndex(pools, u)
  {
    i := 0;
    while i < |pools|
      invariant 0 <= i <= |pools|
      invariant forall j :: 0 <= j < i ==> !(pools[j].lo <= u <= pools[j].hi)
    {
      if u >= pools[i].lo && u <= pools[i].hi { return; }
      i := i + 1;
    }
    i := -1;
  }

  function ClassIndex(pools: seq<PoolBound>, cls: string): (i: int)
    ensures -1 <= i < |pools|
    ensures i >= 0 ==> pools[i].cls == cls
    ensures forall j :: 0 <= j < (if i >= 0 then i else |pools|) ==> pools[j].cls != cls
  {
    if pools == [] then -1 else
      var i := ClassIndex(pools[..|pools| - 1], cls);
      if i >= 0 then i else if pools[|pools| - 1].cls == cls then |pools| - 1 else -1
  }

  method FindClass(pools: seq<PoolBound>, cls: string) returns (i: int)
    ensures i == ClassIndex(pools, cls)
  {
    i := 0;
    while i < |pools|
      invariant 0 <= i <= |pools|
      invariant forall j :: 0 <= j < i ==> pools[j].cls != cls
    {
      if pools[i].cls == cls { return; }
      i := i + 1;
    }
    i := -1;
  }

  /** The pool a lease sits in, -1 for none. */
  function PoolOfLease(pools: seq<PoolBound>, l: Lease): (i: int)
    ensures -1 <= i < |pools|
  {
    if l.ip.None? then -1 else PoolIndex(pools, l.ip.value)
  }

  function OwnPool(pools: seq<PoolBound>, l: Lease): (i: int)
    ensures -1 <= i < |pools|
  {
    ClassIndex(pools, D.ClassOf(l.hw))
  }

  // ---- The sweep as a function ----

  predicate Moves(pools: seq<PoolBound>, l: Lease, fixed: set<string>, occ: seq<int>)
    requires |occ| == |pools|
  {
    var own, cur := OwnPool(pools, l), PoolOfLease(pools, l);
    l.text !in fixed && l.ip.Some? && own >= 0 && cur >= 0 && cur != own
      && occ[own] < CapacityOf(pools[own].lo, pools[own].hi)
  }

  datatype Sweep = Sweep(occ: seq<int>, moves: seq<RebalanceMove>)

  function Step(pools: seq<PoolBound>, l: Lease, fixed: set<string>, s: Sweep): (r: Sweep)
    requires |s.occ| == |pools|
    ensures |r.occ| == |pools|
  {
    if Moves(pools, l, fixed, s.occ) then
      var own, cur := OwnPool(pools, l), PoolOfLease(pools, l);
      Sweep(s.occ[own := s.occ[own] + 1][cur := s.occ[cur] - 1],
            s.moves + [RebalanceMove(l.text, l.hw, pools[cur].cls, D.ClassOf(l.hw))])
    else s
  }

  /** How many of the leases sit in pool i. */
  function Count(pools: seq<PoolBound>, leases: seq<Lease>, i: nat): nat {
    if leases == [] then 0
    else Count(pools, leases[..|leases| - 1], i) + (if PoolOfLease(pools, leases[|leases| - 1]) == i then 1 else 0)
  }

  function Occupancy(pools: seq<PoolBound>, leases: seq<Lease>): (occ: seq<int>)
    ensures |occ| == |pools|
  {
    seq(|pools|, i requires 0 <= i < |pools| => Count(pools, leases, i) as int)
  }

  /** The sweep over the first n leases. */
  function SweepOf(pools: seq<PoolBound>, leases: seq<Lease>, fixed: set<string>, n: nat): (s: Sweep)
    requires n <= |leases|
    ensures |s.occ| == |pools|
  {
    if n == 0 then Sweep(Occupancy(pools, leases), [])
    else Step(pools, leases[n - 1], fixed, SweepOf(pools, leases, fixed, n - 1))
  }

  function InScope(c: Cidr, l: Lease): bool {
    l.ip.Some? && c.V4? && Network(c.ip, c.len) <= l.ip.value <= Broadcast(c.ip, c.len)
  }

  function ScopeLeases(c: Cidr, leases: seq<Lease>): seq<Lease> {
    if leases == [] then []
    else ScopeLeases(c, leases[..|leases| - 1])
         + (if InScope(c, leases[|leases| - 1]) then [leases[|leases| - 1]] else [])
  }

  function PoolBounds(ps: seq<L.Placement>): seq<PoolBound> {
    if ps == [] then [] else
      var p := ps[|ps| - 1];
      PoolBounds(ps[..|ps| - 1])
      + (if p.kind.PoolReserve? || p.range.None? || p.cls == "" then []
         else [PoolBound(p.cls, p.range.value.lo, p.range.value.hi)])
  }

  /** One scope's moves; a scope that does not lay out contributes none. */
  function ScopeMoves(sc: Scope, leases: seq<Lease>, fixed: set<string>): seq<RebalanceMove> {
    var laid := L.Layout(sc.cidr, P.SpecsOf(sc.plan));
    if laid.Err? then [] else
      var mine := ScopeLeases(sc.cidr, leases);
      SweepOf(PoolBounds(laid.value), mine, fixed, |mine|).moves
  }

  function AllMoves(scopes: seq<Scope>, leases: seq<Lease>, fixed: set<string>): seq<RebalanceMove> {
    if scopes == [] then []
    else AllMoves(scopes[..|scopes| - 1], leases, fixed) + ScopeMoves(scopes[|scopes| - 1], leases, fixed)
  }

  // ---- The sweep as written ----

  method CollectBounds(ps: seq<L.Placement>) returns (pools: seq<PoolBound>)
    ensures pools == PoolBounds(ps)
  {
    pools := [];
    var n := 0;
    while n < |ps|
      invariant 0 <= n <= |ps| && pools == PoolBounds(ps[..n])
    {
      var p := ps[n];
      assert ps[..n + 1][..n] == ps[..n];
      if !(p.kind.PoolReserve? || p.range.None? || p.cls == "") {
        pools := pools + [PoolBound(p.cls, p.range.value.lo, p.range.value.hi)];
      }
      n := n + 1;
    }
    assert ps[..n] == ps;
  }

  /** Filters the scope's leases and counts them into occ, in place. */
  method CountLeases(c: Cidr, pools: seq<PoolBound>, leases: seq<Lease>, occ: array<int>) returns (mine: seq<Lease>)
    requires occ.Length == |pools| && forall i :: 0 <= i < occ.Length ==> occ[i] == 0
    modifies occ
    ensures mine == ScopeLeases(c, leases) && occ[..] == Occupancy(pools, mine)
  {
    mine := [];
    var n := 0;
    while n < |leases|
      invariant 0 <= n <= |leases| && mine == ScopeLeases(c, leases[..n])
      invariant forall i :: 0 <= i < occ.Length ==> occ[i] == Count(pools, mine, i)
    {
      var l := leases[n];
      assert leases[..n + 1][..n] == leases[..n];
      if InScope(c, l) {
        assert (mine + [l])[..|mine|] == mine;
        mine := mine + [l];
        var i := FindPool(pools, l.ip.value);
        if i >= 0 {
          occ[i] := occ[i] + 1;
        }
      }
      n := n + 1;
    }
    assert leases[..n] == leases;
  }

  /** The body of the selection loop: reserves and frees slots in occ in place. */
  method MoveOne(pools: seq<PoolBound>, l: Lease, fixed: set<string>, occ: array<int>)
      returns (move: Option<RebalanceMove>)
    requires occ.Length == |pools|
    modifies occ
    ensures move.Some? <==> Moves(pools, l, fixed, old(occ[..]))
    ensures Sweep(occ[..], if move.Some? then [move.value] else []) == Step(pools, l, fixed, Sweep(old(occ[..]), []))
  {
    hide PoolIndex, ClassIndex, D.ClassOf;
    move := None;
    if l.text in fixed || l.ip.None? {
      return;
    }
    var cls := D.ClassifyMAC(l.hw);
    var own := FindClass(pools, cls);
    var cur := FindPool(pools, l.ip.value);
    if own < 0 || cur < 0 || cur == own {
      return;
    }
    if occ[own] >= CapacityOf(pools[own].lo, pools[own].hi) {
      return;
    }
    move := Some(RebalanceMove(l.text, l.hw, pools[cur].cls, cls));
    occ[own] := occ[own] + 1;
    occ[cur] := occ[cur] - 1;
  }

  lemma StepAppends(pools: seq<PoolBound>, l: Lease, fixed: set<string>, occ: seq<int>, moves: seq<RebalanceMove>)
    requires |occ| == |pools|
    ensures Step(pools, l, fixed, Sweep(occ, moves)) ==
            Sweep(Step(pools, l, fixed, Sweep(occ, [])).occ, moves + Step(pools, l, fixed, Sweep(occ, [])).moves)
  {
    hide Moves, OwnPool, PoolOfLease, D.ClassOf;
    assert moves + [] == moves;
  }

  method SelectMoves(pools: seq<PoolBound>, leases: seq<Lease>, fixed: set<string>, occ: array<int>)
      returns (moves: seq<RebalanceMove>)
    requires occ.Length == |pools| && occ[..] == Occupancy(pools, leases)
    modifies occ
    ensures Sweep(occ[..], moves) == SweepOf(pools, leases, fixed, |leases|)
  {
    hide Occupancy, Step, Moves;
    moves := [];
    var n := 0;
    while n < |leases|
      invariant 0 <= n <= |leases|
      invariant Sweep(occ[..], moves) == SweepOf(pools, leases, fixed, n)
    {
      StepAppends(pools, leases[n], fixed, occ[..], moves);
      var move := MoveOne(pools, leases[n], fixed, occ);
      moves := moves + (if move.Some? then [move.value] else []);
      n := n + 1;
    }
  }

  method ScopeTargets(sc: Scope, leases: seq<Lease>, fixed: set<string>) returns (moves: seq<RebalanceMove>)
    ensures moves == ScopeMoves(sc, leases, fixed)
  {
    hide L.Layout, SweepOf, ScopeLeases, PoolBounds, Occupancy;
    var specs := P.ToSpecs(sc.plan);
    var placements := LM.LayoutPools(sc.cidr, specs);
    if placements.Err? {
      return [];
    }
    var pools := CollectBounds(placements.value);
    var occ := new int[|pools|](i => 0);
    var mine := CountLeases(sc.cidr, pools, leases, occ);
    moves := SelectMoves(pools, mine, fixed, occ);
  }

  method RebalanceTargets(scopes: seq<Scope>, leases: seq<Lease>, fixed: set<string>)
      returns (moves: seq<RebalanceMove>)
    ensures moves == AllMoves(scopes, leases, fixed)
  {
    hide ScopeMoves;
    moves := [];
    var k := 0;
    while k < |scopes|
      invariant 0 <= k <= |scopes| && moves == AllMoves(scopes[..k], leases, fixed)
    {
      assert scopes[..k + 1][..k] == scopes[..k];
      var more := ScopeTargets(scopes[k], leases, fixed);
      moves := moves + more;
      k := k + 1;
    }
    assert scopes[..k] == scopes;
  }

  // ---- What the sweep guarantees ----

  function Sum(s: seq<int>): int { if s == [] then 0 else Sum(s[..|s| - 1]) + s[|s| - 1] }

  lemma {:induction false} SumUpdate(s: seq<int>, i: nat, v: int)
    requires i < |s|
    ensures Sum(s[i := v]) == Sum(s) - s[i] + v
  {
    var n := |s| - 1;
    if i == n {
      assert s[i := v][..n] == s[..n];
    } else {
      assert s[i := v][..n] == s[..n][i := v];
      SumUpdate(s[..n], i, v);
    }
  }

  lemma MoveConserves(s: seq<int>, own: nat, cur: nat)
    requires own < |s| && cur < |s| && own != cur
    ensures Sum(s[own := s[own] + 1][cur := s[cur] - 1]) == Sum(s)
  {
    hide Sum;
    SumUpdate(s, own, s[own] + 1);
    SumUpdate(s[own := s[own] + 1], cur, s[cur] - 1);
  }

  lemma StepConserves(pools: seq<PoolBound>, l: Lease, fixed: set<string>, s: Sweep)
    requires |s.occ| == |pools|
    ensures Sum(Step(pools, l, fixed, s).occ) == Sum(s.occ)
  {
    hide Sum;
    if Moves(pools, l, fixed, s.occ) {
      MoveConserves(s.occ, OwnPool(pools, l), PoolOfLease(pools, l));
    }
  }

  /** Every move frees one slot and takes one: total occupancy never changes. */
  lemma {:induction false} SweepConserves(pools: seq<PoolBound>, leases: seq<Lease>, fixed: set<string>, n: nat)
    requires n <= |leases|
    ensures Sum(SweepOf(pools, leases, fixed, n).occ) == Sum(Occupancy(pools, leases))
  {
    if n > 0 {
      hide Sum, Step;
      SweepConserves(pools, leases, fixed, n - 1);
      StepConserves(pools, leases[n - 1], fixed, SweepOf(pools, leases, fixed, n - 1));
    }
  }

  /** At most one lease per address. */
  ghost predicate OnePerAddress(leases: seq<Lease>) {
    forall i, j :: 0 <= i < j < |leases| && leases[i].ip.Some? && leases[j].ip.Some? ==> leases[i].ip != leases[j].ip
  }

  /** The addresses leased in pool i. */
  function AddressesIn(pools: seq<PoolBound>, leases: seq<Lease>, i: nat): set<int>
    requires i < |pools|
  {
    if leases == [] then {}
    else AddressesIn(pools, leases[..|leases| - 1], i)
         + (if PoolOfLease(pools, leases[|leases| - 1]) == i then {leases[|leases| - 1].ip.value as int} else {})
  }

  lemma {:induction false} AddressesAreLeased(pools: seq<PoolBound>, leases: seq<Lease>, i: nat)
    requires i < |pools|
    ensures forall x :: x in AddressesIn(pools, leases, i) ==>
              && pools[i].lo <= x <= pools[i].hi
              && exists k :: 0 <= k < |leases| && leases[k].ip.Some? && leases[k].ip.value == x
  {
    if leases != [] {
      var init := leases[..|leases| - 1];
      AddressesAreLeased(pools, init, i);
      forall x | x in AddressesIn(pools, init, i)
        ensures exists k :: 0 <= k < |leases| && leases[k].ip.Some? && leases[k].ip.value == x {
        var k :| 0 <= k < |init| && init[k].ip.Some? && init[k].ip.value == x;
        assert leases[k] == init[k];
      }
    }
  }

  lemma {:induction false} CountIsCardinality(pools: seq<PoolBound>, leases: seq<Lease>, i: nat)
    requires OnePerAddress(leases) && i < |pools|
    ensures Count(pools, leases, i) == |AddressesIn(pools, leases, i)|
  {
    if leases != [] {
      var n := |leases| - 1;
      var init := leases[..n];
      assert OnePerAddress(init);
      CountIsCardinality(pools, init, i);
      if PoolOfLease(pools, leases[n]) == i {
        NewAddress(pools, leases, i);
      }
    }
  }

  lemma NewAddress(pools: seq<PoolBound>, leases: seq<Lease>, i: nat)
    requires OnePerAddress(leases) && i < |pools| && leases != [] && PoolOfLease(pools, leases[|leases| - 1]) == i
    ensures leases[|leases| - 1].ip.value as int !in AddressesIn(pools, leases[..|leases| - 1], i)
  {
    var n := |leases| - 1;
    AddressesAreLeased(pools, leases[..n], i);
    hide PoolIndex, AddressesIn;
    forall k | 0 <= k < n && leases[..n][k].ip.Some? ensures leases[..n][k].ip.value != leases[n].ip.value {
      assert leases[..n][k] == leases[k];
      NotTwice(leases, k, n);
    }
  }

  lemma NotTwice(leases: seq<Lease>, j: nat, k: nat)
    requires OnePerAddress(leases) && j < k < |leases| && leases[j].ip.Some? && leases[k].ip.Some?
    ensures leases[j].ip.value != leases[k].ip.value
  {
  }

  function Interval(lo: int, hi: int): set<int>
    decreases hi - lo
  {
    if hi < lo then {} else Interval(lo, hi - 1) + {hi}
  }

  lemma {:induction false} IntervalExact(lo: int, hi: int)
    requires lo <= hi + 1
    ensures forall x :: x in Interval(lo, hi) <==> lo <= x <= hi
    ensures |Interval(lo, hi)| == hi - lo + 1
    decreases hi - lo
  {
    if lo <= hi { IntervalExact(lo, hi - 1); }
  }

  predicate ProperPools(pools: seq<PoolBound>) {
    forall i :: 0 <= i < |pools| ==> pools[i].lo <= pools[i].hi
  }

  /** With one lease per address no pool starts above its capacity. */
  lemma StartsWithinCapacity(pools: seq<PoolBound>, leases: seq<Lease>, i: nat)
    requires OnePerAddress(leases) && i < |pools| && ProperPools(pools)
    ensures Count(pools, leases, i) <= CapacityOf(pools[i].lo, pools[i].hi)
  {
    CountIsCardinality(pools, leases, i);
    AddressesAreLeased(pools, leases, i);
    IntervalExact(pools[i].lo, pools[i].hi);
    SubsetSize(AddressesIn(pools, leases, i), Interval(pools[i].lo, pools[i].hi));
  }

  /** How many of leases[n..] sit in pool i. */
  function CountFrom(pools: seq<PoolBound>, leases: seq<Lease>, n: nat, i: nat): nat
    requires n <= |leases|
    decreases |leases| - n
  {
    if n == |leases| then 0
    else (if PoolOfLease(pools, leases[n]) == i then 1 else 0) + CountFrom(pools, leases, n + 1, i)
  }

  lemma {:induction false} CountSplits(pools: seq<PoolBound>, leases: seq<Lease>, n: nat, i: nat)
    requires n <= |leases|
    ensures Count(pools, leases, i) == Count(pools, leases[..n], i) + CountFrom(pools, leases, n, i)
    decreases |leases| - n
  {
    if n == |leases| {
      assert leases[..n] == leases;
    } else {
      assert leases[..n + 1][..n] == leases[..n];
      CountSplits(pools, leases, n + 1, i);
    }
  }

  /** Looking at one more lease leaves room in a pool it enters and takes one it counted
      from a pool it leaves. */
  lemma OneLeaseMore(pools: seq<PoolBound>, leases: seq<Lease>, fixed: set<string>, n: nat, i: nat)
    requires 0 < n <= |leases| && i < |pools|
    ensures var before, after := SweepOf(pools, leases, fixed, n - 1).occ[i], SweepOf(pools, leases, fixed, n).occ[i];
            && after - before >= CountFrom(pools, leases, n, i) - CountFrom(pools, leases, n - 1, i)
            && (after <= before || (after == before + 1 && before < CapacityOf(pools[i].lo, pools[i].hi)))
  {
    hide Occupancy, D.ClassOf, PoolIndex, ClassIndex, SweepOf, CapacityOf;
    SweepNext(pools, leases, fixed, n);
  }

  lemma SweepStarts(pools: seq<PoolBound>, leases: seq<Lease>, fixed: set<string>, i: nat)
    requires i < |pools|
    ensures SweepOf(pools, leases, fixed, 0).occ[i] == Count(pools, leases, i) == CountFrom(pools, leases, 0, i)
  {
    CountSplits(pools, leases, 0, i);
    hide CountFrom;
    assert leases[..0] == [];
  }

  lemma SweepNext(pools: seq<PoolBound>, leases: seq<Lease>, fixed: set<string>, n: nat)
    requires 0 < n <= |leases|
    ensures SweepOf(pools, leases, fixed, n) == Step(pools, leases[n - 1], fixed, SweepOf(pools, leases, fixed, n - 1))
  {
    hide Step;
  }

  /** Throughout the sweep: never above capacity, and never below the number of leases in
      the pool that are still to be looked at, so never below zero. */
  lemma {:induction false} SweepWithinCapacity(pools: seq<PoolBound>, leases: seq<Lease>, fixed: set<string>, n: nat,
                                               i: nat)
    requires n <= |leases| && OnePerAddress(leases) && i < |pools| && ProperPools(pools)
    ensures CountFrom(pools, leases, n, i) <= SweepOf(pools, leases, fixed, n).occ[i] <=
            CapacityOf(pools[i].lo, pools[i].hi)
  {
    hide SweepOf, CountFrom, Count, OnePerAddress, ProperPools, CapacityOf;
    if n == 0 {
      SweepStarts(pools, leases, fixed, i);
      StartsWithinCapacity(pools, leases, i);
    } else {
      SweepWithinCapacity(pools, leases, fixed, n - 1, i);
      OneLeaseMore(pools, leases, fixed, n, i);
    }
  }

  /** Where the i-th pool ends up: its leases that stay, plus the moves into it. */
  function Settled(pools: seq<PoolBound>, leases: seq<Lease>, fixed: set<string>, n: nat, i: nat): int
    requires n <= |leases|
  {
    if n == 0 then 0 else
      Settled(pools, leases, fixed, n - 1, i)
      + (if Moves(pools, leases[n - 1], fixed, SweepOf(pools, leases, fixed, n - 1).occ)
         then (if OwnPool(pools, leases[n - 1]) == i then 1 else 0)
         else (if PoolOfLease(pools, leases[n - 1]) == i then 1 else 0))
  }

  /** occ is the occupancy the moves lead to, once each device re-requests. */
  lemma {:induction false} OccIsSettled(pools: seq<PoolBound>, leases: seq<Lease>, fixed: set<string>, n: nat, i: nat)
    requires n <= |leases| && i < |pools|
    ensures SweepOf(pools, leases, fixed, n).occ[i] ==
            Settled(pools, leases, fixed, n, i) + CountFrom(pools, leases, n, i)
  {
    if n == 0 {
      CountSplits(pools, leases, 0, i);
    } else {
      OccIsSettled(pools, leases, fixed, n - 1, i);
      hide Occupancy, D.ClassOf, PoolIndex, ClassIndex;
    }
  }

  /** A planned move: the lease that moves, out of a pool and into a different one. */
  ghost predicate MoveOf(pools: seq<PoolBound>, l: Lease, m: RebalanceMove) {
    var own, cur := OwnPool(pools, l), PoolOfLease(pools, l);
    && own >= 0 && cur >= 0 && own != cur
    && m == RebalanceMove(l.text, l.hw, pools[cur].cls, D.ClassOf(l.hw))
    && pools[own].cls == m.toClass
  }

  ghost predicate Explained(pools: seq<PoolBound>, leases: seq<Lease>, fixed: set<string>, n: nat, m: RebalanceMove)
    requires n <= |leases|
  {
    exists k :: 0 <= k < n && leases[k].text !in fixed && MoveOf(pools, leases[k], m)
  }

  /** Every planned move releases a lease that is not fixed and sits in another pool than
      its class's own. */
  lemma {:induction false} EveryMoveExplained(pools: seq<PoolBound>, leases: seq<Lease>, fixed: set<string>, n: nat)
    requires n <= |leases|
    ensures forall j :: 0 <= j < |SweepOf(pools, leases, fixed, n).moves| ==>
              Explained(pools, leases, fixed, n, SweepOf(pools, leases, fixed, n).moves[j])
  {
    if n > 0 {
      EveryMoveExplained(pools, leases, fixed, n - 1);
      var s, s' := SweepOf(pools, leases, fixed, n - 1), SweepOf(pools, leases, fixed, n);
      hide SweepOf, D.ClassOf, PoolIndex, ClassIndex;
      forall j | 0 <= j < |s'.moves| ensures Explained(pools, leases, fixed, n, s'.moves[j]) {
        if j < |s.moves| {
          assert s'.moves[j] == s.moves[j];
          var k :| 0 <= k < n - 1 && leases[k].text !in fixed && MoveOf(pools, leases[k], s.moves[j]);
          assert leases[k].text !in fixed && MoveOf(pools, leases[k], s'.moves[j]);
        } else {
          assert leases[n - 1].text !in fixed && MoveOf(pools, leases[n - 1], s'.moves[j]);
        }
      }
    }
  }

  // ---- Guards ----

  /** Vendor-free pools of known classes, one pool per class, as a scope emits them. */
  ghost predicate KnownPools(ps: seq<L.Placement>) {
    && (forall i :: 0 <= i < |ps| && SP.Emitted(ps[i]) ==> SP.KnownClass(ps[i].cls))
    && (forall i, j :: 0 <= i < j < |ps| && SP.Emitted(ps[i]) && SP.Emitted(ps[j]) ==> ps[i].cls != ps[j].cls)
  }

  /** Every pool bound is an emitted placement. */
  lemma {:induction false} BoundsAreEmitted(ps: seq<L.Placement>, b: int) returns (i: nat)
    requires 0 <= b < |PoolBounds(ps)|
    ensures i < |ps| && SP.Emitted(ps[i]) && ps[i].cls != ""
    ensures PoolBounds(ps)[b] == PoolBound(ps[i].cls, ps[i].range.value.lo, ps[i].range.value.hi)
  {
    var n := |ps| - 1;
    if b < |PoolBounds(ps[..n])| {
      i := BoundsAreEmitted(ps[..n], b);
    } else {
      i := n;
    }
  }

  lemma ClassOfNormalized(hw: string)
    requires C.HexMac(NormalizeMac(hw))
    ensures D.ClassOf(NormalizeMac(hw)) == D.ClassOf(hw)
  {
    C.NormalizedIsHexMac(NormalizeMac(hw));
  }

  /** A released device cannot stay: its MAC fails the guard of the pool it leaves and
      meets the guard of the pool it enters. */
  lemma MoveChangesMembership(ps: seq<L.Placement>, l: Lease, m: RebalanceMove) returns (from: nat, to: nat)
    requires KnownPools(ps) && MoveOf(PoolBounds(ps), l, m) && C.HexMac(NormalizeMac(l.hw))
    ensures C.AllInTable(SP.Pooled(ps, |ps|))
    ensures from < |ps| && SP.Emitted(ps[from]) && ps[from].cls == m.fromClass
    ensures to < |ps| && SP.Emitted(ps[to]) && ps[to].cls == m.toClass
    ensures l.ip.Some? && ps[from].range.value.lo <= l.ip.value <= ps[from].range.value.hi
    ensures !SP.Admits(ps[from], SP.Pooled(ps, |ps|), NormalizeMac(l.hw))
    ensures SP.Admits(ps[to], SP.Pooled(ps, |ps|), NormalizeMac(l.hw))
  {
    var pools, mac := PoolBounds(ps), NormalizeMac(l.hw);
    var own, cur := OwnPool(pools, l), PoolOfLease(pools, l);
    from := BoundsAreEmitted(ps, cur);
    to := BoundsAreEmitted(ps, own);
    ClassOfNormalized(l.hw);
    assert pools[own].cls != pools[cur].cls by {
      FirstOfClass(pools, own, cur, D.ClassOf(l.hw));
      PoolClassesDistinct(ps, own, cur);
    }
    hide PoolBounds, D.ClassOf, C.HexMac, NormalizeMac, SP.Admits, PoolIndex, ClassIndex;
    SP.AdmitsByClass(ps, from, mac);
    SP.AdmitsByClass(ps, to, mac);
    OwnPoolIsPooled(ps, to, mac);
  }

  lemma FirstOfClass(pools: seq<PoolBound>, own: int, cur: int, cls: string)
    requires own == ClassIndex(pools, cls) && 0 <= own
    ensures pools[own].cls == cls
  {
  }

  lemma {:induction false} PoolClassesDistinct(ps: seq<L.Placement>, a: int, b: int)
    requires KnownPools(ps) && 0 <= a < |PoolBounds(ps)| && 0 <= b < |PoolBounds(ps)| && a != b
    ensures PoolBounds(ps)[a].cls != PoolBounds(ps)[b].cls
  {
    var n := |ps| - 1;
    var init := ps[..n];
    if a < |PoolBounds(init)| && b < |PoolBounds(init)| {
      PoolClassesDistinct(init, a, b);
    } else if a < |PoolBounds(init)| {
      var i := BoundsAreEmitted(init, a);
      assert SP.Emitted(ps[i]) && SP.Emitted(ps[n]);
    } else if b < |PoolBounds(init)| {
      var i := BoundsAreEmitted(init, b);
      assert SP.Emitted(ps[i]) && SP.Emitted(ps[n]);
    }
  }

  /** A device whose class has an emitted pool is not left to the catch-all. */
  lemma OwnPoolIsPooled(ps: seq<L.Placement>, to: nat, mac: string)
    requires to < |ps| && SP.Emitted(ps[to]) && SP.KnownClass(ps[to].cls) && ps[to].cls == D.ClassOf(mac)
    ensures D.ClassOf(mac) == OTHERS || D.ClassOf(mac) == GGO_OTHERS
            || C.PooledName(SP.Pooled(ps, |ps|), D.ClassOf(mac))
    ensures D.ClassOf(mac) == GGO_OTHERS ==> !C.PooledName(SP.Pooled(ps, |ps|), D.ClassOf(mac))
  {
    SP.PooledNameExact(ps, |ps|, D.ClassOf(mac));
    hide D.ClassOf, SP.Pooled, C.PooledName;
    if SP.ClassByName(ps[to].cls, 0).Some? {
      assert SP.EmittedName(ps, |ps|, ps[to].cls);
      SP.NotCatchAll(ps[to].cls);
    }
  }
}
