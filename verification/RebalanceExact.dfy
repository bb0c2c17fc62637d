/** Which leases a scope's rebalance moves, and which it must leave, from the pools and the
    leases alone (rebalance.go). */
module RebalanceExact {
  import opened Common
  import opened Addresses
  import opened Rebalance
  import D = DeviceClasses
  import L = PoolLayout

  /** The lease's address lies in pool i, and in no pool before it. */
  predicate SitsIn(pools: seq<PoolBound>, l: Lease, i: nat) {
    && i < |pools| && l.ip.Some? && pools[i].lo <= l.ip.value <= pools[i].hi
    && forall j :: 0 <= j < i ==> !(pools[j].lo <= l.ip.value <= pools[j].hi)
  }

  /** Pool i is the first of the lease's class. */
  predicate Belongs(pools: seq<PoolBound>, l: Lease, i: nat) {
    i < |pools| && pools[i].cls == D.ClassOf(l.hw) && forall j :: 0 <= j < i ==> pools[j].cls != D.ClassOf(l.hw)
  }

  /** A lease that is not fixed sits in pool cur although its class's pool is own. */
  predicate Misplaced(pools: seq<PoolBound>, l: Lease, fixed: set<string>, own: nat, cur: nat) {
    l.text !in fixed && Belongs(pools, l, own) && SitsIn(pools, l, cur) && own != cur
  }

  /** The first n leases that sit in pool i. */
  function Sitting(pools: seq<PoolBound>, leases: seq<Lease>, n: nat, i: nat): set<nat> {
    set k: nat | k < n && k < |leases| && SitsIn(pools, leases[k], i)
  }

  function SittingIn(pools: seq<PoolBound>, leases: seq<Lease>, at: set<nat>, n: nat, i: nat): set<nat> {
    set k: nat | k < n && k < |leases| && k in at && SitsIn(pools, leases[k], i)
  }

  function BoundFor(pools: seq<PoolBound>, leases: seq<Lease>, at: set<nat>, n: nat, i: nat): set<nat> {
    set k: nat | k < n && k < |leases| && k in at && Belongs(pools, leases[k], i)
  }

  /** How many devices pool i has when the n-th lease is looked at: those that sit there,
      and of the leases before the n-th that move (at), those that come less those that go. */
  function Load(pools: seq<PoolBound>, leases: seq<Lease>, at: set<nat>, n: nat, i: nat): int {
    |Sitting(pools, leases, |leases|, i)|
    + |BoundFor(pools, leases, at, n, i)| - |SittingIn(pools, leases, at, n, i)|
  }

  lemma SitsIsPoolOf(pools: seq<PoolBound>, l: Lease, i: nat)
    ensures SitsIn(pools, l, i) <==> PoolOfLease(pools, l) == i
    ensures Belongs(pools, l, i) <==> OwnPool(pools, l) == i
  {
    hide D.ClassOf;
  }

  /** The leases the sweep moves among the first n. */
  ghost function Chosen(pools: seq<PoolBound>, leases: seq<Lease>, fixed: set<string>, n: nat): set<nat>
    requires n <= |leases|
  {
    set k: nat | k < n && Moves(pools, leases[k], fixed, SweepOf(pools, leases, fixed, k).occ)
  }

  lemma SittingNext(pools: seq<PoolBound>, leases: seq<Lease>, n: nat, i: nat)
    requires n < |leases|
    ensures Sitting(pools, leases, 0, i) == {}
    ensures |Sitting(pools, leases, n + 1, i)|
            == |Sitting(pools, leases, n, i)| + (if SitsIn(pools, leases[n], i) then 1 else 0)
  {
    hide SitsIn;
    var before := Sitting(pools, leases, n, i);
    assert Sitting(pools, leases, n + 1, i) == if SitsIn(pools, leases[n], i) then before + {n} else before;
  }

  lemma CountNext(pools: seq<PoolBound>, leases: seq<Lease>, n: nat, i: nat)
    requires n < |leases|
    ensures Count(pools, leases[..n + 1], i)
            == Count(pools, leases[..n], i) + (if PoolOfLease(pools, leases[n]) == i then 1 else 0)
  {
    hide PoolOfLease;
    assert leases[..n + 1][..n] == leases[..n];
  }

  lemma {:induction false} CountIsSitting(pools: seq<PoolBound>, leases: seq<Lease>, n: nat, i: nat)
    requires n <= |leases|
    ensures Count(pools, leases[..n], i) == |Sitting(pools, leases, n, i)|
  {
    hide Count, Sitting, PoolOfLease, SitsIn;
    if n > 0 {
      var m := n - 1;
      CountIsSitting(pools, leases, m, i);
      SitsIsPoolOf(pools, leases[m], i);
      SittingNext(pools, leases, m, i);
      CountNext(pools, leases, m, i);
      assert m + 1 == n;
    } else {
      NoneSitting(pools, leases, i);
    }
  }

  lemma NoneSitting(pools: seq<PoolBound>, leases: seq<Lease>, i: nat)
    ensures Count(pools, leases[..0], i) == 0 && Sitting(pools, leases, 0, i) == {}
  {
  }

  lemma SizeSplit(a: set<nat>, b: set<nat>)
    requires a <= b
    ensures |b| == |a| + |b - a|
  {
    assert b == a + (b - a);
  }

  lemma SittingInNext(pools: seq<PoolBound>, leases: seq<Lease>, at: set<nat>, n: nat, i: nat)
    requires n < |leases|
    ensures |SittingIn(pools, leases, at, n + 1, i)|
            == |SittingIn(pools, leases, at, n, i)| + (if n in at && SitsIn(pools, leases[n], i) then 1 else 0)
  {
    hide SitsIn;
    var s := SittingIn(pools, leases, at, n, i);
    assert SittingIn(pools, leases, at, n + 1, i) == if n in at && SitsIn(pools, leases[n], i) then s + {n} else s;
  }

  lemma BoundForNext(pools: seq<PoolBound>, leases: seq<Lease>, at: set<nat>, n: nat, i: nat)
    requires n < |leases|
    ensures |BoundFor(pools, leases, at, n + 1, i)|
            == |BoundFor(pools, leases, at, n, i)| + (if n in at && Belongs(pools, leases[n], i) then 1 else 0)
  {
    hide Belongs;
    var s := BoundFor(pools, leases, at, n, i);
    assert BoundFor(pools, leases, at, n + 1, i) == if n in at && Belongs(pools, leases[n], i) then s + {n} else s;
  }

  lemma LoadNext(pools: seq<PoolBound>, leases: seq<Lease>, at: set<nat>, n: nat, i: nat)
    requires n < |leases|
    ensures Load(pools, leases, at, n + 1, i) == Load(pools, leases, at, n, i)
            + (if n in at && Belongs(pools, leases[n], i) then 1 else 0)
            - (if n in at && SitsIn(pools, leases[n], i) then 1 else 0)
  {
    hide SitsIn, Belongs, SittingIn, BoundFor, Sitting;
    SittingInNext(pools, leases, at, n, i);
    BoundForNext(pools, leases, at, n, i);
  }

  lemma LoadStart(pools: seq<PoolBound>, leases: seq<Lease>, at: set<nat>, i: nat)
    ensures Load(pools, leases, at, 0, i) == Count(pools, leases, i)
  {
    CountIsSitting(pools, leases, |leases|, i);
    assert leases[..|leases|] == leases;
    assert BoundFor(pools, leases, at, 0, i) == {} && SittingIn(pools, leases, at, 0, i) == {};
  }

  /** The n-th lease changes the occupancy by itself coming and going. */
  lemma OccNext(pools: seq<PoolBound>, leases: seq<Lease>, fixed: set<string>, n: nat, i: nat)
    requires n < |leases| && i < |pools|
    ensures var at, l := Chosen(pools, leases, fixed, |leases|), leases[n];
            SweepOf(pools, leases, fixed, n + 1).occ[i]
            == SweepOf(pools, leases, fixed, n).occ[i]
               + (if n in at && OwnPool(pools, l) == i then 1 else 0)
               - (if n in at && PoolOfLease(pools, l) == i then 1 else 0)
  {
    hide PoolOfLease, OwnPool, CapacityOf, SweepOf;
    SweepNext(pools, leases, fixed, n + 1);
  }

  /** The occupancy array holds the loads. */
  lemma {:induction false} OccIsLoad(pools: seq<PoolBound>, leases: seq<Lease>, fixed: set<string>, n: nat, i: nat)
    requires n <= |leases| && i < |pools|
    ensures SweepOf(pools, leases, fixed, n).occ[i] == Load(pools, leases, Chosen(pools, leases, fixed, |leases|), n, i)
  {
    hide Load, PoolOfLease, OwnPool, SitsIn, Belongs, Chosen, Step, SweepOf, Count;
    var at := Chosen(pools, leases, fixed, |leases|);
    if n == 0 {
      LoadStart(pools, leases, at, i);
      SweepStartsAt(pools, leases, fixed, i);
    } else {
      OccIsLoad(pools, leases, fixed, n - 1, i);
      LoadNext(pools, leases, at, n - 1, i);
      SitsIsPoolOf(pools, leases[n - 1], i);
      OccNext(pools, leases, fixed, n - 1, i);
    }
  }

  lemma SweepStartsAt(pools: seq<PoolBound>, leases: seq<Lease>, fixed: set<string>, i: nat)
    requires i < |pools|
    ensures SweepOf(pools, leases, fixed, 0).occ[i] == Count(pools, leases, i)
  {
    hide Count;
  }

  /** The n-th lease moves if and only if it is misplaced and finds room in its own pool. */
  ghost predicate Justly(pools: seq<PoolBound>, leases: seq<Lease>, fixed: set<string>, at: set<nat>, n: nat)
    requires n < |leases|
  {
    n in at <==> exists own: nat, cur: nat :: HasRoom(pools, leases, fixed, at, n, own, cur)
  }

  /** The n-th lease is misplaced in cur, and there is a free slot in its own pool. */
  predicate HasRoom(pools: seq<PoolBound>, leases: seq<Lease>, fixed: set<string>, at: set<nat>, n: nat, own: nat,
                    cur: nat)
    requires n < |leases|
  {
    && Misplaced(pools, leases[n], fixed, own, cur)
    && Load(pools, leases, at, n, own) < pools[own].hi - pools[own].lo + 1
  }

  lemma MovesIs(pools: seq<PoolBound>, leases: seq<Lease>, fixed: set<string>, n: nat)
    requires n < |leases|
    ensures Justly(pools, leases, fixed, Chosen(pools, leases, fixed, |leases|), n)
  {
    hide Load, PoolOfLease, OwnPool, SitsIn, Belongs, SweepOf;
    var l, at := leases[n], Chosen(pools, leases, fixed, |leases|);
    var own, cur := OwnPool(pools, l), PoolOfLease(pools, l);
    forall i: nat ensures SitsIn(pools, l, i) <==> cur == i { SitsIsPoolOf(pools, l, i); }
    forall i: nat ensures Belongs(pools, l, i) <==> own == i { SitsIsPoolOf(pools, l, i); }
    SittersHaveAddresses(pools, l);
    if own >= 0 && cur >= 0 {
      OccIsLoad(pools, leases, fixed, n, own);
      assert n in at <==> HasRoom(pools, leases, fixed, at, n, own, cur);
    }
  }

  lemma SittersHaveAddresses(pools: seq<PoolBound>, l: Lease)
    ensures PoolOfLease(pools, l) >= 0 ==> l.ip.Some?
  {
  }

  /** moves[j] releases the lease, out of the pool it sits in and for its class. */
  ghost predicate Releases(pools: seq<PoolBound>, l: Lease, m: RebalanceMove) {
    && m.text == l.text && m.hw == l.hw && m.toClass == D.ClassOf(l.hw)
    && exists cur: nat :: SitsIn(pools, l, cur) && m.fromClass == pools[cur].cls
  }

  /** The moves are those of the leases at these positions, in order. */
  ghost predicate MovesAt(pools: seq<PoolBound>, leases: seq<Lease>, moves: seq<RebalanceMove>, at: seq<nat>) {
    && |moves| == |at|
    && (forall j :: 0 <= j < |at| ==> at[j] < |leases| && Releases(pools, leases[at[j]], moves[j]))
    && (forall i, j :: 0 <= i < j < |at| ==> at[i] < at[j])
  }

  lemma MovesAtSnoc(pools: seq<PoolBound>, leases: seq<Lease>, moves: seq<RebalanceMove>, at: seq<nat>, n: nat,
                    m: RebalanceMove)
    requires MovesAt(pools, leases, moves, at) && n < |leases| && Releases(pools, leases[n], m)
    requires forall k :: k in at ==> k < n
    ensures MovesAt(pools, leases, moves + [m], at + [n])
  {
    hide Releases;
    assert forall j :: 0 <= j < |at| ==> at[j] in at;
  }

  lemma ChosenNext(pools: seq<PoolBound>, leases: seq<Lease>, fixed: set<string>, n: nat)
    requires n < |leases|
    ensures Chosen(pools, leases, fixed, n + 1)
            == Chosen(pools, leases, fixed, n)
               + (if Moves(pools, leases[n], fixed, SweepOf(pools, leases, fixed, n).occ) then {n} else {})
  {
    hide Moves, SweepOf;
  }

  lemma {:induction false} MovesListed(pools: seq<PoolBound>, leases: seq<Lease>, fixed: set<string>, n: nat)
    returns (at: seq<nat>)
    requires n <= |leases|
    ensures MovesAt(pools, leases, SweepOf(pools, leases, fixed, n).moves, at)
    ensures forall k :: k in at <==> k in Chosen(pools, leases, fixed, n)
    ensures forall k :: k in at ==> k < n
  {
    hide SweepOf, Chosen, MovesAt, Releases, Moves, Step;
    if n == 0 {
      at := [];
      NoMoves(pools, leases, fixed);
    } else {
      at := MovesListed(pools, leases, fixed, n - 1);
      var s := SweepOf(pools, leases, fixed, n - 1);
      SweepNext(pools, leases, fixed, n);
      ChosenNext(pools, leases, fixed, n - 1);
      if Moves(pools, leases[n - 1], fixed, s.occ) {
        MoveReleases(pools, leases[n - 1], fixed, s);
        var m :| Step(pools, leases[n - 1], fixed, s).moves == s.moves + [m] && Releases(pools, leases[n - 1], m);
        MovesAtSnoc(pools, leases, s.moves, at, n - 1, m);
        at := at + [n - 1];
      } else {
        StaysPut(pools, leases[n - 1], fixed, s);
      }
    }
  }

  lemma NoMoves(pools: seq<PoolBound>, leases: seq<Lease>, fixed: set<string>)
    ensures SweepOf(pools, leases, fixed, 0).moves == [] && MovesAt(pools, leases, [], [])
    ensures Chosen(pools, leases, fixed, 0) == {}
  {
  }

  lemma StaysPut(pools: seq<PoolBound>, l: Lease, fixed: set<string>, s: Sweep)
    requires |s.occ| == |pools| && !Moves(pools, l, fixed, s.occ)
    ensures Step(pools, l, fixed, s) == s
  {
  }

  lemma MoveReleases(pools: seq<PoolBound>, l: Lease, fixed: set<string>, s: Sweep)
    requires |s.occ| == |pools| && Moves(pools, l, fixed, s.occ)
    ensures exists m :: Step(pools, l, fixed, s).moves == s.moves + [m] && Releases(pools, l, m)
  {
    var cur := PoolOfLease(pools, l);
    SitsIsPoolOf(pools, l, cur);
    hide SitsIn, D.ClassOf, PoolOfLease;
    var m := RebalanceMove(l.text, l.hw, pools[cur].cls, D.ClassOf(l.hw));
    assert Releases(pools, l, m);
  }

  function Elements(at: seq<nat>): set<nat> { set k | k in at }

  /** The plan for a scope is exactly this: in order, every misplaced lease that finds room in
      its own pool, given the moves before it. A misplaced lease that is not moved found that
      pool holding its full capacity. */
  lemma PlanExactly(pools: seq<PoolBound>, leases: seq<Lease>, fixed: set<string>) returns (at: seq<nat>)
    ensures MovesAt(pools, leases, SweepOf(pools, leases, fixed, |leases|).moves, at)
    ensures forall n :: 0 <= n < |leases| ==> Justly(pools, leases, fixed, Elements(at), n)
  {
    at := MovesListed(pools, leases, fixed, |leases|);
    assert Elements(at) == Chosen(pools, leases, fixed, |leases|);
    hide Chosen, SweepOf;
    forall n | 0 <= n < |leases| ensures Justly(pools, leases, fixed, Elements(at), n) {
      MovesIs(pools, leases, fixed, n);
    }
  }

  // ---- What a free slot at the end means ----

  function Capacity(pools: seq<PoolBound>, i: nat): int
    requires i < |pools|
  {
    pools[i].hi - pools[i].lo + 1
  }

  /** How many of the moves from the n-th lease on leave pool i, less those that enter it. */
  function NetLeaving(pools: seq<PoolBound>, leases: seq<Lease>, at: set<nat>, n: nat, i: nat): int {
    var m := |leases|;
    |SittingIn(pools, leases, at, m, i) - SittingIn(pools, leases, at, n, i)|
    - |BoundFor(pools, leases, at, m, i) - BoundFor(pools, leases, at, n, i)|
  }

  lemma LoadLater(pools: seq<PoolBound>, leases: seq<Lease>, at: set<nat>, n: nat, i: nat)
    requires n <= |leases|
    ensures Load(pools, leases, at, |leases|, i) == Load(pools, leases, at, n, i) - NetLeaving(pools, leases, at, n, i)
  {
    hide SitsIn, Belongs, Sitting;
    var m := |leases|;
    SizeSplit(SittingIn(pools, leases, at, n, i), SittingIn(pools, leases, at, m, i));
    SizeSplit(BoundFor(pools, leases, at, n, i), BoundFor(pools, leases, at, m, i));
  }

  /** A misplaced lease that stays found its own pool full, and a slot is free there at the
      end exactly when later moves took more devices out of that pool than into it. */
  lemma FreeSlotExactly(pools: seq<PoolBound>, leases: seq<Lease>, fixed: set<string>, at: set<nat>, n: nat, own: nat,
                        cur: nat)
    requires n < |leases| && Misplaced(pools, leases[n], fixed, own, cur) && n !in at
    requires OnePerAddress(leases) && ProperPools(pools)
    requires at == Chosen(pools, leases, fixed, |leases|)
    ensures Load(pools, leases, at, n, own) == Capacity(pools, own)
    ensures Load(pools, leases, at, |leases|, own) < Capacity(pools, own) <==> NetLeaving(pools, leases, at, n, own) > 0
  {
    MovesIs(pools, leases, fixed, n);
    OccIsLoad(pools, leases, fixed, n, own);
    SweepWithinCapacity(pools, leases, fixed, n, own);
    LoadLater(pools, leases, at, n, own);
    hide Load, NetLeaving, SweepOf, Chosen, SitsIn, Belongs, OnePerAddress, ProperPools;
    assert !HasRoom(pools, leases, fixed, at, n, own, cur);
  }

  /** So a free slot at the end of a pool nothing moved out of means every misplaced lease of
      its class has moved. */
  lemma NothingLeftBehind(pools: seq<PoolBound>, leases: seq<Lease>, fixed: set<string>, at: set<nat>, n: nat, own: nat,
                          cur: nat)
    requires n < |leases| && Misplaced(pools, leases[n], fixed, own, cur)
    requires OnePerAddress(leases) && ProperPools(pools)
    requires at == Chosen(pools, leases, fixed, |leases|)
    requires Load(pools, leases, at, |leases|, own) < Capacity(pools, own)
    requires forall k :: k in at && k < |leases| ==> !SitsIn(pools, leases[k], own)
    ensures n in at
  {
    if n !in at {
      FreeSlotExactly(pools, leases, fixed, at, n, own, cur);
      NoneLeaves(pools, leases, at, n, own);
    }
  }

  lemma NoneLeaves(pools: seq<PoolBound>, leases: seq<Lease>, at: set<nat>, n: nat, i: nat)
    requires forall k :: k in at && k < |leases| ==> !SitsIn(pools, leases[k], i)
    ensures NetLeaving(pools, leases, at, n, i) <= 0
  {
    hide SitsIn, Belongs;
    assert SittingIn(pools, leases, at, |leases|, i) == {};
  }

  /** Otherwise a lease can be left behind: looked at while its pool of one address is full, it
      stays in the other pool although the later move frees that address. */
  lemma EarlyLeaseLeftBehind(a: string, b: string)
    requires D.ClassOf(a) != D.ClassOf(b)
    ensures var pools := [PoolBound(D.ClassOf(a), 10, 10), PoolBound(D.ClassOf(b), 11, 12)];
            var leases := [Lease(Some(11), "11", a), Lease(Some(10), "10", b)];
            && Misplaced(pools, leases[0], {}, 0, 1)
            && SweepOf(pools, leases, {}, 2) == Sweep([0, 2], [RebalanceMove("10", b, D.ClassOf(a), D.ClassOf(b))])
  {
    hide D.ClassOf, SweepOf, Step, Count, Occupancy, PoolIndex, ClassIndex, PoolOfLease, OwnPool;
    var pools := [PoolBound(D.ClassOf(a), 10, 10), PoolBound(D.ClassOf(b), 11, 12)];
    var leases := [Lease(Some(11), "11", a), Lease(Some(10), "10", b)];
    TwoPools(a, b, pools);
    TwoStarts(pools, leases);
    TwoSteps(a, b, pools, leases);
  }

  lemma TwoPools(a: string, b: string, pools: seq<PoolBound>)
    requires D.ClassOf(a) != D.ClassOf(b)
    requires pools == [PoolBound(D.ClassOf(a), 10, 10), PoolBound(D.ClassOf(b), 11, 12)]
    ensures var x, y := Lease(Some(11), "11", a), Lease(Some(10), "10", b);
            && PoolOfLease(pools, x) == 1 && PoolOfLease(pools, y) == 0
            && OwnPool(pools, x) == 0 && OwnPool(pools, y) == 1 && Misplaced(pools, x, {}, 0, 1)
  {
    hide D.ClassOf;
    var x, y := Lease(Some(11), "11", a), Lease(Some(10), "10", b);
    SitsIsPoolOf(pools, x, 1);
    SitsIsPoolOf(pools, y, 0);
    SitsIsPoolOf(pools, x, 0);
    SitsIsPoolOf(pools, y, 1);
  }

  lemma TwoStarts(pools: seq<PoolBound>, leases: seq<Lease>)
    requires |pools| == |leases| == 2 && PoolOfLease(pools, leases[0]) == 1 && PoolOfLease(pools, leases[1]) == 0
    ensures SweepOf(pools, leases, {}, 0) == Sweep([1, 1], [])
  {
    hide PoolOfLease;
    CountNext(pools, leases, 0, 0);
    CountNext(pools, leases, 0, 1);
    CountNext(pools, leases, 1, 0);
    CountNext(pools, leases, 1, 1);
    assert leases[..0] == [] && leases[..2] == leases;
  }

  lemma TwoSteps(a: string, b: string, pools: seq<PoolBound>, leases: seq<Lease>)
    requires pools == [PoolBound(D.ClassOf(a), 10, 10), PoolBound(D.ClassOf(b), 11, 12)]
    requires leases == [Lease(Some(11), "11", a), Lease(Some(10), "10", b)]
    requires PoolOfLease(pools, leases[0]) == 1 && PoolOfLease(pools, leases[1]) == 0
    requires OwnPool(pools, leases[0]) == 0 && OwnPool(pools, leases[1]) == 1
    requires SweepOf(pools, leases, {}, 0) == Sweep([1, 1], [])
    ensures SweepOf(pools, leases, {}, 2) == Sweep([0, 2], [RebalanceMove("10", b, D.ClassOf(a), D.ClassOf(b))])
  {
    hide D.ClassOf, PoolOfLease, OwnPool, SweepOf;
    SweepNext(pools, leases, {}, 1);
    SweepNext(pools, leases, {}, 2);
  }

  // ---- What goes into a scope's sweep ----

  /** The leases at increasing positions, exactly those with an address in the block. */
  lemma {:induction false} ScopeLeasesExactly(c: Cidr, leases: seq<Lease>) returns (at: seq<nat>)
    ensures |ScopeLeases(c, leases)| == |at| && forall i, j :: 0 <= i < j < |at| ==> at[i] < at[j]
    ensures forall j :: 0 <= j < |at| ==> at[j] < |leases| && ScopeLeases(c, leases)[j] == leases[at[j]]
    ensures forall k: nat :: k in at <==>
              && k < |leases| && leases[k].ip.Some? && c.V4?
              && Network(c.ip, c.len) <= leases[k].ip.value <= Broadcast(c.ip, c.len)
  {
    hide Network, Broadcast;
    if leases == [] {
      at := [];
    } else {
      var n := |leases| - 1;
      at := ScopeLeasesExactly(c, leases[..n]);
      assert forall k :: 0 <= k < n ==> leases[..n][k] == leases[k];
      if InScope(c, leases[n]) { at := at + [n]; }
    }
  }

  predicate TakesPart(p: L.Placement) { p.range.Some? && !p.kind.PoolReserve? && p.cls != "" }

  predicate BoundsAt(ps: seq<L.Placement>, pools: seq<PoolBound>, at: seq<nat>) {
    && |pools| == |at| && (forall i, j :: 0 <= i < j < |at| ==> at[i] < at[j])
    && forall j :: 0 <= j < |at| ==>
         && at[j] < |ps| && ps[at[j]].range.Some?
         && pools[j] == PoolBound(ps[at[j]].cls, ps[at[j]].range.value.lo, ps[at[j]].range.value.hi)
  }

  lemma BoundsAtSnoc(ps: seq<L.Placement>, pools: seq<PoolBound>, at: seq<nat>, p: L.Placement)
    requires BoundsAt(ps, pools, at) && forall k :: k in at ==> k < |ps|
    ensures BoundsAt(ps + [p], pools, at)
    ensures p.range.Some? ==>
              BoundsAt(ps + [p], pools + [PoolBound(p.cls, p.range.value.lo, p.range.value.hi)], at + [|ps|])
  {
    assert forall j :: 0 <= j < |at| ==> at[j] in at && (ps + [p])[at[j]] == ps[at[j]];
  }

  /** The pools that take part are, in order, those with a class and a range that are no
      reserve. */
  lemma {:induction false} PoolBoundsExactly(ps: seq<L.Placement>) returns (at: seq<nat>)
    ensures BoundsAt(ps, PoolBounds(ps), at)
    ensures forall k: nat :: k in at <==> k < |ps| && TakesPart(ps[k])
  {
    hide BoundsAt;
    if ps == [] {
      at := [];
      NoBounds();
    } else {
      var n := |ps| - 1;
      var init, p := ps[..n], ps[n];
      at := PoolBoundsExactly(init);
      BoundsAtSnoc(init, PoolBounds(init), at, p);
      PoolBoundsNext(ps);
      hide TakesPart, PoolBounds;
      assert init + [p] == ps;
      if TakesPart(p) { at := at + [n]; }
    }
  }

  lemma PoolBoundsNext(ps: seq<L.Placement>)
    requires ps != []
    ensures var init, p := ps[..|ps| - 1], ps[|ps| - 1];
            PoolBounds(ps) == if TakesPart(p)
                              then PoolBounds(init) + [PoolBound(p.cls, p.range.value.lo, p.range.value.hi)]
                              else PoolBounds(init)
  {
  }

  lemma NoBounds()
    ensures PoolBounds([]) == [] && BoundsAt([], [], [])
  {
  }

  /** Every scope's plan is part of the run's. */
  lemma {:induction false} EveryScopePlanned(scopes: seq<Scope>, leases: seq<Lease>, fixed: set<string>, s: nat)
    returns (k: nat)
    requires s < |scopes|
    ensures var all, own := AllMoves(scopes, leases, fixed), ScopeMoves(scopes[s], leases, fixed);
            k + |own| <= |all| && all[k..k + |own|] == own
  {
    hide ScopeMoves;
    var n := |scopes| - 1;
    if s < n {
      k := EveryScopePlanned(scopes[..n], leases, fixed, s);
    } else {
      k := |AllMoves(scopes[..n], leases, fixed)|;
    }
  }
}
