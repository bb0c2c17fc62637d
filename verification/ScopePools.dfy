/** The Kea pools a layout emits, their guards, and who each pool admits (profile.go). */
module ScopePools {
  import opened ClassNames
  import opened Common
  import opened Addresses
  import D = DeviceClasses
  import C = ClassPartition
  import L = PoolLayout
  import S = LayoutSafety
  import P = ScopePlan

  predicate Emitted(p: L.Placement) { !p.kind.PoolReserve? && p.range.Some? }

  function ClassByName(name: string, k: nat): Option<D.DeviceClass>
    requires k <= |D.TABLE|
    decreases |D.TABLE| - k
  {
    if k == |D.TABLE| then None
    else if D.TABLE[k].name == name then Some(D.TABLE[k])
    else ClassByName(name, k + 1)
  }

  lemma {:induction false} ClassByNameExact(name: string, k: nat)
    requires k <= |D.TABLE|
    ensures ClassByName(name, k).Some? ==>
            C.InTable(ClassByName(name, k).value) && ClassByName(name, k).value.name == name
    ensures ClassByName(name, k).None? ==> forall j :: k <= j < |D.TABLE| ==> D.TABLE[j].name != name
    decreases |D.TABLE| - k
  {
    if k < |D.TABLE| { ClassByNameExact(name, k + 1); }
  }

  /** pooledGGO: the device classes with a pool of their own among the first n placements. */
  function Pooled(ps: seq<L.Placement>, n: nat): seq<D.DeviceClass>
    requires n <= |ps|
  {
    if n == 0 then [] else
      Pooled(ps, n - 1)
      + (if Emitted(ps[n - 1]) && ClassByName(ps[n - 1].cls, 0).Some? then [ClassByName(ps[n - 1].cls, 0).value]
         else [])
  }

  method PooledGGO(ps: seq<L.Placement>) returns (pooled: seq<D.DeviceClass>)
    ensures pooled == Pooled(ps, |ps|)
  {
    pooled := [];
    var n := 0;
    while n < |ps|
      invariant 0 <= n <= |ps| && pooled == Pooled(ps, n)
    {
      if !(ps[n].kind.PoolReserve? || ps[n].range.None?) {
        var dc := ClassByName(ps[n].cls, 0);
        if dc.Some? {
          pooled := pooled + [dc.value];
        }
      }
      n := n + 1;
    }
  }

  ghost predicate EmittedName(ps: seq<L.Placement>, n: nat, name: string)
    requires n <= |ps|
  {
    exists i :: 0 <= i < n && Emitted(ps[i]) && ps[i].cls == name && ClassByName(name, 0).Some?
  }

  lemma {:induction false} PooledInTable(ps: seq<L.Placement>, n: nat)
    requires n <= |ps|
    ensures C.AllInTable(Pooled(ps, n))
  {
    if n > 0 {
      PooledInTable(ps, n - 1);
      ClassByNameExact(ps[n - 1].cls, 0);
      hide ClassByName, C.InTable;
    }
  }

  /** A name is pooled exactly when it is a device class with an emitted pool. */
  lemma {:induction false} PooledNameExact(ps: seq<L.Placement>, n: nat, name: string)
    requires n <= |ps|
    ensures C.PooledName(Pooled(ps, n), name) <==> EmittedName(ps, n, name)
  {
    if n > 0 {
      PooledNameExact(ps, n - 1, name);
      PooledNameGrows(ps, n, name);
      hide ClassByName, Emitted, C.PooledName;
    }
  }

  lemma PooledNameGrows(ps: seq<L.Placement>, n: nat, name: string)
    requires 0 < n <= |ps|
    ensures C.PooledName(Pooled(ps, n), name) <==>
            C.PooledName(Pooled(ps, n - 1), name)
              || (Emitted(ps[n - 1]) && ps[n - 1].cls == name && ClassByName(name, 0).Some?)
  {
    ClassByNameExact(ps[n - 1].cls, 0);
    var init, all := Pooled(ps, n - 1), Pooled(ps, n);
    hide ClassByName;
    if i :| 0 <= i < |init| && init[i].name == name { assert all[i].name == name; }
    if Emitted(ps[n - 1]) && ps[n - 1].cls == name && ClassByName(name, 0).Some? { assert all[|all| - 1].name == name; }
  }

  /** Whether a pool's client-class guard admits a MAC in a scope with these classes pooled. */
  predicate Admits(p: L.Placement, pooled: seq<D.DeviceClass>, mac: string)
    requires C.AllInTable(pooled)
  {
    if p.cls == "" then true
    else if p.cls == OTHERS then D.Eval(D.OTHERS_TEST, mac)
    else if p.cls == GGO_OTHERS then
      AllWellFormed(pooled);
      D.Eval(D.OthersOf(pooled), mac)
    else
      match ClassByName(p.cls, 0)
      case None => false
      case Some(dc) =>
        ClassByNameExact(p.cls, 0);
        C.TableShape(dc);
        D.Eval(D.ClassTest(dc), mac)
  }

  lemma AllWellFormed(pooled: seq<D.DeviceClass>)
    requires C.AllInTable(pooled)
    ensures forall i :: 0 <= i < |pooled| ==> D.WellFormed(pooled[i])
  {
    forall i | 0 <= i < |pooled| ensures D.WellFormed(pooled[i]) { C.TableShape(pooled[i]); }
  }

  predicate KnownClass(cls: string) {
    cls == OTHERS || cls == GGO_OTHERS || ClassByName(cls, 0).Some?
  }

  /** A guard admits exactly the MACs of the pool's class; the catch-all also those whose
      class has no pool here. */
  lemma AdmitsByClass(ps: seq<L.Placement>, i: nat, mac: string)
    requires i < |ps| && Emitted(ps[i]) && KnownClass(ps[i].cls) && C.HexMac(mac)
    ensures C.AllInTable(Pooled(ps, |ps|))
    ensures Admits(ps[i], Pooled(ps, |ps|), mac) <==>
            if ps[i].cls == GGO_OTHERS
            then D.ClassOf(mac) != OTHERS && !C.PooledName(Pooled(ps, |ps|), D.ClassOf(mac))
            else D.ClassOf(mac) == ps[i].cls
  {
    var pooled, cls := Pooled(ps, |ps|), ps[i].cls;
    PooledInTable(ps, |ps|);
    hide D.ClassOf, C.HexMac, C.PooledName, Pooled, C.AllInTable, D.OthersOf, D.Eval;
    if cls == GGO_OTHERS {
      C.GGOOthersAgrees(pooled, mac);
    } else if cls == OTHERS {
      C.OthersTestAgrees(mac);
    } else {
      DeviceGuard(ps[i], pooled, mac);
    }
  }

  lemma DeviceGuard(p: L.Placement, pooled: seq<D.DeviceClass>, mac: string)
    requires C.AllInTable(pooled) && C.HexMac(mac) && ClassByName(p.cls, 0).Some?
    ensures Admits(p, pooled, mac) <==> D.ClassOf(mac) == p.cls
  {
    NotCatchAll(p.cls);
    ClassByNameExact(p.cls, 0);
    var dc := ClassByName(p.cls, 0).value;
    C.TableShape(dc);
    assert p.cls != "" by { NoEmptyName(dc); }
    hide D.ClassOf, C.HexMac, C.AllInTable, D.Eval, ClassByName;
    var k :| 0 <= k < |D.TABLE| && D.TABLE[k] == dc;
    C.ClassTestAgrees(k, mac);
  }

  lemma NoEmptyName(dc: D.DeviceClass)
    requires C.InTable(dc)
    ensures dc.name != ""
  {
  }

  /** Known classes, one pool each, both catch-alls present. */
  ghost predicate Complete(ps: seq<L.Placement>) {
    && (forall i :: 0 <= i < |ps| && Emitted(ps[i]) ==> KnownClass(ps[i].cls))
    && (forall i, j :: 0 <= i < j < |ps| && Emitted(ps[i]) && Emitted(ps[j]) ==> ps[i].cls != ps[j].cls)
    && (exists i :: 0 <= i < |ps| && Emitted(ps[i]) && ps[i].cls == OTHERS)
    && (exists i :: 0 <= i < |ps| && Emitted(ps[i]) && ps[i].cls == GGO_OTHERS)
  }

  ghost predicate AdmittedBy(ps: seq<L.Placement>, mac: string, i: nat)
    requires C.AllInTable(Pooled(ps, |ps|))
  {
    i < |ps| && Emitted(ps[i]) && Admits(ps[i], Pooled(ps, |ps|), mac)
  }

  /** In a complete scope every MAC is admitted to exactly one emitted pool, so the order
      in which Kea tries the pools cannot matter. */
  lemma AdmittedExactlyOnce(ps: seq<L.Placement>, mac: string) returns (i: nat)
    requires Complete(ps) && C.HexMac(mac)
    ensures C.AllInTable(Pooled(ps, |ps|))
    ensures AdmittedBy(ps, mac, i)
    ensures forall j :: AdmittedBy(ps, mac, j) ==> j == i
  {
    i := AdmittedOnce(ps, mac);
    hide AdmittedBy, Complete, C.HexMac;
    forall j | AdmittedBy(ps, mac, j) ensures j == i {
      AdmittedUniquely(ps, mac, i, j);
    }
  }

  lemma AdmittedOnce(ps: seq<L.Placement>, mac: string) returns (i: nat)
    requires Complete(ps) && C.HexMac(mac)
    ensures C.AllInTable(Pooled(ps, |ps|)) && AdmittedBy(ps, mac, i)
  {
    var c, pooled := D.ClassOf(mac), Pooled(ps, |ps|);
    PooledInTable(ps, |ps|);
    PooledNameExact(ps, |ps|, c);
    hide D.ClassOf, Pooled, C.HexMac, Admits, C.PooledName, C.AllInTable;
    if c == OTHERS {
      i :| 0 <= i < |ps| && Emitted(ps[i]) && ps[i].cls == OTHERS;
    } else if C.PooledName(pooled, c) {
      i :| 0 <= i < |ps| && Emitted(ps[i]) && ps[i].cls == c && ClassByName(c, 0).Some?;
      NotCatchAll(c);
    } else {
      i :| 0 <= i < |ps| && Emitted(ps[i]) && ps[i].cls == GGO_OTHERS;
    }
    AdmitsByClass(ps, i, mac);
  }

  lemma AdmittedUniquely(ps: seq<L.Placement>, mac: string, i: nat, j: nat)
    requires Complete(ps) && C.HexMac(mac) && C.AllInTable(Pooled(ps, |ps|))
    requires AdmittedBy(ps, mac, i) && AdmittedBy(ps, mac, j)
    ensures i == j
  {
    hide D.ClassOf, Pooled, C.HexMac, Admits, C.PooledName, C.AllInTable;
    var c := D.ClassOf(mac);
    AdmitsByClass(ps, i, mac);
    AdmitsByClass(ps, j, mac);
    if ps[i].cls != GGO_OTHERS && ps[i].cls != OTHERS { PoolOfOwnClass(ps, i); }
    if ps[j].cls != GGO_OTHERS && ps[j].cls != OTHERS { PoolOfOwnClass(ps, j); }
    assert ps[i].cls == ps[j].cls;
  }

  lemma PoolOfOwnClass(ps: seq<L.Placement>, i: nat)
    requires i < |ps| && Emitted(ps[i]) && ClassByName(ps[i].cls, 0).Some?
    ensures C.PooledName(Pooled(ps, |ps|), ps[i].cls)
  {
    hide Pooled, C.PooledName;
    PooledNameExact(ps, |ps|, ps[i].cls);
    assert EmittedName(ps, |ps|, ps[i].cls);
  }

  lemma NotCatchAll(cls: string)
    requires ClassByName(cls, 0).Some?
    ensures cls != OTHERS && cls != GGO_OTHERS
  {
    ClassByNameExact(cls, 0);
    C.TableShape(ClassByName(cls, 0).value);
  }

  // ---- Seeded plans ----

  /** Positions in the seed order, so that seeded classes are distinct. */
  lemma SeedOrderDistinct(j: nat, k: nat)
    requires j < |P.SEED_ORDER| && k < |P.SEED_ORDER| && P.SEED_ORDER[j] == P.SEED_ORDER[k]
    ensures j == k
  {
  }

  lemma SeedOrderKnown(k: nat)
    requires k < |P.SEED_ORDER|
    ensures ClassByName(P.SEED_ORDER[k], 0).Some? && P.SEED_ORDER[k] != OTHERS && P.SEED_ORDER[k] != GGO_OTHERS
  {
    var name := P.SEED_ORDER[k];
    var j := SeedRow(k);
    assert D.TABLE[j].name == name;
    ClassByNameExact(name, 0);
    C.TableShape(D.TABLE[j]);
  }

  /** The table row of the k-th seeded class. */
  function SeedRow(k: nat): (j: nat)
    requires k < |P.SEED_ORDER|
    ensures j < |D.TABLE|
  {
    if k == 4 then 5 else if k == 5 then 4 else k
  }

  lemma {:induction false} SeedFixedShape(counts: P.Counts, n: nat)
    requires n <= |P.SEED_ORDER|
    ensures forall i :: 0 <= i < |P.SeedFixed(counts, n)| ==>
              var e := P.SeedFixed(counts, n)[i];
              e.kind.EntryFixed? && !e.isExplicit && e.range.NoRange? && SeededName(e.cls, n)
    ensures forall i, j :: 0 <= i < j < |P.SeedFixed(counts, n)| ==>
            P.SeedFixed(counts, n)[i].cls != P.SeedFixed(counts, n)[j].cls
  {
    if n > 0 {
      SeedFixedShape(counts, n - 1);
      var m := n - 1;
      forall name | SeededName(name, m) ensures name != P.SEED_ORDER[m] && SeededName(name, n) {
        var k :| 0 <= k < m && P.SEED_ORDER[k] == name;
        if name == P.SEED_ORDER[m] { SeedOrderDistinct(k, m); }
      }
    }
  }

  ghost predicate SeededName(name: string, n: nat)
    requires n <= |P.SEED_ORDER|
  {
    exists k :: 0 <= k < n && P.SEED_ORDER[k] == name
  }

  /** A seeded Green-GO plan: the reserve, then distinct unpinned pools of known classes,
      the two catch-alls last and elastic. */
  ghost predicate SeedShape(plan: seq<P.PoolPlanEntry>) {
    && |plan| >= 3 && plan[0] == P.Reserve()
    && (forall i :: 1 <= i < |plan| ==>
        !plan[i].kind.EntryReserve? && !plan[i].isExplicit && plan[i].range.NoRange? && KnownClass(plan[i].cls))
    && (forall i, j :: 1 <= i < j < |plan| ==> plan[i].cls != plan[j].cls)
    && plan[|plan| - 2].cls == GGO_OTHERS && plan[|plan| - 1].cls == OTHERS
  }

  lemma SeededHasShape(counts: P.Counts)
    ensures SeedShape(P.Seeded(true, counts))
  {
    var n := |P.SEED_ORDER|;
    var mid := P.SeedFixed(counts, n);
    var plan := P.Seeded(true, counts);
    SeedFixedShape(counts, n);
    hide ClassByName, P.SeedFixed;
    forall i | 0 <= i < |mid| ensures mid[i].cls != OTHERS && mid[i].cls != GGO_OTHERS && KnownClass(mid[i].cls) {
      var k :| 0 <= k < n && P.SEED_ORDER[k] == mid[i].cls;
      SeedOrderKnown(k);
    }
    forall i | 1 <= i < |plan| - 2 ensures plan[i] == mid[i - 1] { }
  }

  /** Every pool of a laid-out seeded plan is emitted with at least its class floor. */
  lemma SeedShapeEmitted(c: Cidr, plan: seq<P.PoolPlanEntry>, k: nat)
    requires SeedShape(plan) && L.Layout(c, P.SpecsOf(plan)).Ok? && k < |plan|
    ensures var p := L.Layout(c, P.SpecsOf(plan)).value[k];
            && (k == 0 ==> !Emitted(p))
            && (k > 0 ==> Emitted(p) && p.cls == plan[k].cls && Size(p.range.value) >= L.FloorForClass(p.cls))
  {
    var specs := P.SpecsOf(plan);
    S.LayoutSafe(PoolWindow(c).value, specs);
    hide L.LayoutIn, PoolWindow;
    assert S.Delivered(specs[k], L.LayoutIn(PoolWindow(c).value, specs).value[k]);
    if k > 0 && plan[k].kind.EntryFixed? { P.SpecMeetsFloor(plan[k]); }
  }

  /** A seeded Green-GO plan that lays out admits every MAC to exactly one emitted pool,
      and that pool is not empty. */
  lemma SeededPlanAdmitsOnce(c: Cidr, counts: P.Counts, mac: string) returns (i: nat)
    requires L.Layout(c, P.SpecsOf(P.Seeded(true, counts))).Ok? && C.HexMac(mac)
    ensures var ps := L.Layout(c, P.SpecsOf(P.Seeded(true, counts))).value;
            && C.AllInTable(Pooled(ps, |ps|))
            && AdmittedBy(ps, mac, i) && Size(ps[i].range.value) >= L.LAYOUT_MIN_POOL
            && forall j :: AdmittedBy(ps, mac, j) ==> j == i
  {
    var plan := P.Seeded(true, counts);
    SeededHasShape(counts);
    hide P.Seeded, L.Layout;
    var ps := L.Layout(c, P.SpecsOf(plan)).value;
    assert |ps| == |plan|;
    forall k | 0 <= k < |ps|
      ensures k == 0 ==> !Emitted(ps[k])
      ensures k > 0 ==> Emitted(ps[k]) && ps[k].cls == plan[k].cls
      ensures k > 0 ==> Size(ps[k].range.value) >= L.FloorForClass(ps[k].cls)
    {
      SeedShapeEmitted(c, plan, k);
    }
    hide Emitted, KnownClass;
    assert Emitted(ps[|ps| - 1]) && Emitted(ps[|ps| - 2]);
    assert Complete(ps);
    i := AdmittedExactlyOnce(ps, mac);
  }
}
