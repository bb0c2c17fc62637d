/** What the allocator is asked for, entry by entry: the sizes, floors and weights in numbers,
    and which forecast count feeds which class. */
module SeededPlans {
  import D = DeviceClasses
  import L = PoolLayout
  import opened ScopePlan

  /** The pool asked for by each kind of entry: an automatic size is the count or the class's
      minimum, 10 for the catch-alls and 5 otherwise; only a catch-all's own size has one. */
  lemma SpecExactly(e: PoolPlanEntry)
    ensures var s, least := ToSpec(e), if e.cls in {"GGO-OTHERS", "OTHERS"} then 10 else 5;
            && s.range == e.range && s.cls == (if e.kind == EntryReserve then "" else e.cls)
            && (e.kind == EntryElastic ==>
                s.kind == L.PoolElastic && s.size == 0 && s.weight >= 1 && (s.weight == 1 || s.weight == e.weight))
            && (e.kind == EntryElastic ==> s.weight >= e.weight)
            && (e.kind == EntryReserve ==> s.kind == L.PoolReserve && s.size == e.count && s.weight == 0)
            && (e.kind == EntryFixed ==> s.kind == L.PoolFixed && s.weight == 0)
            && (e.kind == EntryFixed && (!e.isExplicit || least == 10) ==>
                s.size >= e.count && s.size >= least && (s.size == e.count || s.size == least))
            && (e.kind == EntryFixed && e.isExplicit && least == 5 ==> s.size == e.count)
  {
  }

  // ---- Seeded plans ----

  /** The seeded classes in order, each with the forecast count that sizes it. */
  const FORECASTS: seq<(string, string)> := [
    ("GGO-BPX", "count_bpx"), ("GGO-MCX-D", "count_mcx"), ("GGO-MCD-MCR", "count_mcd"), ("GGO-WP-X", "count_wpx"),
    ("GGO-WAA", "count_waa"), ("GGO-STRIDE", "count_stride"), ("GGO-RDX-SI-BEACON", "count_beacon"),
    ("GGO-INTERFACE-Q4WR", "count_interface"), ("GGO-BRIDGE-DANTEX", "count_bridge"), ("GGO-SWITCH", "count_switch")
  ]

  function Forecast(counts: Counts, k: nat): int
    requires k < |FORECASTS|
  {
    if FORECASTS[k].1 in counts then counts[FORECASTS[k].1] else 0
  }

  /** Row m of the table is the first of its name. */
  lemma {:induction false} CountAtRow(counts: Counts, cls: string, k: nat, m: nat)
    requires k <= m < |D.TABLE| && D.TABLE[m].name == cls
    requires forall j :: k <= j < m ==> D.TABLE[j].name != cls
    ensures CountFrom(counts, cls, k)
            == if D.TABLE[m].countKey in counts then counts[D.TABLE[m].countKey] else 0
    decreases m - k
  {
    if k < m { CountAtRow(counts, cls, k + 1, m); }
  }

  lemma RowsDiffer(j: nat, m: nat)
    requires j < m < |D.TABLE|
    ensures D.TABLE[j].name != D.TABLE[m].name
  {
  }

  /** The table row of the k-th seeded class. */
  lemma RowOfForecast(k: nat) returns (m: nat)
    requires k < |FORECASTS|
    ensures k < |SEED_ORDER| && SEED_ORDER[k] == FORECASTS[k].0
    ensures m < |D.TABLE| && D.TABLE[m].name == FORECASTS[k].0 && D.TABLE[m].countKey == FORECASTS[k].1
  {
    m := if k == 4 then 5 else if k == 5 then 4 else k;
  }

  lemma CountIsForecast(counts: Counts, k: nat)
    requires k < |FORECASTS|
    ensures k < |SEED_ORDER| && SEED_ORDER[k] == FORECASTS[k].0
    ensures CountFor(counts, SEED_ORDER[k]) == Forecast(counts, k)
  {
    hide CountFrom;
    var m := RowOfForecast(k);
    forall j | 0 <= j < m ensures D.TABLE[j].name != D.TABLE[m].name { RowsDiffer(j, m); }
    CountAtRow(counts, SEED_ORDER[k], 0, m);
  }

  /** Spec s is the fixed pool of the k-th seeded class: its count, or 5 when that is more. */
  predicate SizedBy(counts: Counts, k: nat, s: L.PoolSpec) {
    && k < |FORECASTS| && Forecast(counts, k) > 0
    && s == L.PoolSpec(FORECASTS[k].0, L.PoolFixed, if Forecast(counts, k) < 5 then 5 else Forecast(counts, k), 0,
                       L.NoRange)
  }

  /** specs are the pools of exactly the first n seeded classes with a count, in order. */
  ghost predicate Picks(counts: Counts, specs: seq<L.PoolSpec>, pick: seq<nat>, n: nat) {
    && |specs| == |pick|
    && (forall i :: 0 <= i < |pick| ==> pick[i] < n && SizedBy(counts, pick[i], specs[i]))
    && (forall i, j :: 0 <= i < j < |pick| ==> pick[i] < pick[j])
    && (forall k :: 0 <= k < n && k < |FORECASTS| && Forecast(counts, k) > 0 ==> k in pick)
  }

  lemma PicksNext(counts: Counts, specs: seq<L.PoolSpec>, pick: seq<nat>, n: nat, s: L.PoolSpec)
    requires Picks(counts, specs, pick, n) && SizedBy(counts, n, s)
    ensures Picks(counts, specs + [s], pick + [n], n + 1)
  {
    hide SizedBy, Forecast;
    var longer := pick + [n];
    forall k | 0 <= k < n + 1 && k < |FORECASTS| && Forecast(counts, k) > 0 ensures k in longer {
      if k < n { assert k in pick; } else { assert longer[|pick|] == k; }
    }
  }

  lemma PicksPass(counts: Counts, specs: seq<L.PoolSpec>, pick: seq<nat>, n: nat)
    requires Picks(counts, specs, pick, n) && n < |FORECASTS| && Forecast(counts, n) <= 0
    ensures Picks(counts, specs, pick, n + 1)
  {
    hide SizedBy, Forecast;
  }

  lemma {:induction false} FixedExactly(counts: Counts, n: nat) returns (pick: seq<nat>)
    requires n <= |FORECASTS|
    ensures n <= |SEED_ORDER| && Picks(counts, SpecsOf(SeedFixed(counts, n)), pick, n)
  {
    hide CountFor, SizedBy, Picks, ToSpec, Forecast;
    if n == 0 {
      pick := [];
      NonePicked(counts);
      assert SpecsOf(SeedFixed(counts, 0)) == [];
    } else {
      pick := FixedExactly(counts, n - 1);
      CountIsForecast(counts, n - 1);
      var before := SeedFixed(counts, n - 1);
      if Forecast(counts, n - 1) > 0 {
        var e := FixedAuto(FORECASTS[n - 1].0, Forecast(counts, n - 1));
        FixedSpec(counts, n - 1);
        SpecsAppend(before, [e]);
        assert SpecsOf([e]) == [ToSpec(e)];
        assert SeedFixed(counts, n) == before + [e];
        PicksNext(counts, SpecsOf(before), pick, n - 1, ToSpec(e));
        pick := pick + [n - 1];
      } else {
        PicksPass(counts, SpecsOf(before), pick, n - 1);
        assert SeedFixed(counts, n) == before;
      }
    }
  }

  lemma NonePicked(counts: Counts)
    ensures Picks(counts, [], [], 0)
  {
  }

  lemma FixedSpec(counts: Counts, k: nat)
    requires k < |FORECASTS| && Forecast(counts, k) > 0
    ensures SizedBy(counts, k, ToSpec(FixedAuto(FORECASTS[k].0, Forecast(counts, k))))
  {
    NotCatchAll(k);
  }

  lemma NotCatchAll(k: nat)
    requires k < |FORECASTS|
    ensures !L.IsCatchAll(FORECASTS[k].0)
  {
  }

  lemma SpecsAppend(a: seq<PoolPlanEntry>, b: seq<PoolPlanEntry>)
    ensures SpecsOf(a + b) == SpecsOf(a) + SpecsOf(b)
  {
    hide ToSpec;
  }

  /** A seeded scope asks for a reserve of 18, then, on a Green-GO scope, a fixed pool for
      exactly the classes with a forecast count, in order, and the two elastic catch-alls with
      weights 2 and 1; on any other scope for one elastic pool of weight 1. */
  lemma SeededExactly(greengo: bool, counts: Counts) returns (fixed: seq<L.PoolSpec>, pick: seq<nat>)
    ensures Picks(counts, fixed, pick, 10)
    ensures SpecsOf(Seeded(greengo, counts)) ==
            [L.PoolSpec("", L.PoolReserve, 18, 0, L.NoRange)]
            + if greengo then fixed + [L.PoolSpec("GGO-OTHERS", L.PoolElastic, 0, 2, L.NoRange),
                                       L.PoolSpec("OTHERS", L.PoolElastic, 0, 1, L.NoRange)]
              else [L.PoolSpec("", L.PoolElastic, 0, 1, L.NoRange)]
  {
    hide SeedFixed, Picks;
    pick := FixedExactly(counts, 10);
    var mid := SeedFixed(counts, 10);
    fixed := SpecsOf(mid);
    var last := [ElasticWeighted("GGO-OTHERS", 2), ElasticWeighted("OTHERS", 1)];
    if greengo {
      assert Seeded(greengo, counts) == [Reserve()] + mid + last;
      SpecsAppend([Reserve()], mid);
      SpecsAppend([Reserve()] + mid, last);
    }
  }
}
