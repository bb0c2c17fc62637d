/** When a plan that fits n addresses also fits every larger window (layout.go). */
module FitGrowth {
  import opened Common
  import opened PoolLayout
  import opened LayoutNoPins
  import opened FitCidr
  import P = ScopePlan

  function Elastics(specs: seq<PoolSpec>): (idx: seq<nat>)
    ensures Indexes(specs, idx)
  {
    ElasticIdxExact(specs, |specs|);
    ElasticIdx(specs, |specs|)
  }

  ghost predicate Monotone(specs: seq<PoolSpec>) {
    forall n: int, m: int :: Fits(specs, n) && n <= m ==> Fits(specs, m)
  }

  /** The guard: at most two elastic pools, or another one with at least the floor of the
      first heaviest. */
  ghost predicate GrowsSafely(specs: seq<PoolSpec>) {
    |Elastics(specs)| <= 2 || exists j :: 0 <= j < |specs| && BacksHeaviest(specs, j)
  }

  predicate BacksHeaviest(specs: seq<PoolSpec>, j: nat)
    requires j < |specs|
  {
    && Elastic(specs[j]) && Elastics(specs) != [] && j != HeaviestElastic(specs)
    && HeaviestElastic(specs) < |specs|
    && FloorForClass(specs[HeaviestElastic(specs)].cls) <= FloorForClass(specs[j].cls)
  }

  /** Of one remainder, the heavier pool gets the larger share. */
  lemma ShareByWeight(light: PoolSpec, heavy: PoolSpec, r: nat, w: nat)
    requires w > 0 && WeightOf(light) <= WeightOf(heavy)
    ensures Share(light, r, w) <= Share(heavy, r, w)
  {
    ShareIsFloor(light, r, w);
    ShareIsFloor(heavy, r, w);
    MulMonotone(WeightOf(light), WeightOf(heavy), r);
    var a, b := Share(light, r, w), Share(heavy, r, w);
    hide Share;
    if a > b { MulMonotone(b + 1, a, w); }
  }

  /** The first heaviest elastic pool, if there is one, has its floor at m addresses. */
  predicate HeaviestHasFloor(specs: seq<PoolSpec>, m: int)
    requires FixedSum(specs, |specs|) <= m
  {
    Elastics(specs) != [] ==>
      var h := HeaviestElastic(specs); h < |specs| && SizeOf(specs, h, m) >= FloorForClass(specs[h].cls)
  }

  /** A plan that fits n addresses fits a larger window if and only if the first heaviest
      elastic pool has its floor there: it alone can lose it. */
  lemma GrowthFitsExactly(specs: seq<PoolSpec>, n: int, m: int)
    requires Fits(specs, n) && n <= m
    ensures Fits(specs, m) <==> HeaviestHasFloor(specs, m)
  {
    if Elastics(specs) != [] { HeaviestIsElastic(specs); }
    hide SizeOf, HeaviestElastic, ElasticIdx, FixedSum, FloorForClass;
    if HeaviestHasFloor(specs, m) {
      forall i | 0 <= i < |specs| && Elastic(specs[i]) ensures SizeOf(specs, i, m) >= FloorForClass(specs[i].cls) {
        SomeElastic(specs, i);
        if i != HeaviestElastic(specs) { OtherStillFits(specs, n, m, i); }
      }
    }
  }

  lemma BackedHeaviestFits(specs: seq<PoolSpec>, n: int, m: int, j: nat)
    requires Fits(specs, n) && n <= m && j < |specs| && BacksHeaviest(specs, j)
    ensures var h := HeaviestElastic(specs); SizeOf(specs, h, m) >= FloorForClass(specs[h].cls)
  {
    var h := HeaviestElastic(specs);
    SomeElastic(specs, j);
    HeaviestIsFirst(specs, j);
    assert SizeOf(specs, j, n) >= FloorForClass(specs[j].cls);
    hide SizeOf, HeaviestElastic, ElasticIdx, FixedSum, FloorForClass, Share, Fits;
    OtherStillFits(specs, n, m, j);
    ElasticSize(specs, m, j);
    ElasticSize(specs, m, h);
    ShareByWeight(specs[j], specs[h], m - FixedSum(specs, |specs|), WeightSum(specs, ElasticIdx(specs, |specs|)));
  }

  /** Two elastic pools: the heaviest gets all but the other's share. */
  lemma PairSize(specs: seq<PoolSpec>, free: int, h: nat, j: nat)
    requires FixedSum(specs, |specs|) <= free && Elastics(specs) in {[h, j], [j, h]} && h != j
    requires h < |specs| && Elastic(specs[h]) && h == HeaviestElastic(specs)
    ensures j < |specs| && WeightSum(specs, Elastics(specs)) == WeightOf(specs[h]) + WeightOf(specs[j])
    ensures SizeOf(specs, h, free)
            == free - FixedSum(specs, |specs|)
               - Share(specs[j], free - FixedSum(specs, |specs|), WeightSum(specs, Elastics(specs)))
  {
    hide Share, Heaviest, ShareSum, WeightSum, FixedSum, ElasticIdx, WeightOf, EarlierLighter;
    var idx := Elastics(specs);
    var r, w := free - FixedSum(specs, |specs|), WeightSum(specs, idx);
    PairSums(specs, idx, r, w);
    LeftoverNonNegative(specs, r);
    SizeOfShape(specs, h, free);
  }

  lemma PairSums(specs: seq<PoolSpec>, idx: seq<nat>, r: nat, w: nat)
    requires Indexes(specs, idx) && |idx| == 2 && w > 0
    ensures WeightSum(specs, idx) == WeightOf(specs[idx[0]]) + WeightOf(specs[idx[1]])
    ensures ShareSum(specs, idx, r, w) == Share(specs[idx[0]], r, w) + Share(specs[idx[1]], r, w)
  {
    hide Share, WeightOf;
    var one := idx[..1];
    assert one == [idx[0]] && one[..0] == [];
    assert WeightSum(specs, one) == WeightOf(specs[idx[0]]);
    assert ShareSum(specs, one, r, w) == Share(specs[idx[0]], r, w);
  }

  /** A share grows no faster than the remainder. */
  lemma ShareGrowsSlowly(s: PoolSpec, r: nat, r': nat, w: nat)
    requires 0 < w && WeightOf(s) <= w && r <= r'
    ensures Share(s, r', w) - Share(s, r, w) <= r' - r
  {
    ShareIsFloor(s, r, w);
    ShareIsFloor(s, r', w);
    SlowGrowth(Share(s, r, w), Share(s, r', w), r, r', WeightOf(s), w);
  }

  lemma SlowGrowth(a: int, b: int, r: int, r': int, ws: int, w: int)
    requires 0 <= ws <= w && 0 < w && r <= r' && r * ws < (a + 1) * w && b * w <= r' * ws
    ensures b - a <= r' - r
  {
    MulMonotone(ws, w, r' - r);
    assert r' * ws == r * ws + (r' - r) * ws;
    assert b * w < (a + 1 + (r' - r)) * w;
    if b >= a + 1 + (r' - r) { MulMonotone(a + 1 + (r' - r), b, w); }
  }

  lemma PairedHeaviestFits(specs: seq<PoolSpec>, n: int, m: int)
    requires Fits(specs, n) && n <= m && |Elastics(specs)| == 2
    ensures var h := HeaviestElastic(specs); h < |specs| && SizeOf(specs, h, m) >= FloorForClass(specs[h].cls)
  {
    var idx, h := Elastics(specs), HeaviestElastic(specs);
    HeaviestIsElastic(specs);
    ElasticIdxExact(specs, |specs|);
    assert idx == [idx[0], idx[1]] && idx[0] < idx[1] && h in idx;
    var j := if idx[0] == h then idx[1] else idx[0];
    assert SizeOf(specs, h, n) >= FloorForClass(specs[h].cls);
    hide SizeOf, HeaviestElastic, ElasticIdx, FixedSum, FloorForClass, Share, Fits, WeightSum;
    PairSize(specs, n, h, j);
    PairSize(specs, m, h, j);
    ShareGrowsSlowly(specs[j], n - FixedSum(specs, |specs|), m - FixedSum(specs, |specs|), WeightSum(specs, idx));
  }

  lemma LoneHeaviestFits(specs: seq<PoolSpec>, n: int, m: int)
    requires Fits(specs, n) && n <= m && |Elastics(specs)| == 1
    ensures var h := HeaviestElastic(specs); h < |specs| && SizeOf(specs, h, m) >= FloorForClass(specs[h].cls)
  {
    var h := HeaviestElastic(specs);
    HeaviestIsElastic(specs);
    OnlyElastic(specs, h);
    assert SizeOf(specs, h, n) >= FloorForClass(specs[h].cls);
    LoneElastic(specs, n, h);
    LoneElastic(specs, m, h);
  }

  /** Under the guard a fit survives every growth. */
  lemma SafeGrowth(specs: seq<PoolSpec>, n: int, m: int)
    requires GrowsSafely(specs) && Fits(specs, n) && n <= m
    ensures Fits(specs, m)
  {
    hide Fits, HeaviestElastic, ElasticIdx, SizeOf;
    if j :| 0 <= j < |specs| && BacksHeaviest(specs, j) {
      BackedHeaviestFits(specs, n, m, j);
    } else if |Elastics(specs)| == 2 {
      PairedHeaviestFits(specs, n, m);
    } else if |Elastics(specs)| == 1 {
      LoneHeaviestFits(specs, n, m);
    }
    GrowthFitsExactly(specs, n, m);
  }

  // ---- The exact condition ----

  /** From here on every share reaches the highest floor. */
  function Enough(specs: seq<PoolSpec>): int {
    FixedSum(specs, |specs|) + LAYOUT_CATCH_ALL * WeightSum(specs, Elastics(specs))
  }

  lemma LargeShare(s: PoolSpec, r: nat, w: nat)
    requires w > 0 && LAYOUT_CATCH_ALL * w <= r
    ensures Share(s, r, w) >= LAYOUT_CATCH_ALL
  {
    ShareIsFloor(s, r, w);
    MulMonotone(1, WeightOf(s), r);
    var a := Share(s, r, w);
    hide Share;
    if a + 1 <= LAYOUT_CATCH_ALL { MulMonotone(a + 1, LAYOUT_CATCH_ALL, w); }
  }

  lemma LargeWindowFits(specs: seq<PoolSpec>, n: int, m: int)
    requires Fits(specs, n) && n <= m && Enough(specs) <= m
    ensures Fits(specs, m)
  {
    if Elastics(specs) != [] {
      var h := HeaviestElastic(specs);
      HeaviestIsElastic(specs);
      hide SizeOf, HeaviestElastic, ElasticIdx, FixedSum, Share, WeightSum;
      FloorAtMostTen(specs[h].cls);
      ElasticSize(specs, m, h);
      LargeShare(specs[h], m - FixedSum(specs, |specs|), WeightSum(specs, Elastics(specs)));
    }
    GrowthFitsExactly(specs, n, m);
  }

  lemma {:induction false} StepwiseGrowth(specs: seq<PoolSpec>, n: int, m: int)
    requires forall k :: FixedSum(specs, |specs|) <= k < Enough(specs) && Fits(specs, k) ==> Fits(specs, k + 1)
    requires Fits(specs, n) && n <= m
    ensures Fits(specs, m)
    decreases m - n
  {
    if n < m {
      StepwiseGrowth(specs, n, m - 1);
      if m >= Enough(specs) {
        LargeWindowFits(specs, n, m);
      } else {
        var k := m - 1;
        assert FixedSum(specs, |specs|) <= k;
        assert Fits(specs, k + 1);
      }
    }
  }

  /** Growth never breaks a plan's fit if and only if it does not at the finitely many sizes
      below the point where every share reaches the highest floor. */
  lemma MonotoneExactly(specs: seq<PoolSpec>)
    ensures Monotone(specs)
            <==> forall k :: FixedSum(specs, |specs|) <= k < Enough(specs) && Fits(specs, k) ==> Fits(specs, k + 1)
  {
    hide Fits, Enough, FixedSum;
    if forall k :: FixedSum(specs, |specs|) <= k < Enough(specs) && Fits(specs, k) ==> Fits(specs, k + 1) {
      forall n: int, m: int | Fits(specs, n) && n <= m ensures Fits(specs, m) {
        StepwiseGrowth(specs, n, m);
      }
    }
  }

  // ---- Seeded plans ----

  /** Every seeded plan: both catch-alls of a Green-GO plan are elastic, and any other plan
      has one elastic pool. */
  lemma SeededPlansGrow(greengo: bool, counts: P.Counts)
    ensures Monotone(P.SpecsOf(P.Seeded(greengo, counts)))
  {
    var specs := P.SpecsOf(P.Seeded(greengo, counts));
    SeededElastics(greengo, counts);
    hide Fits, P.SpecsOf, P.Seeded;
    forall n: int, m: int | Fits(specs, n) && n <= m ensures Fits(specs, m) {
      SafeGrowth(specs, n, m);
    }
  }

  lemma SpecsAppend(a: seq<P.PoolPlanEntry>, e: P.PoolPlanEntry)
    ensures P.SpecsOf(a + [e]) == P.SpecsOf(a) + [P.ToSpec(e)]
  {
    assert (a + [e])[..|a|] == a;
  }

  lemma ElasticAppend(specs: seq<PoolSpec>, s: PoolSpec)
    ensures Elastics(specs + [s]) == Elastics(specs) + (if Elastic(s) then [|specs|] else [])
  {
    ElasticPrefix(specs, s, |specs|);
  }

  lemma {:induction false} ElasticPrefix(specs: seq<PoolSpec>, s: PoolSpec, n: nat)
    requires n <= |specs|
    ensures ElasticIdx(specs + [s], n) == ElasticIdx(specs, n)
  {
    if n > 0 { ElasticPrefix(specs, s, n - 1); }
  }

  lemma {:induction false} SeedFixedInelastic(counts: P.Counts, n: nat)
    requires n <= |P.SEED_ORDER|
    ensures Elastics(P.SpecsOf([P.Reserve()] + P.SeedFixed(counts, n))) == []
  {
    var before := [P.Reserve()] + P.SeedFixed(counts, n);
    if n == 0 {
      assert before == [] + [P.Reserve()];
      SpecsAppend([], P.Reserve());
      ElasticAppend([], P.ToSpec(P.Reserve()));
    } else {
      SeedFixedInelastic(counts, n - 1);
      var init := [P.Reserve()] + P.SeedFixed(counts, n - 1);
      var e := P.FixedAuto(P.SEED_ORDER[n - 1], P.CountFor(counts, P.SEED_ORDER[n - 1]));
      if P.CountFor(counts, P.SEED_ORDER[n - 1]) > 0 {
        assert before == init + [e];
        SpecsAppend(init, e);
        ElasticAppend(P.SpecsOf(init), P.ToSpec(e));
      } else {
        assert before == init;
      }
    }
  }

  lemma SeededElastics(greengo: bool, counts: P.Counts)
    ensures |Elastics(P.SpecsOf(P.Seeded(greengo, counts)))| <= 2
  {
    var plan := P.Seeded(greengo, counts);
    SeedFixedInelastic(counts, if greengo then |P.SEED_ORDER| else 0);
    var fixed := if greengo then [P.Reserve()] + P.SeedFixed(counts, |P.SEED_ORDER|) else [P.Reserve()];
    assert [P.Reserve()] + P.SeedFixed(counts, 0) == [P.Reserve()];
    hide Elastics, P.SpecsOf, P.ToSpec;
    var n := |plan| - 1;
    if greengo {
      assert plan == fixed + [plan[n - 1]] + [plan[n]];
      AtMostOneMore(fixed, plan[n - 1]);
      AtMostOneMore(fixed + [plan[n - 1]], plan[n]);
    } else {
      assert plan == fixed + [plan[n]];
      AtMostOneMore(fixed, plan[n]);
    }
  }

  lemma AtMostOneMore(plan: seq<P.PoolPlanEntry>, e: P.PoolPlanEntry)
    ensures |Elastics(P.SpecsOf(plan + [e]))| <= |Elastics(P.SpecsOf(plan))| + 1
  {
    SpecsAppend(plan, e);
    ElasticAppend(P.SpecsOf(plan), P.ToSpec(e));
  }
}
