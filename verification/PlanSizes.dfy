/** What every pool of a plan is owed, in the plan's own terms, and that the sizing pass
    (layout.go) computes exactly that, pinned pools or not. */
module PlanSizes {
  import opened PoolLayout
  import opened LayoutNoPins

  /** The sum of f over the first n specs. */
  function SumOf(specs: seq<PoolSpec>, n: nat, f: PoolSpec -> int): int
    requires n <= |specs|
  {
    if n == 0 then 0 else SumOf(specs, n - 1, f) + f(specs[n - 1])
  }

  /** What a fixed or reserve pool asks for. */
  function Asked(s: PoolSpec): int { if s.range.NoRange? && !s.kind.PoolElastic? then s.size else 0 }

  /** The weight of an elastic pool, at least 1; other pools have none. */
  function Weight(s: PoolSpec): (w: int)
    ensures w >= 0
  {
    if s.range.NoRange? && s.kind.PoolElastic? then (if s.weight > 1 then s.weight else 1) else 0
  }

  /** The least size of an elastic pool: more for the two catch-alls. */
  function Floor(s: PoolSpec): int { if s.cls == "GGO-OTHERS" || s.cls == "OTHERS" then 10 else 5 }

  /** A pool's weighted part of rest addresses, rounded down. */
  function Part(rest: int, total: int): PoolSpec -> int {
    (s: PoolSpec) => if total <= 0 then 0 else rest * Weight(s) / total
  }

  /** No elastic pool is heavier, and every one before it is lighter. */
  predicate FirstHeaviest(specs: seq<PoolSpec>, i: nat)
    requires i < |specs|
  {
    && Weight(specs[i]) > 0
    && forall j :: 0 <= j < |specs| ==> Weight(specs[j]) <= Weight(specs[i])
                                        && (j < i ==> Weight(specs[j]) < Weight(specs[i]))
  }

  function RestOf(specs: seq<PoolSpec>, free: int): int { free - SumOf(specs, |specs|, Asked) }

  function PartOf(specs: seq<PoolSpec>, free: int): PoolSpec -> int {
    Part(RestOf(specs, free), SumOf(specs, |specs|, Weight))
  }

  /** The size pool i is owed out of `free` addresses: what it asks, or its part of the
      rest, the first heaviest taking what rounding leaves. */
  function Owed(specs: seq<PoolSpec>, free: int, i: nat): int
    requires i < |specs|
  {
    if Weight(specs[i]) == 0 then Asked(specs[i])
    else PartOf(specs, free)(specs[i])
         + (if FirstHeaviest(specs, i) then RestOf(specs, free) - SumOf(specs, |specs|, PartOf(specs, free)) else 0)
  }

  /** Nothing asked is negative, all of it fits, and every elastic pool gets its floor. */
  predicate CanSize(specs: seq<PoolSpec>, free: int) {
    && (forall i :: 0 <= i < |specs| ==> Asked(specs[i]) >= 0)
    && RestOf(specs, free) >= 0
    && (forall i :: 0 <= i < |specs| && Weight(specs[i]) > 0 ==> Owed(specs, free, i) >= Floor(specs[i]))
  }

  lemma {:induction false} FixedIsAsked(specs: seq<PoolSpec>, n: nat)
    requires n <= |specs|
    ensures FixedSum(specs, n) == SumOf(specs, n, Asked)
  {
    if n > 0 { FixedIsAsked(specs, n - 1); }
  }

  lemma WeightSumNext(specs: seq<PoolSpec>, n: nat)
    requires 0 < n <= |specs|
    requires Indexes(specs, ElasticIdx(specs, n)) && Indexes(specs, ElasticIdx(specs, n - 1))
    ensures WeightSum(specs, ElasticIdx(specs, n)) == WeightSum(specs, ElasticIdx(specs, n - 1)) + Weight(specs[n - 1])
  {
    var idx := ElasticIdx(specs, n);
    if Elastic(specs[n - 1]) { assert idx[..|idx| - 1] == ElasticIdx(specs, n - 1); }
  }

  lemma {:induction false} WeightsAdd(specs: seq<PoolSpec>, n: nat)
    requires n <= |specs|
    ensures Indexes(specs, ElasticIdx(specs, n)) && WeightSum(specs, ElasticIdx(specs, n)) == SumOf(specs, n, Weight)
  {
    ElasticIdxExact(specs, n);
    if n > 0 {
      hide WeightSum, ElasticIdx, Weight;
      WeightsAdd(specs, n - 1);
      WeightSumNext(specs, n);
    }
  }

  lemma ShareIsPart(s: PoolSpec, rest: nat, total: nat)
    requires total > 0 && Elastic(s)
    ensures Share(s, rest, total) == Part(rest, total)(s)
  {
  }

  lemma NoPart(s: PoolSpec, rest: nat, total: nat)
    requires !Elastic(s)
    ensures Part(rest, total)(s) == 0
  {
    assert rest * Weight(s) == 0;
  }

  lemma {:induction false} SharesAdd(specs: seq<PoolSpec>, n: nat, rest: nat, total: nat)
    requires n <= |specs| && total > 0
    ensures Indexes(specs, ElasticIdx(specs, n))
    ensures ShareSum(specs, ElasticIdx(specs, n), rest, total) == SumOf(specs, n, Part(rest, total))
  {
    hide Share, Part, ShareSum, ElasticIdx;
    ElasticIdxExact(specs, n);
    if n > 0 {
      SharesAdd(specs, n - 1, rest, total);
      ShareSumNext(specs, n, rest, total);
      if Elastic(specs[n - 1]) { ShareIsPart(specs[n - 1], rest, total); } else { NoPart(specs[n - 1], rest, total); }
    } else {
      NoShares(specs, rest, total);
    }
  }

  lemma HeaviestIsFirstHeaviest(specs: seq<PoolSpec>, i: nat)
    requires i < |specs| && Elastic(specs[i])
    ensures Indexes(specs, ElasticIdx(specs, |specs|)) && ElasticIdx(specs, |specs|) != []
    ensures FirstHeaviest(specs, i) <==> i == HeaviestElastic(specs)
  {
    SomeElastic(specs, i);
    HeaviestIsElastic(specs);
    var h := HeaviestElastic(specs);
    hide HeaviestElastic, ElasticIdx;
    forall j | 0 <= j < |specs| && Elastic(specs[j])
      ensures Weight(specs[j]) <= Weight(specs[h]) && (j < h ==> Weight(specs[j]) < Weight(specs[h]))
    {
      HeaviestIsFirst(specs, j);
    }
  }

  lemma SizeIsOwed(specs: seq<PoolSpec>, free: int, i: nat)
    requires i < |specs| && FixedSum(specs, |specs|) <= free && !specs[i].range.BadRange?
    ensures SizeOf(specs, i, free) == Owed(specs, free, i)
  {
    FixedIsAsked(specs, |specs|);
    if Elastic(specs[i]) {
      hide ElasticIdx, Share, ShareSum, WeightSum, Heaviest, FixedSum, HeaviestElastic, FirstHeaviest, Part;
      SomeElastic(specs, i);
      WeightsAdd(specs, |specs|);
      var rest, total := free - FixedSum(specs, |specs|), WeightSum(specs, ElasticIdx(specs, |specs|));
      LeftoverNonNegative(specs, rest);
      SizeOfShape(specs, i, free);
      ShareIsPart(specs[i], rest, total);
      SharesAdd(specs, |specs|, rest, total);
      HeaviestIsFirstHeaviest(specs, i);
    }
  }

  /** The sizing pass succeeds exactly when the plan can be sized, and then gives every pool
      what it is owed. */
  lemma SizesExactly(specs: seq<PoolSpec>, free: int)
    requires forall i :: 0 <= i < |specs| ==> !specs[i].range.BadRange?
    ensures SizePass(specs, free).Ok? <==> CanSize(specs, free)
    ensures SizePass(specs, free).Ok? ==>
              forall i :: 0 <= i < |specs| ==> SizePass(specs, free).value[i] == Owed(specs, free, i)
  {
    FitsExactly(specs, free);
    FixedIsAsked(specs, |specs|);
    hide SizePass, SizeOf, FixedSum, Owed, SumOf;
    if FixedSum(specs, |specs|) <= free {
      forall i | 0 <= i < |specs| ensures SizeOf(specs, i, free) == Owed(specs, free, i) { SizeIsOwed(specs, free, i); }
    }
    if SizePass(specs, free).Ok? {
      forall i | 0 <= i < |specs| ensures SizePass(specs, free).value[i] == Owed(specs, free, i) {
        SizePassIsSizeOf(specs, free, i);
      }
    }
  }
}
