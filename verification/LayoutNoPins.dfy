/** Without pins the allocator is exact: it succeeds precisely when the sizes fit,
    and then packs contiguously in spec order from the window's start. */
module LayoutNoPins {
  import opened Common
  import opened Addresses
  import opened Gaps
  import opened PoolLayout
  import opened LayoutSafety

  predicate NoPins(specs: seq<PoolSpec>) {
    forall i :: 0 <= i < |specs| ==> !Pinned(specs[i])
  }

  /** When a plan fits n free addresses. */
  predicate Fits(specs: seq<PoolSpec>, n: int) {
    && (forall i :: 0 <= i < |specs| && Sized(specs[i]) ==> specs[i].size >= 0)
    && FixedSum(specs, |specs|) <= n
    && (forall i :: 0 <= i < |specs| && Elastic(specs[i]) ==> SizeOf(specs, i, n) >= FloorForClass(specs[i].cls))
  }

  lemma FitsExactly(specs: seq<PoolSpec>, n: int)
    ensures SizePass(specs, n).Ok? <==> Fits(specs, n)
  {
    var idx := ElasticIdx(specs, |specs|);
    ElasticIdxExact(specs, |specs|);
    hide ElasticIdx, SizeOf;
    if FixedSum(specs, |specs|) <= n {
      NoUndershootIff(specs, idx, |idx|, n);
    }
  }

  // ---- Shares ----

  lemma {:induction false} ShareSumBound(specs: seq<PoolSpec>, idx: seq<nat>, remainder: nat, sumWeight: nat)
    requires Indexes(specs, idx) && sumWeight > 0
    ensures ShareSum(specs, idx, remainder, sumWeight) * sumWeight <= remainder * WeightSum(specs, idx)
  {
    if idx != [] {
      var init, s := idx[..|idx| - 1], specs[idx[|idx| - 1]];
      ShareSumBound(specs, init, remainder, sumWeight);
      ShareIsFloor(s, remainder, sumWeight);
      Distribute(ShareSum(specs, init, remainder, sumWeight), Share(s, remainder, sumWeight), sumWeight);
      Distribute(WeightSum(specs, init), WeightOf(s), remainder);
    }
  }

  lemma Distribute(a: int, b: int, c: int)
    ensures (a + b) * c == a * c + b * c
    ensures c * (a + b) == c * a + c * b
  {
  }

  /** A share is the weighted fraction of the remainder, rounded down. */
  lemma ShareIsFloor(s: PoolSpec, remainder: nat, sumWeight: nat)
    requires sumWeight > 0
    ensures Share(s, remainder, sumWeight) * sumWeight <=
            remainder * WeightOf(s) < (Share(s, remainder, sumWeight) + 1) * sumWeight
  {
    MulNonNegative(remainder, WeightOf(s));
    DivMod(remainder * WeightOf(s), sumWeight);
    Distribute(Share(s, remainder, sumWeight), 1, sumWeight);
  }

  lemma LeftoverNonNegative(specs: seq<PoolSpec>, remainder: nat)
    requires var idx := ElasticIdx(specs, |specs|); Indexes(specs, idx) && idx != []
    ensures var idx := ElasticIdx(specs, |specs|);
            ShareSum(specs, idx, remainder, WeightSum(specs, idx)) <= remainder
  {
    var idx := ElasticIdx(specs, |specs|);
    var w := WeightSum(specs, idx);
    ShareSumBound(specs, idx, remainder, w);
    CancelFactor(ShareSum(specs, idx, remainder, w), remainder, w);
  }

  lemma CancelFactor(a: int, b: int, c: int)
    requires c > 0 && a * c <= b * c
    ensures a <= b
  {
    if a > b { MulMonotone(b + 1, a, c); }
  }

  // ---- All sizes add up ----

  function SumTo(sizes: seq<int>, n: nat): int
    requires n <= |sizes|
  {
    if n == 0 then 0 else SumTo(sizes, n - 1) + sizes[n - 1]
  }

  function HeaviestElastic(specs: seq<PoolSpec>): nat
    requires var idx := ElasticIdx(specs, |specs|); Indexes(specs, idx) && idx != []
  {
    var idx := ElasticIdx(specs, |specs|);
    Heaviest(specs, idx, |idx|)
  }

  lemma {:induction false} SumWithoutElastic(specs: seq<PoolSpec>, sizes: seq<int>, n: nat)
    requires n <= |specs| == |sizes| && NoPins(specs)
    requires forall i :: 0 <= i < |specs| ==> Sized(specs[i]) && sizes[i] == specs[i].size
    ensures SumTo(sizes, n) == FixedSum(specs, n)
  {
    if n > 0 { SumWithoutElastic(specs, sizes, n - 1); }
  }

  lemma {:induction false} SumWithElastic(specs: seq<PoolSpec>, sizes: seq<int>, n: nat, remainder: nat, sumWeight: nat,
                                          best: nat, leftover: nat)
    requires n <= |specs| == |sizes| && NoPins(specs) && sumWeight > 0
    requires forall i :: 0 <= i < |specs| ==>
               sizes[i] == if Sized(specs[i]) then specs[i].size
                           else Share(specs[i], remainder, sumWeight) + (if i == best then leftover else 0)
    requires best < |specs| && Elastic(specs[best]) && Indexes(specs, ElasticIdx(specs, n))
    ensures SumTo(sizes, n) == FixedSum(specs, n) + ShareSum(specs, ElasticIdx(specs, n), remainder, sumWeight)
                               + (if best < n then leftover else 0)
  {
    hide Share, ShareSum, ElasticIdx, Indexes, NoPins, Sized, Elastic;
    if n > 0 {
      ElasticIdxExact(specs, n - 1);
      SumWithElastic(specs, sizes, n - 1, remainder, sumWeight, best, leftover);
      ShareSumNext(specs, n, remainder, sumWeight);
      SizedOrElastic(specs, n - 1);
    } else {
      NoShares(specs, remainder, sumWeight);
    }
  }

  lemma SizedOrElastic(specs: seq<PoolSpec>, i: nat)
    requires NoPins(specs) && i < |specs|
    ensures Sized(specs[i]) <==> !Elastic(specs[i])
  {
  }

  lemma NoShares(specs: seq<PoolSpec>, remainder: nat, sumWeight: nat)
    requires sumWeight > 0
    ensures ElasticIdx(specs, 0) == [] && Indexes(specs, []) && ShareSum(specs, [], remainder, sumWeight) == 0
  {
  }

  /** The next spec adds its share if it is elastic. */
  lemma ShareSumNext(specs: seq<PoolSpec>, n: nat, remainder: nat, sumWeight: nat)
    requires 0 < n <= |specs| && sumWeight > 0
    requires Indexes(specs, ElasticIdx(specs, n)) && Indexes(specs, ElasticIdx(specs, n - 1))
    ensures ShareSum(specs, ElasticIdx(specs, n), remainder, sumWeight)
            == ShareSum(specs, ElasticIdx(specs, n - 1), remainder, sumWeight)
               + (if Elastic(specs[n - 1]) then Share(specs[n - 1], remainder, sumWeight) else 0)
  {
    hide Share;
    var idx := ElasticIdx(specs, n);
    if Elastic(specs[n - 1]) {
      assert idx[..|idx| - 1] == ElasticIdx(specs, n - 1);
    }
  }

  lemma SizeOfShape(specs: seq<PoolSpec>, k: nat, free: int)
    requires k < |specs| && !Pinned(specs[k]) && FixedSum(specs, |specs|) <= free
    requires Indexes(specs, ElasticIdx(specs, |specs|)) && ElasticIdx(specs, |specs|) != []
    requires RoundingLeft(specs, free) >= 0
    ensures SizeOf(specs, k, free) ==
            if Sized(specs[k]) then specs[k].size
            else BareShare(specs, k, free) + (if k == HeaviestElastic(specs) then RoundingLeft(specs, free) else 0)
  {
    hide ElasticIdx, Share, ShareSum, WeightSum, Heaviest, FixedSum;
  }

  /** What rounding the shares down leaves unassigned. */
  function RoundingLeft(specs: seq<PoolSpec>, free: int): int
    requires FixedSum(specs, |specs|) <= free
    requires Indexes(specs, ElasticIdx(specs, |specs|)) && ElasticIdx(specs, |specs|) != []
  {
    var idx := ElasticIdx(specs, |specs|);
    var remainder := free - FixedSum(specs, |specs|);
    remainder - ShareSum(specs, idx, remainder, WeightSum(specs, idx))
  }

  lemma SizesTotalElastic(specs: seq<PoolSpec>, sizes: seq<int>, n: nat, i: nat)
    requires NoPins(specs) && |sizes| == |specs| && FixedSum(specs, |specs|) <= n && i < |specs| && Elastic(specs[i])
    requires forall k :: 0 <= k < |specs| ==> sizes[k] == SizeOf(specs, k, n)
    ensures SumTo(sizes, |specs|) == n
  {
    SomeElastic(specs, i);
    var idx := ElasticIdx(specs, |specs|);
    var rem, w, best := n - FixedSum(specs, |specs|), WeightSum(specs, idx), HeaviestElastic(specs);
    LeftoverNonNegative(specs, rem);
    HeaviestIsElastic(specs);
    hide ElasticIdx, SizeOf, Share, ShareSum, WeightSum, Heaviest, FixedSum, HeaviestElastic;
    forall k | 0 <= k < |specs|
      ensures sizes[k] == if Sized(specs[k]) then specs[k].size
                          else Share(specs[k], rem, w) + (if k == best then RoundingLeft(specs, n) else 0)
    {
      SizeOfShape(specs, k, n);
    }
    SumWithElastic(specs, sizes, |specs|, rem, w, best, RoundingLeft(specs, n));
  }

  lemma HeaviestIsElastic(specs: seq<PoolSpec>)
    requires Indexes(specs, ElasticIdx(specs, |specs|)) && ElasticIdx(specs, |specs|) != []
    ensures HeaviestElastic(specs) < |specs| && Elastic(specs[HeaviestElastic(specs)])
  {
    var idx := ElasticIdx(specs, |specs|);
    ElasticIdxExact(specs, |specs|);
    assert idx[..|idx|] == idx && HeaviestElastic(specs) in idx;
  }

  /** HeaviestElastic is the first heaviest: no elastic pool is heavier, and every one
      before it is lighter. */
  lemma HeaviestIsFirst(specs: seq<PoolSpec>, i: nat)
    requires i < |specs| && Elastic(specs[i])
    ensures Indexes(specs, ElasticIdx(specs, |specs|)) && ElasticIdx(specs, |specs|) != []
    ensures var h := HeaviestElastic(specs);
            && h < |specs| && Elastic(specs[h])
            && WeightOf(specs[i]) <= WeightOf(specs[h]) && (i < h ==> WeightOf(specs[i]) < WeightOf(specs[h]))
  {
    SomeElastic(specs, i);
    HeaviestIsElastic(specs);
    ElasticIdxExact(specs, |specs|);
    var idx := ElasticIdx(specs, |specs|);
    assert idx[..|idx|] == idx;
    hide ElasticIdx, Heaviest;
    var k :| 0 <= k < |idx| && idx[k] == i;
  }

  /** The sizes use the window up exactly when there is an elastic pool to take the rest. */
  lemma SizesTotal(specs: seq<PoolSpec>, n: nat)
    requires NoPins(specs) && SizePass(specs, n).Ok?
    ensures SumTo(SizePass(specs, n).value, |specs|) ==
            if exists i :: 0 <= i < |specs| && Elastic(specs[i]) then n else FixedSum(specs, |specs|)
  {
    var sizes := SizePass(specs, n).value;
    assert FixedSum(specs, |specs|) <= n;
    forall k | 0 <= k < |specs| ensures sizes[k] == SizeOf(specs, k, n) { SizePassIsSizeOf(specs, n, k); }
    hide SizePass, FixedSum;
    if i :| 0 <= i < |specs| && Elastic(specs[i]) {
      hide SizeOf;
      SizesTotalElastic(specs, sizes, n, i);
    } else {
      SumWithoutElastic(specs, sizes, |specs|);
    }
  }

  // ---- Contiguous placement ----

  /** The one gap left when everything below cur is taken. */
  function Rest(cur: int, hi: Addr): seq<Ivl>
    requires 0 <= cur <= hi + 1
  {
    if cur <= hi then [Ivl(cur, hi)] else []
  }

  /** Pools back to back from lo, in spec order; empty pools take no range. */
  function Packed(sizes: seq<int>, lo: Addr, k: nat): Option<Ivl>
    requires k < |sizes| && 0 <= lo + SumTo(sizes, k)
    requires sizes[k] > 0 ==> lo + SumTo(sizes, k) + sizes[k] <= U32
  {
    if sizes[k] > 0 then Some(Ivl(lo + SumTo(sizes, k), lo + SumTo(sizes, k) + sizes[k] - 1)) else None
  }

  /** Every range starts where the sizes before it end, and none leaves the window. */
  ghost predicate BackToBack(sizes: seq<int>, window: Ivl, rs: seq<Option<Ivl>>) {
    && |rs| == |sizes|
    && forall k :: 0 <= k < |sizes| ==>
         && 0 <= SumTo(sizes, k) <= SumTo(sizes, k) + sizes[k] <= Size(window)
         && rs[k] == Packed(sizes, window.lo, k)
  }

  lemma {:induction false} SumMonotone(sizes: seq<int>, m: nat, n: nat)
    requires m <= n <= |sizes| && forall i :: 0 <= i < |sizes| ==> sizes[i] >= 0
    ensures SumTo(sizes, m) <= SumTo(sizes, n)
  {
    if m < n { SumMonotone(sizes, m, n - 1); }
  }

  /** One step: the pool takes the front of the single gap. */
  lemma PlaceOneInRest(s: PoolSpec, i: nat, sz: int, cur: int, hi: Addr)
    requires !Pinned(s) && sz >= 0 && 0 <= cur && cur + sz <= hi + 1
    ensures PlaceOne(s, i, sz, Rest(cur, hi)) ==
            Ok(Placed(if sz > 0 then Some(Ivl(cur, cur + sz - 1)) else None, Rest(cur + sz, hi)))
  {
    if sz > 0 {
      var gaps := Rest(cur, hi);
      var end := cur + sz - 1;
      assert Size(gaps[0]) >= sz && FirstFit(gaps, sz) == 0;
      assert Choose(gaps, s, i, sz) == Ok(Spot(0, sz));
      assert Shrunk(gaps, 0, end) == Rest(cur + sz, hi);
    }
  }

  /** rs are the packed ranges of the pools from i on. */
  ghost predicate PackedFrom(sizes: seq<int>, window: Ivl, i: nat, rs: seq<Option<Ivl>>) {
    && i + |rs| == |sizes|
    && forall k :: i <= k < |sizes| ==>
         && 0 <= SumTo(sizes, k) <= SumTo(sizes, k) + sizes[k] <= Size(window)
         && rs[k - i] == Packed(sizes, window.lo, k)
  }

  lemma {:induction false} PlaceContiguously(specs: seq<PoolSpec>, sizes: seq<int>, window: Ivl, i: nat)
    requires i <= |specs| == |sizes| && NoPins(specs) && window.lo <= window.hi
    requires forall k :: 0 <= k < |sizes| ==> sizes[k] >= 0
    requires SumTo(sizes, |sizes|) <= Size(window)
    requires 0 <= SumTo(sizes, i) <= Size(window)
    ensures PlaceFrom(specs, sizes, Rest(window.lo + SumTo(sizes, i), window.hi), i).Ok?
    ensures PackedFrom(sizes, window, i, PlaceFrom(specs, sizes, Rest(window.lo + SumTo(sizes, i), window.hi), i).value)
    decreases |specs| - i
  {
    if i < |specs| {
      SumMonotone(sizes, i + 1, |sizes|);
      assert SumTo(sizes, i + 1) == SumTo(sizes, i) + sizes[i];
      PlaceContiguously(specs, sizes, window, i + 1);
      hide SumTo, PlaceFrom, PackedFrom, Rest;
      ContiguousStep(specs, sizes, window, i,
                     PlaceFrom(specs, sizes, Rest(window.lo + SumTo(sizes, i + 1), window.hi), i + 1).value);
    }
  }

  lemma ContiguousStep(specs: seq<PoolSpec>, sizes: seq<int>, window: Ivl, i: nat, rest: seq<Option<Ivl>>)
    requires i < |specs| == |sizes| && !Pinned(specs[i]) && sizes[i] >= 0
    requires SumTo(sizes, i + 1) == SumTo(sizes, i) + sizes[i]
    requires 0 <= SumTo(sizes, i) <= SumTo(sizes, i + 1) <= Size(window)
    requires PlaceFrom(specs, sizes, Rest(window.lo + SumTo(sizes, i + 1), window.hi), i + 1) == Ok(rest)
    requires PackedFrom(sizes, window, i + 1, rest)
    ensures PlaceFrom(specs, sizes, Rest(window.lo + SumTo(sizes, i), window.hi), i).Ok?
    ensures PackedFrom(sizes, window, i, PlaceFrom(specs, sizes, Rest(window.lo + SumTo(sizes, i), window.hi), i).value)
  {
    hide SumTo, PlaceFrom, PackedFrom, PlaceOne, Pinned;
    var cur := window.lo + SumTo(sizes, i);
    PlaceOneInRest(specs[i], i, sizes[i], cur, window.hi);
    var after := Rest(window.lo + SumTo(sizes, i + 1), window.hi);
    PlaceFromStep(specs, sizes, Rest(cur, window.hi), i, Placed(Packed(sizes, window.lo, i), after), rest);
    PackedExtends(sizes, window, i, rest);
  }

  lemma PlaceFromStep(specs: seq<PoolSpec>, sizes: seq<int>, gaps: seq<Ivl>, i: nat, placed: Placed,
                      rest: seq<Option<Ivl>>)
    requires i < |specs| == |sizes| && NonEmpty(gaps) && NonEmpty(placed.gaps)
    requires PlaceOne(specs[i], i, sizes[i], gaps) == Ok(placed)
    requires PlaceFrom(specs, sizes, placed.gaps, i + 1) == Ok(rest)
    ensures PlaceFrom(specs, sizes, gaps, i) == Ok([placed.range] + rest)
  {
    hide PlaceOne;
  }

  lemma PackedExtends(sizes: seq<int>, window: Ivl, i: nat, rest: seq<Option<Ivl>>)
    requires i < |sizes| && PackedFrom(sizes, window, i + 1, rest)
    requires 0 <= SumTo(sizes, i) <= SumTo(sizes, i) + sizes[i] <= Size(window)
    ensures PackedFrom(sizes, window, i, [Packed(sizes, window.lo, i)] + rest)
  {
  }

  lemma {:induction false} NoPinScan(specs: seq<PoolSpec>, n: nat, window: Ivl)
    requires n <= |specs| && NoPins(specs)
    ensures PinScan(specs, n, window) == Ok([])
  {
    if n > 0 { NoPinScan(specs, n - 1, window); }
  }

  lemma NoPinWindow(specs: seq<PoolSpec>, window: Ivl)
    requires NoPins(specs) && window.lo <= window.hi
    ensures SizePass(specs, Size(window)).Err? ==> LayoutIn(window, specs) == Err(SizePass(specs, Size(window)).error)
    ensures SizePass(specs, Size(window)).Ok? ==>
              LayoutIn(window, specs) ==
                PlaceFrom(specs, SizePass(specs, Size(window)).value, Rest(window.lo, window.hi), 0)
  {
    NoPinScan(specs, |specs|, window);
    assert Sorted([]) == [];
    assert FreeGapsFrom(window.lo, window.hi, []) == [window] == Rest(window.lo, window.hi);
    TotalOne(window);
  }

  lemma SizesNonNegative(specs: seq<PoolSpec>, n: int)
    requires NoPins(specs) && SizePass(specs, n).Ok?
    ensures forall i :: 0 <= i < |specs| ==> SizePass(specs, n).value[i] >= 0
  {
    SizesSound(specs, n);
    hide SizePass;
    forall i | 0 <= i < |specs| ensures SizePass(specs, n).value[i] >= 0 {
      assert Elastic(specs[i]) || Sized(specs[i]);
    }
  }

  /** Without pins: the layout succeeds exactly when the sizes fit the window, and then
      every pool starts where the pools before it end. */
  lemma NoPinLayout(specs: seq<PoolSpec>, window: Ivl)
    requires NoPins(specs) && window.lo <= window.hi
    ensures LayoutIn(window, specs).Ok? <==> Fits(specs, Size(window))
    ensures LayoutIn(window, specs).Ok? ==>
              && SizePass(specs, Size(window)).Ok?
              && BackToBack(SizePass(specs, Size(window)).value, window, LayoutIn(window, specs).value)
  {
    NoPinWindow(specs, window);
    FitsExactly(specs, Size(window));
    hide LayoutIn, Fits;
    if SizePass(specs, Size(window)).Ok? {
      var sizes := SizePass(specs, Size(window)).value;
      SizesNonNegative(specs, Size(window));
      SizesTotal(specs, Size(window));
      assert FixedSum(specs, |specs|) <= Size(window);
      hide SizePass, SizeOf;
      PlaceContiguously(specs, sizes, window, 0);
      assert PackedFrom(sizes, window, 0, PlaceFrom(specs, sizes, Rest(window.lo + 0, window.hi), 0).value);
    }
  }

  /** Address x of the window is in some range. */
  ghost predicate Covered(rs: seq<Option<Ivl>>, x: int) {
    exists i :: 0 <= i < |rs| && rs[i].Some? && rs[i].value.lo <= x <= rs[i].value.hi
  }

  /** The pool whose packed range holds the d-th address. */
  lemma {:induction false} PackedHolds(sizes: seq<int>, n: nat, d: nat) returns (k: nat)
    requires n <= |sizes| && d < SumTo(sizes, n)
    ensures k < n && SumTo(sizes, k) <= d < SumTo(sizes, k) + sizes[k]
  {
    if d < SumTo(sizes, n - 1) {
      k := PackedHolds(sizes, n - 1, d);
    } else {
      k := n - 1;
    }
  }

  /** Packed ranges cover the first addresses of the window, as many as the sizes add up to. */
  lemma PackedCovers(sizes: seq<int>, window: Ivl, rs: seq<Option<Ivl>>, x: int)
    requires BackToBack(sizes, window, rs) && window.lo <= x && forall i :: 0 <= i < |sizes| ==> sizes[i] >= 0
    ensures Covered(rs, x) <==> x < window.lo + SumTo(sizes, |sizes|)
  {
    hide SumTo, BackToBack, Packed;
    if x < window.lo + SumTo(sizes, |sizes|) {
      var k := PackedHolds(sizes, |sizes|, x - window.lo);
      PackedAt(sizes, window, rs, k);
    }
    forall i | 0 <= i < |rs| && rs[i].Some? && rs[i].value.lo <= x <= rs[i].value.hi
      ensures x < window.lo + SumTo(sizes, |sizes|)
    {
      PackedEndsInside(sizes, window, rs, i);
    }
  }

  lemma PackedAt(sizes: seq<int>, window: Ivl, rs: seq<Option<Ivl>>, k: nat)
    requires BackToBack(sizes, window, rs) && k < |sizes|
    ensures |rs| == |sizes| && (rs[k].Some? <==> sizes[k] > 0)
    ensures rs[k].Some? ==>
              && rs[k].value.lo == window.lo + SumTo(sizes, k)
              && rs[k].value.hi == window.lo + SumTo(sizes, k) + sizes[k] - 1
  {
  }

  lemma LengthsAgree(sizes: seq<int>, window: Ivl, rs: seq<Option<Ivl>>)
    requires BackToBack(sizes, window, rs)
    ensures |rs| == |sizes|
  {
  }

  lemma PackedEndsInside(sizes: seq<int>, window: Ivl, rs: seq<Option<Ivl>>, i: nat)
    requires BackToBack(sizes, window, rs) && i < |rs| && rs[i].Some? && forall k :: 0 <= k < |sizes| ==> sizes[k] >= 0
    ensures rs[i].value.hi < window.lo + SumTo(sizes, |sizes|)
  {
    hide Packed, BackToBack;
    LengthsAgree(sizes, window, rs);
    PackedAt(sizes, window, rs, i);
    SumMonotone(sizes, i + 1, |sizes|);
  }

  /** The ranges tile the window to its last address exactly when some pool is elastic
      (or the fixed sizes happen to use it up). */
  lemma NoPinTiling(specs: seq<PoolSpec>, window: Ivl)
    requires NoPins(specs) && window.lo <= window.hi && LayoutIn(window, specs).Ok?
    ensures (forall x :: window.lo <= x <= window.hi ==> Covered(LayoutIn(window, specs).value, x)) <==>
            (exists i :: 0 <= i < |specs| && Elastic(specs[i])) || FixedSum(specs, |specs|) == Size(window)
  {
    NoPinLayout(specs, window);
    SizesTotal(specs, Size(window));
    SizesNonNegative(specs, Size(window));
    hide LayoutIn, SizePass, Covered, SumTo, BackToBack, FixedSum, Elastic;
    var sizes, rs := SizePass(specs, Size(window)).value, LayoutIn(window, specs).value;
    SumWithin(sizes, window, rs);
    forall x | window.lo <= x <= window.hi ensures Covered(rs, x) <==> x < window.lo + SumTo(sizes, |sizes|) {
      PackedCovers(sizes, window, rs, x);
    }
    assert Covered(rs, window.hi) <==> SumTo(sizes, |sizes|) >= Size(window);
  }

  lemma SumWithin(sizes: seq<int>, window: Ivl, rs: seq<Option<Ivl>>)
    requires BackToBack(sizes, window, rs) && window.lo <= window.hi
    ensures SumTo(sizes, |sizes|) <= Size(window)
  {
    if sizes != [] { assert SumTo(sizes, |sizes| - 1) + sizes[|sizes| - 1] <= Size(window); }
  }

  /** size is remainder * weight / sumWeight rounded down, or more for the heaviest pool. */
  predicate IsRoundedShare(size: int, remainder: int, weight: int, sumWeight: int, orMore: bool) {
    && remainder * weight < (size + 1) * sumWeight
    && (orMore || size * sumWeight <= remainder * weight)
  }

  /** An elastic size against its bare share. */
  lemma ElasticSize(specs: seq<PoolSpec>, free: int, i: nat)
    requires i < |specs| && Elastic(specs[i]) && FixedSum(specs, |specs|) <= free
    requires Indexes(specs, ElasticIdx(specs, |specs|)) && ElasticIdx(specs, |specs|) != []
    ensures SizeOf(specs, i, free) >= BareShare(specs, i, free)
    ensures i != HeaviestElastic(specs) ==> SizeOf(specs, i, free) == BareShare(specs, i, free)
  {
    hide ElasticIdx, WeightSum, Heaviest, ShareSum, Share, FixedSum;
  }

  function BareShare(specs: seq<PoolSpec>, i: nat, free: int): nat
    requires i < |specs| && FixedSum(specs, |specs|) <= free
    requires Indexes(specs, ElasticIdx(specs, |specs|)) && ElasticIdx(specs, |specs|) != []
  {
    Share(specs[i], free - FixedSum(specs, |specs|), WeightSum(specs, ElasticIdx(specs, |specs|)))
  }

  lemma SomeElastic(specs: seq<PoolSpec>, i: nat)
    requires i < |specs| && Elastic(specs[i])
    ensures Indexes(specs, ElasticIdx(specs, |specs|)) && ElasticIdx(specs, |specs|) != []
  {
    ElasticIdxExact(specs, |specs|);
    assert i in ElasticIdx(specs, |specs|);
  }

  lemma FloorBounds(size: int, s: PoolSpec, remainder: nat, sumWeight: nat, orMore: bool)
    requires sumWeight > 0 && size >= Share(s, remainder, sumWeight)
    requires !orMore ==> size == Share(s, remainder, sumWeight)
    ensures IsRoundedShare(size, remainder, WeightOf(s), sumWeight, orMore)
  {
    ShareIsFloor(s, remainder, sumWeight);
    MulMonotone(Share(s, remainder, sumWeight) + 1, size + 1, sumWeight);
  }

  /** Pool i gets its weighted share of what the fixed pools leave, rounded down
      unless it is the first heaviest. */
  ghost predicate GetsShare(specs: seq<PoolSpec>, free: int, i: nat, size: int)
    requires i < |specs|
  {
    && Indexes(specs, ElasticIdx(specs, |specs|)) && ElasticIdx(specs, |specs|) != []
    && IsRoundedShare(size, free - FixedSum(specs, |specs|), WeightOf(specs[i]),
                      WeightSum(specs, ElasticIdx(specs, |specs|)),
                      i == HeaviestElastic(specs))
  }

  lemma ElasticSizeIsShare(specs: seq<PoolSpec>, free: int, i: nat)
    requires i < |specs| && FixedSum(specs, |specs|) <= free
    requires Indexes(specs, ElasticIdx(specs, |specs|)) && ElasticIdx(specs, |specs|) != []
    requires SizeOf(specs, i, free) >= BareShare(specs, i, free)
    requires i != HeaviestElastic(specs) ==> SizeOf(specs, i, free) == BareShare(specs, i, free)
    ensures GetsShare(specs, free, i, SizeOf(specs, i, free))
  {
    hide SizeOf, HeaviestElastic, IsRoundedShare, WeightSum, ElasticIdx, FixedSum, Share;
    FloorBounds(SizeOf(specs, i, free), specs[i], free - FixedSum(specs, |specs|),
                WeightSum(specs, ElasticIdx(specs, |specs|)), i == HeaviestElastic(specs));
  }

  /** Every elastic pool but the first heaviest gets exactly the rounded-down weighted
      share of what the fixed pools leave; the first heaviest gets at least its share. */
  lemma ElasticShares(specs: seq<PoolSpec>, n: nat, i: nat)
    requires SizePass(specs, n).Ok? && i < |specs| && Elastic(specs[i])
    ensures GetsShare(specs, n, i, SizePass(specs, n).value[i])
  {
    SizePassIsSizeOf(specs, n, i);
    SomeElastic(specs, i);
    hide SizePass, SizeOf, HeaviestElastic, GetsShare, ElasticIdx, FixedSum, BareShare;
    ElasticSize(specs, n, i);
    ElasticSizeIsShare(specs, n, i);
  }

  lemma SizePassIsSizeOf(specs: seq<PoolSpec>, n: int, i: nat)
    requires SizePass(specs, n).Ok? && i < |specs|
    ensures FixedSum(specs, |specs|) <= n && SizePass(specs, n).value[i] == SizeOf(specs, i, n)
  {
    hide SizeOf, FirstUndershoot, FirstNegative, FixedSum, ElasticIdx;
  }
}
