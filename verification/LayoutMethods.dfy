/** LayoutPools and FitCIDR as written: loops over ranges, sizes and a gap list. */
module LayoutMethods {
  import opened Common
  import opened Addresses
  import opened Gaps
  import opened PoolLayout

  /** The first loop: the intervals of the pins, each checked before it is taken. */
  method CollectPins(specs: seq<PoolSpec>, window: Ivl) returns (r: Result<seq<Ivl>, LayoutError>)
    ensures r == PinScan(specs, |specs|, window)
  {
    var pinned: seq<Ivl> := [];
    var i := 0;
    while i < |specs|
      invariant 0 <= i <= |specs|
      invariant PinScan(specs, i, window) == Ok(pinned)
    {
      match specs[i].range {
        case NoRange =>
        case BadRange =>
          ErrorIsFinal(specs, i + 1, |specs|, window);
          return Err(InvalidRange(i));
        case Range(a, b) =>
          var e := CheckPin(a, b, i, window, pinned);
          assert e == PinError(specs[i], i, window, pinned);
          if e.Some? {
            ErrorIsFinal(specs, i + 1, |specs|, window);
            return Err(e.value);
          }
          pinned := pinned + [Ivl(a, b)];
      }
      i := i + 1;
    }
    r := Ok(pinned);
  }

  method CheckPin(a: Addr, b: Addr, i: nat, window: Ivl, pinned: seq<Ivl>) returns (e: Option<LayoutError>)
    ensures e == PinError(PoolSpec("", PoolFixed, 0, 0, Range(a, b)), i, window, pinned)
  {
    if a > b {
      return Some(InvalidRange(i));
    }
    if a < window.lo || b > window.hi {
      return Some(OutsideSubnet(i));
    }
    var k := 0;
    while k < |pinned|
      invariant 0 <= k <= |pinned|
      invariant forall j :: 0 <= j < k ==> Disjoint(Ivl(a, b), pinned[j])
    {
      if a <= pinned[k].hi && b >= pinned[k].lo {
        assert !Disjoint(Ivl(a, b), pinned[k]);
        return Some(PinnedOverlap(i));
      }
      k := k + 1;
    }
    e := None;
  }

  lemma {:induction false} ErrorIsFinal(specs: seq<PoolSpec>, m: nat, n: nat, window: Ivl)
    requires m <= n <= |specs| && PinScan(specs, m, window).Err?
    ensures PinScan(specs, n, window) == PinScan(specs, m, window)
  {
    if m < n { ErrorIsFinal(specs, m, n - 1, window); }
  }

  lemma {:induction false} NegativeIsFinal(specs: seq<PoolSpec>, m: nat, n: nat)
    requires m <= n <= |specs| && FirstNegative(specs, m).Some?
    ensures FirstNegative(specs, n) == FirstNegative(specs, m)
  {
    if m < n { NegativeIsFinal(specs, m, n - 1); }
  }

  lemma {:induction false} UndershootIsFinal(specs: seq<PoolSpec>, idx: seq<nat>, m: nat, n: nat, free: int)
    requires Indexes(specs, idx) && m <= n <= |idx| && FixedSum(specs, |specs|) <= free
    requires FirstUndershoot(specs, idx, m, free).Some?
    ensures FirstUndershoot(specs, idx, n, free) == FirstUndershoot(specs, idx, m, free)
  {
    hide SizeOf;
    if m < n { UndershootIsFinal(specs, idx, m, n - 1, free); }
  }

  lemma WeightSumSnoc(specs: seq<PoolSpec>, idx: seq<nat>, i: nat)
    requires Indexes(specs, idx) && i < |specs|
    ensures WeightSum(specs, idx + [i]) == WeightSum(specs, idx) + WeightOf(specs[i])
  {
    assert (idx + [i])[..|idx|] == idx;
  }

  lemma ShareSumSnoc(specs: seq<PoolSpec>, idx: seq<nat>, k: nat, remainder: nat, sumWeight: nat)
    requires Indexes(specs, idx) && k < |idx| && sumWeight > 0
    ensures ShareSum(specs, idx[..k + 1], remainder, sumWeight) ==
            ShareSum(specs, idx[..k], remainder, sumWeight) + Share(specs[idx[k]], remainder, sumWeight)
  {
    assert idx[..k + 1][..k] == idx[..k];
  }

  lemma SumsStep(specs: seq<PoolSpec>, i: nat)
    requires i < |specs|
    ensures FixedSum(specs, i + 1) == FixedSum(specs, i) + (if Sized(specs[i]) then specs[i].size else 0)
    ensures ElasticIdx(specs, i + 1) == if Elastic(specs[i]) then ElasticIdx(specs, i) + [i] else ElasticIdx(specs, i)
    ensures FirstNegative(specs, i).None? ==>
              FirstNegative(specs, i + 1) == if Sized(specs[i]) && specs[i].size < 0 then Some(i) else None
  {
  }

  /** The first loop of pass 2: the fixed total, and the elastic specs with their weight. */
  method SumSizes(specs: seq<PoolSpec>)
      returns (negative: Option<nat>, sumFixed: int, elasticIdx: seq<nat>, sumWeight: int)
    ensures negative == FirstNegative(specs, |specs|)
    ensures negative.None? ==>
              && sumFixed == FixedSum(specs, |specs|)
              && elasticIdx == ElasticIdx(specs, |specs|) && Indexes(specs, elasticIdx)
              && sumWeight == WeightSum(specs, elasticIdx)
  {
    sumFixed, elasticIdx, sumWeight := 0, [], 0;
    var i := 0;
    while i < |specs|
      invariant 0 <= i <= |specs|
      invariant FirstNegative(specs, i).None?
      invariant sumFixed == FixedSum(specs, i)
      invariant elasticIdx == ElasticIdx(specs, i) && Indexes(specs, elasticIdx)
      invariant sumWeight == WeightSum(specs, elasticIdx)
    {
      hide WeightSum, FixedSum, ElasticIdx, FirstNegative;
      SumsStep(specs, i);
      var s := specs[i];
      if Pinned(s) {
      } else if s.kind.PoolElastic? {
        WeightSumSnoc(specs, elasticIdx, i);
        sumWeight := sumWeight + WeightOf(s);
        elasticIdx := elasticIdx + [i];
      } else {
        if s.size < 0 {
          NegativeIsFinal(specs, i + 1, |specs|);
          negative := Some(i);
          return;
        }
        sumFixed := sumFixed + s.size;
      }
      i := i + 1;
    }
    negative := None;
  }

  /** The rounded-down share of every elastic spec, and their total. */
  method RoundedShares(specs: seq<PoolSpec>, idx: seq<nat>, remainder: nat, sumWeight: nat, sizes0: seq<int>)
    returns (sizes: seq<int>, total: nat)
    requires Indexes(specs, idx) && sumWeight > 0 && |sizes0| == |specs|
    requires forall j, k :: 0 <= j < k < |idx| ==> idx[j] < idx[k]
    ensures |sizes| == |specs|
    ensures total == ShareSum(specs, idx, remainder, sumWeight)
    ensures forall i :: 0 <= i < |specs| && i !in idx ==> sizes[i] == sizes0[i]
    ensures forall i :: 0 <= i < |specs| && i in idx ==> sizes[i] == Share(specs[i], remainder, sumWeight)
  {
    sizes := sizes0;
    total := 0;
    var k := 0;
    while k < |idx|
      invariant 0 <= k <= |idx| && |sizes| == |specs|
      invariant total == ShareSum(specs, idx[..k], remainder, sumWeight)
      invariant forall i :: 0 <= i < |specs| && i !in idx ==> sizes[i] == sizes0[i]
      invariant forall j :: 0 <= j < k ==> sizes[idx[j]] == Share(specs[idx[j]], remainder, sumWeight)
    {
      hide ShareSum, Share;
      var sz := Share(specs[idx[k]], remainder, sumWeight);
      sizes := sizes[idx[k] := sz];
      ShareSumSnoc(specs, idx, k, remainder, sumWeight);
      total := total + sz;
      k := k + 1;
    }
    assert idx[..k] == idx;
  }

  lemma HeaviestNext(specs: seq<PoolSpec>, idx: seq<nat>, k: nat)
    requires Indexes(specs, idx) && 0 < k < |idx|
    ensures var b := Heaviest(specs, idx, k);
            && b < |specs|
            && Heaviest(specs, idx, k + 1) == if WeightOf(specs[idx[k]]) > WeightOf(specs[b]) then idx[k] else b
  {
    hide WeightOf, EarlierLighter;
  }

  lemma HeaviestOfOne(specs: seq<PoolSpec>, idx: seq<nat>)
    requires Indexes(specs, idx) && idx != []
    ensures Heaviest(specs, idx, 1) == idx[0] < |specs|
  {
  }

  method FindHeaviest(specs: seq<PoolSpec>, idx: seq<nat>) returns (best: nat)
    requires Indexes(specs, idx) && idx != []
    ensures best == Heaviest(specs, idx, |idx|)
  {
    hide Heaviest, WeightOf, EarlierLighter;
    HeaviestOfOne(specs, idx);
    best := idx[0];
    var k := 1;
    while k < |idx|
      invariant 1 <= k <= |idx| && best == Heaviest(specs, idx, k) && best < |specs|
    {
      HeaviestNext(specs, idx, k);
      if WeightOf(specs[idx[k]]) > WeightOf(specs[best]) {
        best := idx[k];
      }
      k := k + 1;
    }
  }

  /** The elastic pools share the remainder by weight; the heaviest takes what rounding leaves. */
  method ShareRemainder(specs: seq<PoolSpec>, idx: seq<nat>, remainder: nat, sumWeight: nat, sizes0: seq<int>)
    returns (sizes: seq<int>)
    requires Indexes(specs, idx) && idx != [] && sumWeight > 0 && |sizes0| == |specs|
    requires forall j, k :: 0 <= j < k < |idx| ==> idx[j] < idx[k]
    ensures |sizes| == |specs|
    ensures forall i :: 0 <= i < |specs| && i !in idx ==> sizes[i] == sizes0[i]
    ensures var leftover := remainder - ShareSum(specs, idx, remainder, sumWeight);
            forall i :: 0 <= i < |specs| && i in idx ==>
              sizes[i] == Share(specs[i], remainder, sumWeight)
                          + (if leftover > 0 && i == Heaviest(specs, idx, |idx|) then leftover else 0)
  {
    hide ShareSum, Share, Heaviest;
    var total;
    sizes, total := RoundedShares(specs, idx, remainder, sumWeight, sizes0);
    var leftover := remainder - total;
    if leftover > 0 {
      var best := FindHeaviest(specs, idx);
      assert idx[..|idx|] == idx;
      sizes := sizes[best := sizes[best] + leftover];
    }
  }

  method AllSizes(specs: seq<PoolSpec>, idx: seq<nat>, sumFixed: int, sumWeight: int, free: int)
      returns (sizes: seq<int>)
    requires sumFixed == FixedSum(specs, |specs|) <= free
    requires idx == ElasticIdx(specs, |specs|) && Indexes(specs, idx) && sumWeight == WeightSum(specs, idx)
    ensures |sizes| == |specs| && forall i :: 0 <= i < |specs| ==> sizes[i] == SizeOf(specs, i, free)
  {
    ElasticIdxExact(specs, |specs|);
    hide WeightSum, ShareSum, Share, Heaviest, FixedSum, ElasticIdx;
    sizes := seq(|specs|, i requires 0 <= i < |specs| => if Sized(specs[i]) then specs[i].size else 0);
    if |idx| > 0 {
      sizes := ShareRemainder(specs, idx, free - sumFixed, sumWeight, sizes);
    }
  }

  /** Every elastic share must meet its class floor. */
  method CheckFloors(specs: seq<PoolSpec>, idx: seq<nat>, sizes: seq<int>, free: int) returns (low: Option<nat>)
    requires FixedSum(specs, |specs|) <= free && Indexes(specs, idx) && |sizes| == |specs|
    requires forall i :: 0 <= i < |specs| ==> sizes[i] == SizeOf(specs, i, free)
    ensures low == FirstUndershoot(specs, idx, |idx|, free)
  {
    hide SizeOf, FloorForClass;
    var k := 0;
    while k < |idx|
      invariant 0 <= k <= |idx| && FirstUndershoot(specs, idx, k, free).None?
    {
      if sizes[idx[k]] < FloorForClass(specs[idx[k]].cls) {
        UndershootIsFinal(specs, idx, k + 1, |idx|, free);
        return Some(idx[k]);
      }
      k := k + 1;
    }
    low := None;
  }

  /** The second loop: a size for every unpinned spec. */
  method SizeSpecs(specs: seq<PoolSpec>, free: int) returns (r: Result<seq<int>, LayoutError>)
    ensures r == SizePass(specs, free)
  {
    var negative, sumFixed, idx, sumWeight := SumSizes(specs);
    if negative.Some? {
      return Err(NegativeSize(negative.value));
    }
    if sumFixed > free {
      return Err(FixedDoNotFit);
    }
    hide SizeOf, FirstUndershoot, ElasticIdx, WeightSum, FixedSum, FirstNegative;
    var sizes := AllSizes(specs, idx, sumFixed, sumWeight, free);
    var low := CheckFloors(specs, idx, sizes, free);
    if low.Some? {
      return Err(ElasticTooSmall(low.value));
    }
    assert sizes == seq(|specs|, i requires 0 <= i < |specs| => SizeOf(specs, i, free));
    r := Ok(sizes);
  }

  /** The body of the placement loop. */
  method PlaceSpec(s: PoolSpec, i: nat, size: int, gaps: seq<Ivl>) returns (r: Result<Placed, LayoutError>)
    requires NonEmpty(gaps)
    ensures r == PlaceOne(s, i, size, gaps)
  {
    if s.range.Range? {
      return Ok(Placed(Some(Ivl(s.range.lo, s.range.hi)), gaps));
    }
    if Pinned(s) || size <= 0 {
      return Ok(Placed(None, gaps));
    }
    var spot := ChooseGap(gaps, s, i, size);
    if spot.Err? {
      return Err(spot.error);
    }
    hide Choose;
    var gi, sz := spot.value.gap, spot.value.size;
    // The uint32 conversion of sz cannot wrap: it never exceeds its gap.
    assert 0 < sz <= Size(gaps[gi]);
    var end := gaps[gi].lo + sz - 1;
    var after := ShrinkGap(gaps, gi, end);
    r := Ok(Placed(Some(Ivl(gaps[gi].lo, end)), after));
  }

  method ChooseGap(gaps: seq<Ivl>, s: PoolSpec, i: nat, size: int) returns (r: Result<Spot, LayoutError>)
    requires NonEmpty(gaps) && size > 0
    ensures r == Choose(gaps, s, i, size)
    ensures r.Ok? ==> r.value.gap < |gaps| && 0 < r.value.size <= Size(gaps[r.value.gap])
  {
    hide FirstFit, Largest;
    var sz := size;
    var gi := FirstFitGap(gaps, sz);
    if gi < 0 {
      if !s.kind.PoolElastic? {
        return Err(NoGapFits(i));
      }
      gi := LargestGapIdx(gaps);
      if gi < 0 {
        return Err(NoSpaceLeft(i));
      }
      sz := if sz < Size(gaps[gi]) then sz else Size(gaps[gi]);
      if sz < FloorForClass(s.cls) {
        return Err(TooFragmented(i));
      }
    }
    r := Ok(Spot(gi, sz));
  }

  /** The third loop: every unpinned spec gets its range, over a shrinking gap list. */
  method PlaceSpecs(specs: seq<PoolSpec>, sizes: seq<int>, gaps0: seq<Ivl>)
      returns (r: Result<seq<Option<Ivl>>, LayoutError>)
    requires |sizes| == |specs| && NonEmpty(gaps0)
    ensures r == PlaceFrom(specs, sizes, gaps0, 0)
  {
    hide PlaceOne, NonEmpty, Prepend;
    var gaps := gaps0;
    var ranges: seq<Option<Ivl>> := [];
    var i := 0;
    PrependNothing(PlaceFrom(specs, sizes, gaps, 0));
    while i < |specs|
      invariant 0 <= i <= |specs| && NonEmpty(gaps)
      invariant PlaceFrom(specs, sizes, gaps0, 0) == Prepend(ranges, PlaceFrom(specs, sizes, gaps, i))
    {
      var placed := PlaceSpec(specs[i], i, sizes[i], gaps);
      if placed.Err? {
        PrependError(ranges, placed.error);
        return Err(placed.error);
      }
      PrependOne(ranges, placed.value.range, PlaceFrom(specs, sizes, placed.value.gaps, i + 1));
      ranges := ranges + [placed.value.range];
      gaps := placed.value.gaps;
      i := i + 1;
    }
    PrependLast(ranges);
    r := Ok(ranges);
  }

  lemma PrependError(a: seq<Option<Ivl>>, e: LayoutError)
    ensures Prepend(a, Err(e)) == Err(e)
  {
  }

  lemma PrependLast(a: seq<Option<Ivl>>)
    ensures Prepend(a, Ok([])) == Ok(a)
  {
    assert a + [] == a;
  }

  lemma PrependNothing(r: Result<seq<Option<Ivl>>, LayoutError>)
    ensures Prepend([], r) == r
  {
    if r.Ok? { assert [] + r.value == r.value; }
  }

  lemma PrependOne(a: seq<Option<Ivl>>, x: Option<Ivl>, r: Result<seq<Option<Ivl>>, LayoutError>)
    ensures Prepend(a + [x], r) == Prepend(a, Prepend([x], r))
  {
    if r.Ok? {
      assert (a + [x]) + r.value == a + ([x] + r.value);
    }
  }

  method SumGaps(gaps: seq<Ivl>) returns (totalFree: int)
    ensures totalFree == Total(gaps)
  {
    totalFree := 0;
    var k := 0;
    while k < |gaps|
      invariant 0 <= k <= |gaps| && totalFree == Total(gaps[..k])
    {
      assert gaps[..k + 1][..k] == gaps[..k];
      totalFree := totalFree + Size(gaps[k]);
      k := k + 1;
    }
    assert gaps[..k] == gaps;
  }

  /** The three passes, inside the subnet's pool window. */
  method LayoutWindow(window: Ivl, specs: seq<PoolSpec>) returns (r: Result<seq<Option<Ivl>>, LayoutError>)
    requires window.lo <= window.hi < U32 - 1
    ensures r == LayoutIn(window, specs)
  {
    hide PinScan, PlaceFrom, SizePass, FreeGapsFrom, FreeGapsWrapping, Sorted;
    var pins := CollectPins(specs, window);
    if pins.Err? {
      return Err(pins.error);
    }
    PinnedGaps(specs, |specs|, window);
    PinScanSound(specs, |specs|, window);
    SortedDisjointIsOrdered(pins.value, window);
    var sorted := new Ivl[|pins.value|](i requires 0 <= i < |pins.value| => pins.value[i]);
    assert sorted[..] == pins.value;
    SortIvls(sorted);
    WrappingAgrees(window.lo, window.hi, sorted[..]);
    var gaps := FreeGaps(window.lo, window.hi, sorted[..]);
    var totalFree := SumGaps(gaps);
    var sizes := SizeSpecs(specs, totalFree);
    if sizes.Err? {
      return Err(sizes.error);
    }
    r := PlaceSpecs(specs, sizes.value, gaps);
  }

  /** The usable addresses after the gateway, in uint32 arithmetic. */
  method FindWindow(c: Cidr) returns (window: Option<Ivl>)
    ensures window == PoolWindow(c)
    ensures window.Some? ==> window.value.lo <= window.value.hi < U32 - 1
  {
    var bounds := UsableBounds(c);
    if bounds.None? {
      return None;
    }
    BoundsBelowTop(c);
    hide UsableBounds;
    var poolLo, hi := Wrap(bounds.value.lo + 1), bounds.value.hi; // network+1 is the gateway
    if poolLo > hi {
      return None;
    }
    window := Some(Ivl(poolLo, hi));
  }

  lemma BoundsBelowTop(c: Cidr)
    requires UsableBounds(c).Some?
    ensures UsableBounds(c).value.hi < U32 - 1
  {
    var network, broadcast := Network(c.ip, c.len), Broadcast(c.ip, c.len);
    hide Network, Broadcast, Wrap;
    if broadcast == 0 {
      assert network == 0;
      WrapIsId(2);
    } else {
      WrapIsId(broadcast - 1);
    }
  }

  method LayoutPools(c: Cidr, specs: seq<PoolSpec>) returns (r: Result<seq<Placement>, LayoutError>)
    ensures r == Layout(c, specs)
  {
    hide LayoutIn, PoolWindow, Placements;
    if c.Unparseable? {
      return Err(InvalidCidr);
    }
    var window := FindWindow(c);
    if window.None? {
      return Err(SubnetTooSmall);
    }
    var ranges := LayoutWindow(window.value, specs);
    if ranges.Err? {
      return Err(ranges.error);
    }
    r := Ok(Placements(specs, ranges.value));
  }
}
