/** Which error the allocator reports (layout.go), for every plan it refuses. */
module LayoutErrors {
  import opened Common
  import opened Addresses
  import opened Gaps
  import opened PoolLayout
  import opened PlanSizes
  import opened LayoutExact

  // ---- The error of each pass, in the plan's own terms ----

  /** The fault of a pin that does not hold. */
  function PinFault(s: PoolSpec, k: nat, window: Ivl): LayoutError {
    if !s.range.Range? || s.range.lo > s.range.hi then InvalidRange(k)
    else if s.range.lo < window.lo || s.range.hi > window.hi then OutsideSubnet(k)
    else PinnedOverlap(k)
  }

  /** The first pin that does not fit in with those before it is at fault. */
  ghost predicate PinRefused(window: Ivl, specs: seq<PoolSpec>, e: LayoutError) {
    exists k :: 0 <= k < |specs| && !PinFits(specs, window, k) && e == PinFault(specs[k], k, window)
                && forall j :: 0 <= j < k ==> PinFits(specs, window, j)
  }

  /** The first negative size is at fault; then the fixed sizes together; then the first
      elastic pool below its floor. */
  ghost predicate SizeRefused(specs: seq<PoolSpec>, free: int, e: LayoutError) {
    if exists k :: 0 <= k < |specs| && Asked(specs[k]) < 0 then
      exists k :: 0 <= k < |specs| && Asked(specs[k]) < 0 && e == NegativeSize(k)
                  && forall j :: 0 <= j < k ==> Asked(specs[j]) >= 0
    else if RestOf(specs, free) < 0 then e == FixedDoNotFit
    else
      exists k :: 0 <= k < |specs| && Starved(specs, free, k) && e == ElasticTooSmall(k)
                  && forall j :: 0 <= j < k ==> !Starved(specs, free, j)
  }

  predicate Starved(specs: seq<PoolSpec>, free: int, k: nat)
    requires k < |specs|
  {
    Weight(specs[k]) > 0 && Owed(specs, free, k) < Floor(specs[k])
  }

  /** Pool k is owed addresses and no free run has that many; an elastic pool moreover finds
      no free run as long as its floor. */
  ghost predicate Stuck(window: Ivl, specs: seq<PoolSpec>, rs: seq<Option<Ivl>>, k: nat, owed: int, e: LayoutError)
    requires k < |specs| == |rs|
  {
    && specs[k].range.NoRange? && owed > 0
    && (forall b :: !FreeRun(window, specs, rs, k, b, owed))
    && if !specs[k].kind.PoolElastic? then e == NoGapFits(k)
       else if forall b :: !FreeRun(window, specs, rs, k, b, 1) then e == NoSpaceLeft(k)
       else e == TooFragmented(k) && forall b :: !FreeRun(window, specs, rs, k, b, Floor(specs[k]))
  }

  /** The pools before k are placed as they should be, and k is stuck. */
  ghost predicate StuckAfter(window: Ivl, specs: seq<PoolSpec>, rs: seq<Option<Ivl>>, k: nat, e: LayoutError) {
    && k < |specs| == |rs|
    && var free := FreeSpace(window, specs);
       && Stuck(window, specs, rs, k, Owed(specs, free, k), e)
       && forall j :: 0 <= j < k ==> WellPlaced(window, specs, rs, j, Owed(specs, free, j))
  }

  ghost predicate PlacementRefused(window: Ivl, specs: seq<PoolSpec>, e: LayoutError) {
    exists rs, k: nat :: StuckAfter(window, specs, rs, k, e)
  }

  ghost predicate Refused(window: Ivl, specs: seq<PoolSpec>, e: LayoutError) {
    if !PinsHold(specs, window) then PinRefused(window, specs, e)
    else if !CanSize(specs, FreeSpace(window, specs)) then SizeRefused(specs, FreeSpace(window, specs), e)
    else PlacementRefused(window, specs, e)
  }

  // ---- Pins ----

  lemma FaultIs(specs: seq<PoolSpec>, window: Ivl, n: nat, pinned: seq<Ivl>)
    requires n < |specs| && ArePins(specs, n, pinned) && !PinFits(specs, window, n)
    ensures PinError(specs[n], n, window, pinned) == Some(PinFault(specs[n], n, window))
  {
    PinFitsExactly(specs, window, n, pinned);
    hide ArePins, Overlap;
  }

  lemma {:induction false} PinScanFault(specs: seq<PoolSpec>, n: nat, window: Ivl)
    requires n <= |specs|
    ensures PinScan(specs, n, window).Err? ==>
              exists k :: 0 <= k < n && !PinFits(specs, window, k)
                          && PinScan(specs, n, window) == Err(PinFault(specs[k], k, window))
                          && forall j :: 0 <= j < k ==> PinFits(specs, window, j)
    ensures PinScan(specs, n, window).Ok? ==> forall j :: 0 <= j < n ==> PinFits(specs, window, j)
  {
    hide PinFits, PinError, ArePins, Total, SumOf, PinFault;
    if n > 0 {
      PinScanFault(specs, n - 1, window);
      if PinScan(specs, n - 1, window).Ok? {
        var pinned := PinScan(specs, n - 1, window).value;
        PinScanExactly(specs, n - 1, window);
        PinFitsExactly(specs, window, n - 1, pinned);
        if !PinFits(specs, window, n - 1) { FaultIs(specs, window, n - 1, pinned); }
      }
    }
  }

  lemma PinFaultsExactly(specs: seq<PoolSpec>, window: Ivl, e: LayoutError)
    ensures PinScan(specs, |specs|, window) == Err(e) <==> PinRefused(window, specs, e)
  {
    PinScanFault(specs, |specs|, window);
    hide PinFits, PinScan, PinFault;
    if PinScan(specs, |specs|, window).Err? && PinRefused(window, specs, e) {
      var k :| 0 <= k < |specs| && !PinFits(specs, window, k)
               && PinScan(specs, |specs|, window) == Err(PinFault(specs[k], k, window))
               && forall j :: 0 <= j < k ==> PinFits(specs, window, j);
      var k' :| 0 <= k' < |specs| && !PinFits(specs, window, k') && e == PinFault(specs[k'], k', window)
                && forall j :: 0 <= j < k' ==> PinFits(specs, window, j);
      assert k == k';
    }
  }

  // ---- Sizes ----

  lemma {:induction false} FirstNegativeIsFirst(specs: seq<PoolSpec>, n: nat)
    requires n <= |specs|
    ensures FirstNegative(specs, n).Some? ==>
              var k := FirstNegative(specs, n).value;
              k < n && Asked(specs[k]) < 0 && forall j :: 0 <= j < k ==> Asked(specs[j]) >= 0
    ensures FirstNegative(specs, n).None? ==> forall j :: 0 <= j < n ==> Asked(specs[j]) >= 0
  {
    if n > 0 { FirstNegativeIsFirst(specs, n - 1); }
  }

  lemma {:induction false} FirstUndershootIsFirst(specs: seq<PoolSpec>, idx: seq<nat>, n: nat, free: int)
    requires Indexes(specs, idx) && n <= |idx| && FixedSum(specs, |specs|) <= free
    ensures FirstUndershoot(specs, idx, n, free).Some? ==>
              exists m :: 0 <= m < n && FirstUndershoot(specs, idx, n, free) == Some(idx[m])
                          && SizeOf(specs, idx[m], free) < FloorForClass(specs[idx[m]].cls)
                          && forall j :: 0 <= j < m ==> SizeOf(specs, idx[j], free) >= FloorForClass(specs[idx[j]].cls)
    ensures FirstUndershoot(specs, idx, n, free).None? ==>
              forall j :: 0 <= j < n ==> SizeOf(specs, idx[j], free) >= FloorForClass(specs[idx[j]].cls)
  {
    hide SizeOf, FloorForClass, FixedSum;
    if n > 0 { FirstUndershootIsFirst(specs, idx, n - 1, free); }
  }

  lemma StarvedIs(specs: seq<PoolSpec>, free: int, k: nat)
    requires k < |specs| && FixedSum(specs, |specs|) <= free && !specs[k].range.BadRange?
    ensures Starved(specs, free, k) <==> Elastic(specs[k]) && SizeOf(specs, k, free) < FloorForClass(specs[k].cls)
  {
    hide SizeOf, FixedSum, Owed;
    SizeIsOwed(specs, free, k);
    FloorIs(specs[k]);
  }

  /** An earlier elastic pool has an earlier place among the elastic ones. */
  lemma EarlierElastic(specs: seq<PoolSpec>, m: nat, j: nat) returns (q: nat)
    requires m < |ElasticIdx(specs, |specs|)| && j < ElasticIdx(specs, |specs|)[m] < |specs| && Elastic(specs[j])
    ensures q < m && ElasticIdx(specs, |specs|)[q] == j
  {
    var idx := ElasticIdx(specs, |specs|);
    ElasticIdxExact(specs, |specs|);
    hide ElasticIdx;
    q :| 0 <= q < |idx| && idx[q] == j;
  }

  lemma FirstStarved(specs: seq<PoolSpec>, free: int)
    requires FixedSum(specs, |specs|) <= free && forall k :: 0 <= k < |specs| ==> !specs[k].range.BadRange?
    ensures var idx := ElasticIdx(specs, |specs|);
            && Indexes(specs, idx)
            && var u := FirstUndershoot(specs, idx, |idx|, free);
               && (u.Some? ==> u.value < |specs| && Starved(specs, free, u.value)
                               && forall j :: 0 <= j < u.value ==> !Starved(specs, free, j))
               && (u.None? ==> forall j :: 0 <= j < |specs| ==> !Starved(specs, free, j))
  {
    hide SizeOf, FixedSum, Owed, FirstUndershoot, ElasticIdx, Starved, FloorForClass, Elastic;
    var idx := ElasticIdx(specs, |specs|);
    ElasticIdxExact(specs, |specs|);
    FirstUndershootIsFirst(specs, idx, |idx|, free);
    if FirstUndershoot(specs, idx, |idx|, free).Some? {
      var m :| 0 <= m < |idx| && FirstUndershoot(specs, idx, |idx|, free) == Some(idx[m])
               && SizeOf(specs, idx[m], free) < FloorForClass(specs[idx[m]].cls)
               && forall j :: 0 <= j < m ==> SizeOf(specs, idx[j], free) >= FloorForClass(specs[idx[j]].cls);
      StarvedIs(specs, free, idx[m]);
      forall j | 0 <= j < idx[m] ensures !Starved(specs, free, j) {
        StarvedIs(specs, free, j);
        if Elastic(specs[j]) { var q := EarlierElastic(specs, m, j); }
      }
    } else {
      forall j | 0 <= j < |specs| ensures !Starved(specs, free, j) {
        StarvedIs(specs, free, j);
        if Elastic(specs[j]) { var q :| 0 <= q < |idx| && idx[q] == j; }
      }
    }
  }

  lemma SizeFaultsExactly(specs: seq<PoolSpec>, free: int, e: LayoutError)
    requires forall k :: 0 <= k < |specs| ==> !specs[k].range.BadRange?
    requires !CanSize(specs, free)
    ensures SizePass(specs, free) == Err(e) <==> SizeRefused(specs, free, e)
  {
    FirstNegativeIsFirst(specs, |specs|);
    FixedIsAsked(specs, |specs|);
    hide SumOf, FixedSum, FirstNegative, Asked, Owed, SizeOf, FirstUndershoot, ElasticIdx, Weight, Floor;
    if FixedSum(specs, |specs|) <= free { FirstStarved(specs, free); }
  }

  // ---- Placement ----

  lemma StuckExactly(window: Ivl, specs: seq<PoolSpec>, rs: seq<Option<Ivl>>, i: nat, sz: int, gaps: seq<Ivl>,
                     e: LayoutError)
    requires i < |specs| == |rs| && GapsAreFree(window, specs, rs, i, gaps) && !specs[i].range.BadRange?
    ensures PlaceOne(specs[i], i, sz, gaps) == Err(e) <==> Stuck(window, specs, rs, i, sz, e)
  {
    hide FreeRun, FirstFit, Largest, Shrunk, InPin, InEarlier, InSome, Apart, Ordered, IsLowest;
    FloorIs(specs[i]);
    if specs[i].range.NoRange? && sz > 0 {
      if FirstFit(gaps, sz) < |gaps| {
        FirstFitIsLowest(window, specs, rs, i, gaps, FirstFit(gaps, sz), sz);
        LowestIsFree(window, specs, rs, i, gaps[FirstFit(gaps, sz)].lo, sz);
      } else if gaps == [] {
        RunsFitGaps(window, specs, rs, i, gaps, 0);
      } else {
        var m := Largest(gaps, |gaps|);
        RunsFitGaps(window, specs, rs, i, gaps, Size(gaps[m]));
        FrontIsFree(window, specs, rs, i, gaps, m, 1);
        if Floor(specs[i]) <= Size(gaps[m]) { FrontIsFree(window, specs, rs, i, gaps, m, Floor(specs[i])); }
      }
    }
  }

  lemma LowestIsFree(window: Ivl, specs: seq<PoolSpec>, rs: seq<Option<Ivl>>, i: nat, a: int, n: int)
    requires i <= |rs| && IsLowest(window, specs, rs, i, a, n)
    ensures FreeRun(window, specs, rs, i, a, n)
  {
  }

  lemma FrontIsFree(window: Ivl, specs: seq<PoolSpec>, rs: seq<Option<Ivl>>, i: nat, gaps: seq<Ivl>, m: nat, n: int)
    requires i <= |rs| && GapsAreFree(window, specs, rs, i, gaps) && m < |gaps| && 0 < n <= Size(gaps[m])
    ensures FreeRun(window, specs, rs, i, gaps[m].lo, n)
  {
    FreeRunInGap(window, specs, rs, i, gaps, gaps[m].lo, n);
  }

  lemma {:induction false} StuckPoolFails(window: Ivl, specs: seq<PoolSpec>, rs: seq<Option<Ivl>>, sizes: seq<int>,
                                          gaps: seq<Ivl>, i: nat, k: nat, e: LayoutError)
    requires i <= k < |specs| == |rs| == |sizes| && GapsAreFree(window, specs, rs, i, gaps)
    requires forall j :: 0 <= j < |specs| ==> !specs[j].range.BadRange?
    requires forall j :: i <= j < k ==> WellPlaced(window, specs, rs, j, sizes[j])
    requires Stuck(window, specs, rs, k, sizes[k], e)
    ensures NonEmpty(gaps) && PlaceFrom(specs, sizes, gaps, i) == Err(e)
    decreases k - i
  {
    hide WellPlaced, PlaceOne, Stuck, InSome, Ordered, Apart;
    if i < k {
      PlaceOneExactly(window, specs, rs, i, sizes[i], gaps);
      GapsAfter(window, specs, rs, i, sizes[i], gaps);
      StuckPoolFails(window, specs, rs, sizes, PlaceOne(specs[i], i, sizes[i], gaps).value.gaps, i + 1, k, e);
    } else {
      StuckExactly(window, specs, rs, i, sizes[i], gaps, e);
    }
  }

  /** Only the ranges before a pool matter to it. */
  lemma SameEarlier(rs: seq<Option<Ivl>>, rs': seq<Option<Ivl>>, i: nat, x: int)
    requires i <= |rs| == |rs'| && rs[..i] == rs'[..i]
    ensures InEarlier(rs, i, x) <==> InEarlier(rs', i, x)
  {
    assert forall k :: 0 <= k < i ==> rs[k] == rs[..i][k] && rs'[k] == rs'[..i][k];
  }

  lemma SameFree(window: Ivl, specs: seq<PoolSpec>, rs: seq<Option<Ivl>>, rs': seq<Option<Ivl>>, i: nat)
    requires i <= |rs| == |rs'| && rs[..i] == rs'[..i]
    ensures forall b, n :: FreeRun(window, specs, rs, i, b, n) <==> FreeRun(window, specs, rs', i, b, n)
    ensures forall gaps :: GapsAreFree(window, specs, rs, i, gaps) ==> GapsAreFree(window, specs, rs', i, gaps)
  {
    forall x ensures InEarlier(rs, i, x) <==> InEarlier(rs', i, x) { SameEarlier(rs, rs', i, x); }
    hide InEarlier, InPin, InSome, Ordered, NonEmpty, Apart;
  }

  lemma SamePlaced(window: Ivl, specs: seq<PoolSpec>, rs: seq<Option<Ivl>>, rs': seq<Option<Ivl>>, i: nat, owed: int)
    requires i < |specs| == |rs| == |rs'| && rs[..i + 1] == rs'[..i + 1]
    ensures WellPlaced(window, specs, rs, i, owed) ==> WellPlaced(window, specs, rs', i, owed)
  {
    assert rs[..i] == rs[..i + 1][..i] && rs'[..i] == rs'[..i + 1][..i];
    assert rs[i] == rs[..i + 1][i] && rs'[i] == rs'[..i + 1][i];
    SameFree(window, specs, rs, rs', i);
    hide FreeRun, Floor;
  }

  lemma {:induction false} FailureIsStuck(window: Ivl, specs: seq<PoolSpec>, rs0: seq<Option<Ivl>>, sizes: seq<int>,
                                          gaps: seq<Ivl>, i: nat)
    returns (rs: seq<Option<Ivl>>, k: nat)
    requires i <= |specs| == |rs0| == |sizes| && GapsAreFree(window, specs, rs0, i, gaps)
    requires forall j :: 0 <= j < |specs| ==> !specs[j].range.BadRange?
    requires NonEmpty(gaps) && PlaceFrom(specs, sizes, gaps, i).Err?
    ensures i <= k < |specs| == |rs| && rs[..i] == rs0[..i]
    ensures Stuck(window, specs, rs, k, sizes[k], PlaceFrom(specs, sizes, gaps, i).error)
    ensures forall j :: i <= j < k ==> WellPlaced(window, specs, rs, j, sizes[j])
    decreases |specs| - i
  {
    hide WellPlaced, PlaceOne, Stuck, InSome, Ordered, Apart, GapsAreFree;
    var p := PlaceOne(specs[i], i, sizes[i], gaps);
    if p.Err? {
      rs, k := rs0, i;
      StuckExactly(window, specs, rs, i, sizes[i], gaps, p.error);
    } else {
      var rs1 := rs0[i := p.value.range];
      assert rs1[..i] == rs0[..i];
      SameFree(window, specs, rs0, rs1, i);
      PlaceOneExactly(window, specs, rs1, i, sizes[i], gaps);
      GapsAfter(window, specs, rs1, i, sizes[i], gaps);
      rs, k := FailureIsStuck(window, specs, rs1, sizes, p.value.gaps, i + 1);
      assert rs[..i] == rs[..i + 1][..i] && rs1[..i] == rs1[..i + 1][..i];
      SamePlaced(window, specs, rs1, rs, i, sizes[i]);
    }
  }

  lemma PlacementFaultsExactly(window: Ivl, specs: seq<PoolSpec>, sizes: seq<int>, gaps: seq<Ivl>, e: LayoutError)
    requires |sizes| == |specs| && NonEmpty(gaps)
    requires forall rs: seq<Option<Ivl>> :: GapsAreFree(window, specs, rs, 0, gaps)
    requires forall j :: 0 <= j < |specs| ==> !specs[j].range.BadRange?
    requires forall j :: 0 <= j < |specs| ==> sizes[j] == Owed(specs, FreeSpace(window, specs), j)
    ensures PlaceFrom(specs, sizes, gaps, 0) == Err(e) <==> PlacementRefused(window, specs, e)
  {
    hide WellPlaced, Stuck, GapsAreFree, Owed, FreeSpace, PlaceFrom;
    if PlaceFrom(specs, sizes, gaps, 0) == Err(e) {
      var rs0: seq<Option<Ivl>> := seq(|specs|, _ => None);
      var rs, k := FailureIsStuck(window, specs, rs0, sizes, gaps, 0);
      assert StuckAfter(window, specs, rs, k, e);
    }
    if rs, k: nat :| StuckAfter(window, specs, rs, k, e) {
      StuckPoolFails(window, specs, rs, sizes, gaps, 0, k, e);
    }
  }

  /** The allocator refuses a plan with exactly the error of its first fault. */
  lemma RefusedExactly(window: Ivl, specs: seq<PoolSpec>, e: LayoutError)
    requires window.lo <= window.hi
    ensures LayoutIn(window, specs) == Err(e) <==> Refused(window, specs, e)
  {
    PinScanExactly(specs, |specs|, window);
    assert specs[..|specs|] == specs;
    hide PinRefused, SizeRefused, PlacementRefused, PinScan, SizePass, PlaceFrom, CanSize, GapsAreFree, Owed, FreeSpace;
    if !PinsHold(specs, window) {
      PinFaultsExactly(specs, window, e);
    } else {
      var gaps, free := GapsAround(specs, window), FreeSpace(window, specs);
      PinnedGaps(specs, |specs|, window);
      forall rs: seq<Option<Ivl>> ensures GapsAreFree(window, specs, rs, 0, gaps) { FirstGaps(window, specs, rs); }
      FirstGaps(window, specs, []);
      SizesExactly(specs, free);
      if !CanSize(specs, free) {
        SizeFaultsExactly(specs, free, e);
      } else {
        PlacementFaultsExactly(window, specs, SizePass(specs, free).value, gaps, e);
      }
    }
  }

  // ---- The whole subnet ----

  function RangesOf(ps: seq<Placement>): seq<Option<Ivl>> {
    seq(|ps|, i requires 0 <= i < |ps| => ps[i].range)
  }

  /** ps repeats each spec's class and kind, and its ranges lay the plan well. */
  ghost predicate Lays(window: Ivl, specs: seq<PoolSpec>, ps: seq<Placement>) {
    && |ps| == |specs|
    && (forall k :: 0 <= k < |ps| ==> ps[k].cls == specs[k].cls && ps[k].kind == specs[k].kind)
    && WellLaid(window, specs, RangesOf(ps))
  }

  /** LayoutPools on every subnet: refused when the text is no IPv4 block or the block leaves
      no window; otherwise laid well, or refused with the error of the first fault. */
  lemma SubnetExactly(c: Cidr, specs: seq<PoolSpec>, ps: seq<Placement>, e: LayoutError)
    ensures c.Unparseable? ==> Layout(c, specs) == Err(InvalidCidr)
    ensures c.V4? && PoolWindow(c).None? ==> Layout(c, specs) == Err(SubnetTooSmall)
    ensures c.V4? && PoolWindow(c).Some? ==>
              && (Layout(c, specs) == Ok(ps) <==> Lays(PoolWindow(c).value, specs, ps))
              && (Layout(c, specs) == Err(e) <==> Refused(PoolWindow(c).value, specs, e))
  {
    hide LayoutIn, WellLaid, Refused, Placements, RangesOf;
    if c.V4? && PoolWindow(c).Some? {
      var window := PoolWindow(c).value;
      WindowOrdered(c);
      RefusedExactly(window, specs, e);
      RangesBack(window, specs, ps);
      LayoutExactly(window, specs, RangesOf(ps));
    }
  }

  lemma WindowOrdered(c: Cidr)
    requires c.V4? && PoolWindow(c).Some?
    ensures PoolWindow(c).value.lo <= PoolWindow(c).value.hi
  {
  }

  lemma RangesBack(window: Ivl, specs: seq<PoolSpec>, ps: seq<Placement>)
    ensures forall rs: seq<Option<Ivl>> :: |rs| == |specs| ==>
              (Placements(specs, rs) == ps
               <==> && |ps| == |specs| && RangesOf(ps) == rs
                    && forall k :: 0 <= k < |ps| ==> ps[k].cls == specs[k].cls && ps[k].kind == specs[k].kind)
  {
    forall rs: seq<Option<Ivl>> | |rs| == |specs|
      ensures Placements(specs, rs) == ps
              <==> && |ps| == |specs| && RangesOf(ps) == rs
                   && forall k :: 0 <= k < |ps| ==> ps[k].cls == specs[k].cls && ps[k].kind == specs[k].kind
    {
      PlacedBack(specs, rs, ps);
    }
  }

  lemma PlacedBack(specs: seq<PoolSpec>, rs: seq<Option<Ivl>>, ps: seq<Placement>)
    requires |rs| == |specs|
    ensures Placements(specs, rs) == ps
            <==> && |ps| == |specs| && RangesOf(ps) == rs
                 && forall k :: 0 <= k < |ps| ==> ps[k].cls == specs[k].cls && ps[k].kind == specs[k].kind
  {
    var all := Placements(specs, rs);
    if |ps| == |specs| && RangesOf(ps) == rs
       && forall k :: 0 <= k < |ps| ==> ps[k].cls == specs[k].cls && ps[k].kind == specs[k].kind
    {
      forall k | 0 <= k < |ps| ensures all[k] == ps[k] { assert rs[k] == RangesOf(ps)[k]; }
    }
    if all == ps {
      forall k | 0 <= k < |ps| ensures RangesOf(ps)[k] == rs[k] { assert all[k] == ps[k]; }
    }
  }
}
