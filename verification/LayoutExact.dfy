/** The allocator's outcome said outright, for every plan, pinned or not (layout.go): which
    plans it accepts, and where every pool goes. */
module LayoutExact {
  import opened Common
  import opened Addresses
  import opened Gaps
  import opened PoolLayout
  import opened LayoutSafety
  import opened PlanSizes

  // ---- What an accepted plan and its layout are ----

  function PinSize(s: PoolSpec): int { if s.range.Range? then s.range.hi - s.range.lo + 1 else 0 }

  /** The addresses of the window in no pin. */
  function FreeSpace(window: Ivl, specs: seq<PoolSpec>): int {
    window.hi - window.lo + 1 - SumOf(specs, |specs|, PinSize)
  }

  predicate Overlap(a: RangeText, b: RangeText)
    requires a.Range? && b.Range?
  {
    a.lo <= b.hi && b.lo <= a.hi
  }

  /** Every pin is a range inside the window, and no two overlap. */
  predicate PinsHold(specs: seq<PoolSpec>, window: Ivl) {
    && (forall i :: 0 <= i < |specs| ==> !specs[i].range.BadRange?)
    && (forall i :: 0 <= i < |specs| && specs[i].range.Range? ==>
          window.lo <= specs[i].range.lo <= specs[i].range.hi <= window.hi)
    && (forall i, j :: 0 <= i < j < |specs| && specs[i].range.Range? && specs[j].range.Range? ==>
          !Overlap(specs[i].range, specs[j].range))
  }

  predicate InPin(specs: seq<PoolSpec>, x: int) {
    exists k :: 0 <= k < |specs| && specs[k].range.Range? && specs[k].range.lo <= x <= specs[k].range.hi
  }

  /** x is in the range of one of the first n pools. */
  predicate InEarlier(rs: seq<Option<Ivl>>, n: nat, x: int)
    requires n <= |rs|
  {
    exists k :: 0 <= k < n && rs[k].Some? && rs[k].value.lo <= x <= rs[k].value.hi
  }

  /** n addresses from a on, all in the window, in no pin and in no earlier pool. */
  ghost predicate FreeRun(window: Ivl, specs: seq<PoolSpec>, rs: seq<Option<Ivl>>, i: nat, a: int, n: int)
    requires i <= |rs|
  {
    && window.lo <= a && a + n - 1 <= window.hi
    && forall x :: a <= x < a + n ==> !InPin(specs, x) && !InEarlier(rs, i, x)
  }

  /** Pool i, owed `owed` addresses, takes the lowest free run of that many; an elastic pool
      that finds none takes the lowest of the longest free runs, if that reaches its floor. */
  ghost predicate WellPlaced(window: Ivl, specs: seq<PoolSpec>, rs: seq<Option<Ivl>>, i: nat, owed: int)
    requires i < |specs| == |rs|
  {
    if specs[i].range.Range? then rs[i] == Some(Ivl(specs[i].range.lo, specs[i].range.hi))
    else if owed <= 0 then rs[i] == None
    else
      && rs[i].Some?
      && var a, n := rs[i].value.lo, rs[i].value.hi - rs[i].value.lo + 1;
         && n > 0 && FreeRun(window, specs, rs, i, a, n)
         && (forall b :: FreeRun(window, specs, rs, i, b, n) ==> a <= b)
         && (|| n == owed
             || (&& specs[i].kind.PoolElastic? && Floor(specs[i]) <= n < owed
                 && forall b, m :: FreeRun(window, specs, rs, i, b, m) ==> m <= n))
  }

  ghost predicate WellLaid(window: Ivl, specs: seq<PoolSpec>, rs: seq<Option<Ivl>>) {
    && PinsHold(specs, window) && CanSize(specs, FreeSpace(window, specs))
    && |rs| == |specs|
    && forall i :: 0 <= i < |specs| ==> WellPlaced(window, specs, rs, i, Owed(specs, FreeSpace(window, specs), i))
  }

  // ---- Pins ----

  /** The n-th pin against the window and the pins before it. */
  predicate PinFits(specs: seq<PoolSpec>, window: Ivl, n: nat)
    requires n < |specs|
  {
    && !specs[n].range.BadRange?
    && (specs[n].range.Range? ==>
          && window.lo <= specs[n].range.lo <= specs[n].range.hi <= window.hi
          && forall i :: 0 <= i < n && specs[i].range.Range? ==> !Overlap(specs[i].range, specs[n].range))
  }

  lemma PinsHoldNext(specs: seq<PoolSpec>, window: Ivl, n: nat)
    requires n < |specs|
    ensures PinsHold(specs[..n + 1], window) <==> PinsHold(specs[..n], window) && PinFits(specs, window, n)
  {
    hide Overlap;
    var all, init := specs[..n + 1], specs[..n];
    assert forall i :: 0 <= i < n ==> all[i] == specs[i] && init[i] == specs[i];
    assert all[n] == specs[n];
    if PinsHold(init, window) && PinFits(specs, window, n) {
      forall i, j | 0 <= i < j < n + 1 && all[i].range.Range? && all[j].range.Range?
        ensures !Overlap(all[i].range, all[j].range)
      {
        if j < n { assert !Overlap(init[i].range, init[j].range); } else { assert specs[i].range.Range?; }
      }
    }
    if PinsHold(all, window) {
      forall i | 0 <= i < n && specs[i].range.Range? && specs[n].range.Range?
        ensures !Overlap(specs[i].range, specs[n].range)
      {
        assert !Overlap(all[i].range, all[n].range);
      }
      forall i, j | 0 <= i < j < n && init[i].range.Range? && init[j].range.Range?
        ensures !Overlap(init[i].range, init[j].range)
      {
        assert !Overlap(all[i].range, all[j].range);
      }
    }
  }

  /** The pins of the first n specs, as their ranges. */
  predicate ArePins(specs: seq<PoolSpec>, n: nat, pinned: seq<Ivl>)
    requires n <= |specs|
  {
    && (forall i :: 0 <= i < n && specs[i].range.Range? ==> Ivl(specs[i].range.lo, specs[i].range.hi) in pinned)
    && (forall p :: p in pinned ==> exists i :: 0 <= i < n && specs[i].range == Range(p.lo, p.hi))
  }

  lemma PinFitsExactly(specs: seq<PoolSpec>, window: Ivl, n: nat, pinned: seq<Ivl>)
    requires n < |specs| && ArePins(specs, n, pinned)
    ensures PinError(specs[n], n, window, pinned).None? <==> PinFits(specs, window, n)
  {
    var s := specs[n];
    if s.range.Range? {
      var r := Ivl(s.range.lo, s.range.hi);
      if k :| 0 <= k < |pinned| && !Disjoint(r, pinned[k]) {
        assert pinned[k] in pinned;
        var i :| 0 <= i < n && specs[i].range == Range(pinned[k].lo, pinned[k].hi);
        assert r.lo <= r.hi ==> Overlap(specs[i].range, s.range);
      }
      if i :| 0 <= i < n && specs[i].range.Range? && Overlap(specs[i].range, s.range) {
        var k :| 0 <= k < |pinned| && pinned[k] == Ivl(specs[i].range.lo, specs[i].range.hi);
        assert !Disjoint(r, pinned[k]);
      }
    }
  }

  lemma {:induction false} PinScanExactly(specs: seq<PoolSpec>, n: nat, window: Ivl)
    requires n <= |specs|
    ensures PinScan(specs, n, window).Ok? <==> PinsHold(specs[..n], window)
    ensures PinScan(specs, n, window).Ok? ==>
              && ArePins(specs, n, PinScan(specs, n, window).value)
              && Total(PinScan(specs, n, window).value) == SumOf(specs, n, PinSize)
  {
    hide PinsHold, PinFits, PinError, ArePins, PinScan, Total, SumOf;
    PinScanNext(specs, n, window);
    if n > 0 {
      PinScanExactly(specs, n - 1, window);
      PinsHoldNext(specs, window, n - 1);
      if PinScan(specs, n - 1, window).Ok? {
        var pinned := PinScan(specs, n - 1, window).value;
        PinFitsExactly(specs, window, n - 1, pinned);
        ArePinsNext(specs, n - 1, pinned);
        if specs[n - 1].range.Range? { TotalSnoc(pinned, Ivl(specs[n - 1].range.lo, specs[n - 1].range.hi)); }
      }
    }
  }

  lemma PinScanNext(specs: seq<PoolSpec>, n: nat, window: Ivl)
    requires n <= |specs|
    ensures n == 0 ==> && PinScan(specs, n, window) == Ok([]) && PinsHold(specs[..n], window) && ArePins(specs, 0, [])
                       && Total([]) == SumOf(specs, 0, PinSize) == 0
    ensures n > 0 ==>
              && SumOf(specs, n, PinSize) == SumOf(specs, n - 1, PinSize) + PinSize(specs[n - 1])
              && (PinScan(specs, n - 1, window).Err? ==> PinScan(specs, n, window).Err?)
              && (PinScan(specs, n - 1, window).Ok? ==>
                    var pinned, s := PinScan(specs, n - 1, window).value, specs[n - 1];
                    if PinError(s, n - 1, window, pinned).Some? then PinScan(specs, n, window).Err?
                    else PinScan(specs, n, window)
                         == Ok(if s.range.Range? then pinned + [Ivl(s.range.lo, s.range.hi)] else pinned))
  {
    hide PinError, Overlap;
  }

  lemma TotalSnoc(s: seq<Ivl>, x: Ivl)
    ensures Total(s + [x]) == Total(s) + Size(x)
  {
    assert (s + [x])[..|s|] == s;
  }

  lemma ArePinsNext(specs: seq<PoolSpec>, n: nat, pinned: seq<Ivl>)
    requires n < |specs| && ArePins(specs, n, pinned)
    ensures var s := specs[n];
            ArePins(specs, n + 1, if s.range.Range? then pinned + [Ivl(s.range.lo, s.range.hi)] else pinned)
  {
    var s := specs[n];
    var all := if s.range.Range? then pinned + [Ivl(s.range.lo, s.range.hi)] else pinned;
    forall p | p in all ensures exists i :: 0 <= i < n + 1 && specs[i].range == Range(p.lo, p.hi) {
      if p in pinned {
        var i :| 0 <= i < n && specs[i].range == Range(p.lo, p.hi);
      } else {
        assert specs[n].range == Range(p.lo, p.hi);
      }
    }
  }

  lemma PinsCover(specs: seq<PoolSpec>, pinned: seq<Ivl>, x: int)
    requires ArePins(specs, |specs|, pinned)
    ensures InSome(pinned, x) <==> InPin(specs, x)
  {
    if k :| 0 <= k < |pinned| && pinned[k].lo <= x <= pinned[k].hi {
      assert pinned[k] in pinned;
      var i :| 0 <= i < |specs| && specs[i].range == Range(pinned[k].lo, pinned[k].hi);
    }
    if i :| 0 <= i < |specs| && specs[i].range.Range? && specs[i].range.lo <= x <= specs[i].range.hi {
      var k :| 0 <= k < |pinned| && pinned[k] == Ivl(specs[i].range.lo, specs[i].range.hi);
    }
  }

  lemma SameMembers(a: seq<Ivl>, b: seq<Ivl>, x: int)
    requires multiset(a) == multiset(b)
    ensures InSome(a, x) <==> InSome(b, x)
  {
    if i :| 0 <= i < |a| && a[i].lo <= x <= a[i].hi {
      assert a[i] in multiset(b);
      var j :| 0 <= j < |b| && b[j] == a[i];
    }
    if i :| 0 <= i < |b| && b[i].lo <= x <= b[i].hi {
      assert b[i] in multiset(a);
      var j :| 0 <= j < |a| && a[j] == b[i];
    }
  }

  // ---- The gaps are the free addresses ----

  /** The gaps hold exactly the addresses that are still free when pool i is placed. */
  ghost predicate GapsAreFree(window: Ivl, specs: seq<PoolSpec>, rs: seq<Option<Ivl>>, i: nat, gaps: seq<Ivl>)
    requires i <= |rs|
  {
    && Ordered(gaps, window.lo, window.hi) && NonEmpty(gaps) && Apart(gaps)
    && forall x :: InSome(gaps, x) <==> window.lo <= x <= window.hi && !InPin(specs, x) && !InEarlier(rs, i, x)
  }

  function GapsAround(specs: seq<PoolSpec>, window: Ivl): seq<Ivl>
    requires PinScan(specs, |specs|, window).Ok?
  {
    FreeGapsFrom(window.lo, window.hi, Sorted(PinScan(specs, |specs|, window).value))
  }

  lemma FirstGaps(window: Ivl, specs: seq<PoolSpec>, rs: seq<Option<Ivl>>)
    requires window.lo <= window.hi && PinScan(specs, |specs|, window).Ok?
    ensures GapsAreFree(window, specs, rs, 0, GapsAround(specs, window))
    ensures Total(GapsAround(specs, window)) == FreeSpace(window, specs)
  {
    var pinned := PinScan(specs, |specs|, window).value;
    PinScanExactly(specs, |specs|, window);
    PinScanSound(specs, |specs|, window);
    PinnedGaps(specs, |specs|, window);
    SortedDisjointIsOrdered(pinned, window);
    SortedIsOrdered(pinned);
    TotalSorted(pinned);
    hide PinScan, Sorted, FreeGapsFrom, Ordered, NonEmpty, Apart, InSome, InPin, ArePins, Within, PairwiseDisjoint;
    FreeGapsExact(window.lo, window.hi, Sorted(pinned));
    forall x
      ensures InSome(GapsAround(specs, window), x)
              <==> window.lo <= x <= window.hi && !InPin(specs, x) && !InEarlier(rs, 0, x)
    {
      SameMembers(Sorted(pinned), pinned, x);
      PinsCover(specs, pinned, x);
    }
  }

  /** A free run is a run inside one gap. */
  lemma FreeRunInGap(window: Ivl, specs: seq<PoolSpec>, rs: seq<Option<Ivl>>, i: nat, gaps: seq<Ivl>, a: int, n: int)
    requires i <= |rs| && GapsAreFree(window, specs, rs, i, gaps) && n > 0
    ensures FreeRun(window, specs, rs, i, a, n)
            <==> exists m :: 0 <= m < |gaps| && gaps[m].lo <= a && a + n - 1 <= gaps[m].hi
  {
    hide InPin, InEarlier, Apart, NonEmpty;
    if FreeRun(window, specs, rs, i, a, n) {
      assert forall x :: a <= x < a + n ==> InSome(gaps, x);
      var m := RunInOneGap(gaps, a, n);
    }
    if m :| 0 <= m < |gaps| && gaps[m].lo <= a && a + n - 1 <= gaps[m].hi {
      assert forall x :: a <= x < a + n ==> InSome(gaps, x);
      assert InSome(gaps, a) && InSome(gaps, a + n - 1);
    }
  }

  // ---- One pool ----

  ghost predicate IsLowest(window: Ivl, specs: seq<PoolSpec>, rs: seq<Option<Ivl>>, i: nat, a: int, n: int)
    requires i <= |rs|
  {
    FreeRun(window, specs, rs, i, a, n) && forall b :: FreeRun(window, specs, rs, i, b, n) ==> a <= b
  }

  /** The front of the first gap with room for n is the lowest free run of n. */
  lemma FirstFitIsLowest(window: Ivl, specs: seq<PoolSpec>, rs: seq<Option<Ivl>>, i: nat, gaps: seq<Ivl>, m: nat,
                         n: int)
    requires i <= |rs| && GapsAreFree(window, specs, rs, i, gaps)
    requires m < |gaps| && 0 < n <= Size(gaps[m]) && forall j :: 0 <= j < m ==> Size(gaps[j]) < n
    ensures IsLowest(window, specs, rs, i, gaps[m].lo, n)
  {
    hide FreeRun, InPin, InEarlier, InSome, Apart, NonEmpty;
    FreeRunInGap(window, specs, rs, i, gaps, gaps[m].lo, n);
    forall b | FreeRun(window, specs, rs, i, b, n) ensures gaps[m].lo <= b {
      FreeRunInGap(window, specs, rs, i, gaps, b, n);
      var k :| 0 <= k < |gaps| && gaps[k].lo <= b && b + n - 1 <= gaps[k].hi;
      assert Size(gaps[k]) >= n;
    }
  }

  /** No free run is longer than the widest gap. */
  lemma RunsFitGaps(window: Ivl, specs: seq<PoolSpec>, rs: seq<Option<Ivl>>, i: nat, gaps: seq<Ivl>, n: int)
    requires i <= |rs| && GapsAreFree(window, specs, rs, i, gaps)
    requires n >= 0 && forall j :: 0 <= j < |gaps| ==> Size(gaps[j]) <= n
    ensures forall b, k :: FreeRun(window, specs, rs, i, b, k) ==> k <= n
  {
    hide FreeRun, InPin, InEarlier, InSome, Apart, NonEmpty;
    forall b, k | FreeRun(window, specs, rs, i, b, k) ensures k <= n {
      if k > 0 {
        FreeRunInGap(window, specs, rs, i, gaps, b, k);
        var m :| 0 <= m < |gaps| && gaps[m].lo <= b && b + k - 1 <= gaps[m].hi;
      }
    }
  }

  lemma FloorIs(s: PoolSpec)
    ensures FloorForClass(s.cls) == Floor(s) > 0
  {
  }

  /** The chosen spot against the well-placed range, when some gap fits. */
  lemma FittingSpot(window: Ivl, specs: seq<PoolSpec>, rs: seq<Option<Ivl>>, i: nat, sz: int, gaps: seq<Ivl>)
    requires i < |specs| == |rs| && GapsAreFree(window, specs, rs, i, gaps) && specs[i].range.NoRange? && sz > 0
    requires FirstFit(gaps, sz) < |gaps|
    ensures WellPlaced(window, specs, rs, i, sz) <==> Occupies(rs, i, gaps[FirstFit(gaps, sz)].lo, sz)
  {
    var m := FirstFit(gaps, sz);
    FirstFitIsLowest(window, specs, rs, i, gaps, m, sz);
    hide GapsAreFree, FirstFit, IsLowest;
    LowestIsPlaced(window, specs, rs, i, sz, gaps[m].lo);
  }

  predicate Occupies(rs: seq<Option<Ivl>>, i: nat, lo: int, n: int)
    requires i < |rs|
  {
    rs[i].Some? && rs[i].value.lo == lo && rs[i].value.hi == lo + n - 1
  }

  lemma LowestIsPlaced(window: Ivl, specs: seq<PoolSpec>, rs: seq<Option<Ivl>>, i: nat, sz: int, lo: int)
    requires i < |specs| == |rs| && specs[i].range.NoRange? && sz > 0 && IsLowest(window, specs, rs, i, lo, sz)
    ensures WellPlaced(window, specs, rs, i, sz) <==> Occupies(rs, i, lo, sz)
  {
    hide FreeRun, Floor;
  }

  /** The same when none fits: an elastic pool gets the first widest gap. */
  lemma CappedSpot(window: Ivl, specs: seq<PoolSpec>, rs: seq<Option<Ivl>>, i: nat, sz: int, gaps: seq<Ivl>)
    requires i < |specs| == |rs| && GapsAreFree(window, specs, rs, i, gaps) && specs[i].range.NoRange? && sz > 0
    requires FirstFit(gaps, sz) == |gaps| && gaps != []
    ensures var g := gaps[Largest(gaps, |gaps|)];
            WellPlaced(window, specs, rs, i, sz)
            <==> specs[i].kind.PoolElastic? && Floor(specs[i]) <= Size(g) && rs[i] == Some(g)
  {
    var m := Largest(gaps, |gaps|);
    var n := Size(gaps[m]);
    assert 0 < n < sz by { assert gaps[m].lo <= gaps[m].hi; }
    FirstFitIsLowest(window, specs, rs, i, gaps, m, n);
    RunsFitGaps(window, specs, rs, i, gaps, n);
    hide FreeRun, GapsAreFree, FirstFit, Largest, WellPlaced, Floor, IsLowest;
    CappedIsPlaced(window, specs, rs, i, sz, gaps[m].lo, n);
    if WellPlaced(window, specs, rs, i, sz) { PlacedIsCapped(window, specs, rs, i, sz, gaps[m].lo, n); }
  }

  lemma CappedIsPlaced(window: Ivl, specs: seq<PoolSpec>, rs: seq<Option<Ivl>>, i: nat, sz: int, lo: int, n: int)
    requires i < |specs| == |rs| && specs[i].range.NoRange? && 0 < n < sz
    requires IsLowest(window, specs, rs, i, lo, n) && forall b, k :: FreeRun(window, specs, rs, i, b, k) ==> k <= n
    ensures specs[i].kind.PoolElastic? && Floor(specs[i]) <= n && Occupies(rs, i, lo, n) ==>
              WellPlaced(window, specs, rs, i, sz)
  {
    hide FreeRun, Floor;
  }

  lemma PlacedIsCapped(window: Ivl, specs: seq<PoolSpec>, rs: seq<Option<Ivl>>, i: nat, sz: int, lo: int, n: int)
    requires i < |specs| == |rs| && specs[i].range.NoRange? && 0 < n < sz
    requires IsLowest(window, specs, rs, i, lo, n) && forall b, k :: FreeRun(window, specs, rs, i, b, k) ==> k <= n
    requires WellPlaced(window, specs, rs, i, sz)
    ensures specs[i].kind.PoolElastic? && Floor(specs[i]) <= n && Occupies(rs, i, lo, n)
  {
    hide FreeRun, Floor;
    var a, m := rs[i].value.lo, rs[i].value.hi - rs[i].value.lo + 1;
    assert m <= n;
    assert FreeRun(window, specs, rs, i, lo, n) ==> n <= m;
  }

  /** A pool that is owed addresses is placed only where some are free. */
  lemma PlacedNeedsGap(window: Ivl, specs: seq<PoolSpec>, rs: seq<Option<Ivl>>, i: nat, sz: int, gaps: seq<Ivl>)
    requires i < |specs| == |rs| && GapsAreFree(window, specs, rs, i, gaps) && specs[i].range.NoRange? && sz > 0
    requires WellPlaced(window, specs, rs, i, sz)
    ensures gaps != []
  {
    hide InPin, InEarlier, Apart, NonEmpty, Ordered;
    assert InSome(gaps, rs[i].value.lo);
  }

  lemma PlaceOneExactly(window: Ivl, specs: seq<PoolSpec>, rs: seq<Option<Ivl>>, i: nat, sz: int, gaps: seq<Ivl>)
    requires i < |specs| == |rs| && GapsAreFree(window, specs, rs, i, gaps) && !specs[i].range.BadRange?
    ensures var p := PlaceOne(specs[i], i, sz, gaps);
            p.Ok? && p.value.range == rs[i] <==> WellPlaced(window, specs, rs, i, sz)
  {
    hide FreeRun, FirstFit, Largest, Shrunk, InPin, InEarlier, InSome, Apart, Ordered;
    FloorIs(specs[i]);
    if specs[i].range.NoRange? && sz > 0 {
      hide WellPlaced;
      if FirstFit(gaps, sz) < |gaps| {
        FittingSpot(window, specs, rs, i, sz, gaps);
      } else if gaps == [] {
        if WellPlaced(window, specs, rs, i, sz) { PlacedNeedsGap(window, specs, rs, i, sz, gaps); }
      } else {
        CappedSpot(window, specs, rs, i, sz, gaps);
      }
    }
  }

  lemma EarlierNext(rs: seq<Option<Ivl>>, i: nat, x: int)
    requires i < |rs|
    ensures InEarlier(rs, i + 1, x) <==> InEarlier(rs, i, x) || (rs[i].Some? && rs[i].value.lo <= x <= rs[i].value.hi)
  {
    if k :| 0 <= k < i && rs[k].Some? && rs[k].value.lo <= x <= rs[k].value.hi {
      assert 0 <= k < i + 1;
    }
  }

  /** The gaps a placement leaves are what is free for the next pool. */
  lemma GapsAfter(window: Ivl, specs: seq<PoolSpec>, rs: seq<Option<Ivl>>, i: nat, sz: int, gaps: seq<Ivl>)
    requires i < |specs| == |rs| && GapsAreFree(window, specs, rs, i, gaps) && !specs[i].range.BadRange?
    requires PlaceOne(specs[i], i, sz, gaps).Ok? && PlaceOne(specs[i], i, sz, gaps).value.range == rs[i]
    ensures GapsAreFree(window, specs, rs, i + 1, PlaceOne(specs[i], i, sz, gaps).value.gaps)
  {
    var after := PlaceOne(specs[i], i, sz, gaps).value.gaps;
    hide InPin, InEarlier, InSome;
    forall x
      ensures InEarlier(rs, i + 1, x)
              <==> InEarlier(rs, i, x) || (rs[i].Some? && rs[i].value.lo <= x <= rs[i].value.hi)
    {
      EarlierNext(rs, i, x);
    }
    if specs[i].range.NoRange? && sz > 0 {
      PlaceChosen(specs[i], i, sz, gaps);
      var spot := Choose(gaps, specs[i], i, sz).value;
      var end := gaps[spot.gap].lo + spot.size - 1;
      hide PlaceOne, Choose, Shrunk, GapsAreFree;
      assert rs[i] == Some(Ivl(gaps[spot.gap].lo, end));
      GapTaken(window, specs, rs, i, gaps, spot.gap, end);
    } else if specs[i].range.Range? {
      forall x | rs[i].value.lo <= x <= rs[i].value.hi ensures InPin(specs, x) { PinCovers(specs, i, x); }
    }
  }

  lemma PinCovers(specs: seq<PoolSpec>, i: nat, x: int)
    requires i < |specs| && specs[i].range.Range? && specs[i].range.lo <= x <= specs[i].range.hi
    ensures InPin(specs, x)
  {
  }

  lemma GapTaken(window: Ivl, specs: seq<PoolSpec>, rs: seq<Option<Ivl>>, i: nat, gaps: seq<Ivl>, m: nat, end: Addr)
    requires i < |rs| && GapsAreFree(window, specs, rs, i, gaps) && m < |gaps| && gaps[m].lo <= end <= gaps[m].hi
    requires rs[i] == Some(Ivl(gaps[m].lo, end))
    ensures GapsAreFree(window, specs, rs, i + 1, Shrunk(gaps, m, end))
  {
    forall x ensures InEarlier(rs, i + 1, x) <==> InEarlier(rs, i, x) || gaps[m].lo <= x <= end {
      EarlierNext(rs, i, x);
    }
    ShrunkExact(gaps, m, end, window.lo, window.hi);
    ShrunkStaysOrdered(gaps, m, end, window.lo, window.hi);
    hide Shrunk, InSome, InPin, InEarlier, Apart;
    OrderedIsNonEmpty(Shrunk(gaps, m, end), window.lo, window.hi);
  }

  // ---- The whole plan ----

  lemma PrependExactly(r: Option<Ivl>, rest: Result<seq<Option<Ivl>>, LayoutError>, rs: seq<Option<Ivl>>, i: nat)
    requires i < |rs|
    ensures Prepend([r], rest) == Ok(rs[i..]) <==> r == rs[i] && rest == Ok(rs[i + 1..])
  {
    assert rs[i..] == [rs[i]] + rs[i + 1..];
    if rest.Ok? && [r] + rest.value == rs[i..] {
      assert ([r] + rest.value)[1..] == rest.value && rs[i..][1..] == rs[i + 1..];
      assert ([r] + rest.value)[0] == rs[i..][0];
    }
  }

  lemma {:induction false} PlaceFromExactly(window: Ivl, specs: seq<PoolSpec>, rs: seq<Option<Ivl>>, sizes: seq<int>,
                                            gaps: seq<Ivl>, i: nat)
    requires i <= |specs| == |rs| == |sizes| && GapsAreFree(window, specs, rs, i, gaps)
    requires forall k :: 0 <= k < |specs| ==> !specs[k].range.BadRange?
    ensures NonEmpty(gaps)
    ensures PlaceFrom(specs, sizes, gaps, i) == Ok(rs[i..])
            <==> forall k :: i <= k < |specs| ==> WellPlaced(window, specs, rs, k, sizes[k])
    decreases |specs| - i
  {
    hide WellPlaced, PlaceOne, InSome, Ordered, Apart;
    if i < |specs| {
      PlaceOneExactly(window, specs, rs, i, sizes[i], gaps);
      var p := PlaceOne(specs[i], i, sizes[i], gaps);
      if p.Ok? {
        var rest := PlaceFrom(specs, sizes, p.value.gaps, i + 1);
        PrependExactly(p.value.range, rest, rs, i);
        if p.value.range == rs[i] {
          GapsAfter(window, specs, rs, i, sizes[i], gaps);
          hide GapsAreFree;
          PlaceFromExactly(window, specs, rs, sizes, p.value.gaps, i + 1);
        }
      }
    } else {
      assert rs[i..] == [];
    }
  }

  /** The layout of a plan, pinned or not: the allocator accepts it with exactly these ranges
      if and only if the plan is well laid by them. */
  lemma LayoutExactly(window: Ivl, specs: seq<PoolSpec>, rs: seq<Option<Ivl>>)
    requires window.lo <= window.hi
    ensures LayoutIn(window, specs) == Ok(rs) <==> WellLaid(window, specs, rs)
  {
    PinScanExactly(specs, |specs|, window);
    assert specs[..|specs|] == specs;
    if PinsHold(specs, window) && |rs| == |specs| {
      FirstGaps(window, specs, rs);
      SizesExactly(specs, FreeSpace(window, specs));
      PinnedGaps(specs, |specs|, window);
      var gaps := GapsAround(specs, window);
      hide WellPlaced, PinScan, PlaceFrom, SizePass, Owed, CanSize, FreeSpace, GapsAreFree;
      if SizePass(specs, FreeSpace(window, specs)).Ok? {
        PlaceFromExactly(window, specs, rs, SizePass(specs, FreeSpace(window, specs)).value, gaps, 0);
        assert rs[0..] == rs;
      }
    }
  }

  /** So a plan is accepted exactly when it can be well laid, and in one way only. */
  lemma WellLaidOnce(window: Ivl, specs: seq<PoolSpec>, rs: seq<Option<Ivl>>, rs': seq<Option<Ivl>>)
    requires window.lo <= window.hi && WellLaid(window, specs, rs) && WellLaid(window, specs, rs')
    ensures rs == rs'
  {
    LayoutExactly(window, specs, rs);
    LayoutExactly(window, specs, rs');
  }
}
