/** The pool allocator (layout.go): an ordered plan of fixed, elastic, reserve and
    pinned pools becomes address ranges. `Layout` is the allocator as a function;
    the method `LayoutPools` is the allocator as written, and computes it. */
module PoolLayout {
  import opened ClassNames
  import opened Common
  import opened Addresses
  import opened Gaps

  datatype PoolKind = PoolFixed | PoolElastic | PoolReserve

  /** A spec's trimmed range text: empty, not an address range, or a range. */
  datatype RangeText = NoRange | BadRange | Range(lo: Addr, hi: Addr)

  datatype PoolSpec = PoolSpec(cls: string, kind: PoolKind, size: int, weight: int, range: RangeText)

  /** A spec with its range; None is the empty range of a zero-size pool. */
  datatype Placement = Placement(cls: string, kind: PoolKind, range: Option<Ivl>)

  datatype LayoutError =
    | InvalidCidr
    | SubnetTooSmall
    | InvalidRange(pool: nat)
    | OutsideSubnet(pool: nat)
    | PinnedOverlap(pool: nat)
    | NegativeSize(pool: nat)
    | FixedDoNotFit
    | ElasticTooSmall(pool: nat)
    | NoGapFits(pool: nat)
    | NoSpaceLeft(pool: nat)
    | TooFragmented(pool: nat)

  const LAYOUT_MIN_POOL := 5
  const LAYOUT_CATCH_ALL := 10

  predicate IsCatchAll(cls: string) {
    cls == GGO_OTHERS || cls == OTHERS
  }

  function FloorForClass(cls: string): int {
    if IsCatchAll(cls) then LAYOUT_CATCH_ALL else LAYOUT_MIN_POOL
  }

  function SizeForClass(cls: string, count: int): int {
    if count > FloorForClass(cls) then count else FloorForClass(cls)
  }

  function WeightOf(s: PoolSpec): int {
    if s.weight < 1 then 1 else s.weight
  }

  predicate Pinned(s: PoolSpec) { !s.range.NoRange? }

  // ---- Pass 1: pins ----

  /** Why a pin is refused, given the pins accepted before it. */
  function PinError(s: PoolSpec, i: nat, window: Ivl, pinned: seq<Ivl>): Option<LayoutError> {
    match s.range
    case NoRange => None
    case BadRange => Some(InvalidRange(i))
    case Range(a, b) =>
      if a > b then Some(InvalidRange(i))
      else if a < window.lo || b > window.hi then Some(OutsideSubnet(i))
      else if exists k :: 0 <= k < |pinned| && !Disjoint(Ivl(a, b), pinned[k]) then Some(PinnedOverlap(i))
      else None
  }

  /** The pins of the first n specs, in spec order. */
  function PinScan(specs: seq<PoolSpec>, n: nat, window: Ivl): Result<seq<Ivl>, LayoutError>
    requires n <= |specs|
  {
    if n == 0 then Ok([]) else
      match PinScan(specs, n - 1, window)
      case Err(e) => Err(e)
      case Ok(pinned) =>
        match PinError(specs[n - 1], n - 1, window, pinned)
        case Some(e) => Err(e)
        case None =>
          var range := specs[n - 1].range;
          Ok(if range.Range? then pinned + [Ivl(range.lo, range.hi)] else pinned)
  }

  // ---- Pass 2: sizes ----

  predicate Elastic(s: PoolSpec) { !Pinned(s) && s.kind.PoolElastic? }
  predicate Sized(s: PoolSpec) { !Pinned(s) && !s.kind.PoolElastic? }

  /** The unpinned elastic specs among the first n. */
  function ElasticIdx(specs: seq<PoolSpec>, n: nat): seq<nat>
    requires n <= |specs|
  {
    if n == 0 then []
    else if Elastic(specs[n - 1]) then ElasticIdx(specs, n - 1) + [n - 1]
    else ElasticIdx(specs, n - 1)
  }

  predicate Indexes(specs: seq<PoolSpec>, idx: seq<nat>) {
    forall k :: 0 <= k < |idx| ==> idx[k] < |specs|
  }

  lemma {:induction false} ElasticIdxExact(specs: seq<PoolSpec>, n: nat)
    requires n <= |specs|
    ensures var idx := ElasticIdx(specs, n);
            && Indexes(specs, idx)
            && (forall k :: 0 <= k < |idx| ==> idx[k] < n && Elastic(specs[idx[k]]))
            && (forall j, k :: 0 <= j < k < |idx| ==> idx[j] < idx[k])
            && (forall i :: 0 <= i < n && Elastic(specs[i]) ==> i in idx)
  {
    if n > 0 { ElasticIdxExact(specs, n - 1); }
  }

  function FixedSum(specs: seq<PoolSpec>, n: nat): int
    requires n <= |specs|
  {
    if n == 0 then 0 else FixedSum(specs, n - 1) + (if Sized(specs[n - 1]) then specs[n - 1].size else 0)
  }

  function FirstNegative(specs: seq<PoolSpec>, n: nat): Option<nat>
    requires n <= |specs|
    ensures FirstNegative(specs, n).None? <==> forall i :: 0 <= i < n && Sized(specs[i]) ==> specs[i].size >= 0
  {
    if n == 0 then None else
      match FirstNegative(specs, n - 1)
      case Some(i) => Some(i)
      case None => if Sized(specs[n - 1]) && specs[n - 1].size < 0 then Some(n - 1) else None
  }

  function WeightSum(specs: seq<PoolSpec>, idx: seq<nat>): nat
    requires Indexes(specs, idx)
    ensures WeightSum(specs, idx) >= |idx|
  {
    if idx == [] then 0 else WeightSum(specs, idx[..|idx| - 1]) + WeightOf(specs[idx[|idx| - 1]])
  }

  function Share(s: PoolSpec, remainder: nat, sumWeight: nat): nat
    requires sumWeight > 0
  {
    MulNonNegative(remainder, WeightOf(s));
    (remainder * WeightOf(s)) / sumWeight
  }

  lemma MulNonNegative(a: nat, b: nat)
    ensures a * b >= 0
  {
  }

  function ShareSum(specs: seq<PoolSpec>, idx: seq<nat>, remainder: nat, sumWeight: nat): nat
    requires Indexes(specs, idx) && sumWeight > 0
  {
    if idx == [] then 0
    else ShareSum(specs, idx[..|idx| - 1], remainder, sumWeight) + Share(specs[idx[|idx| - 1]], remainder, sumWeight)
  }

  /** b is among the first n, and all those before it are strictly lighter. */
  ghost predicate EarlierLighter(specs: seq<PoolSpec>, idx: seq<nat>, n: nat, b: nat)
    requires Indexes(specs, idx) && n <= |idx| && b < |specs|
  {
    exists p :: 0 <= p < n && idx[p] == b && forall k :: 0 <= k < p ==> WeightOf(specs[idx[k]]) < WeightOf(specs[b])
  }

  /** The first heaviest of the first n elastic specs. */
  function Heaviest(specs: seq<PoolSpec>, idx: seq<nat>, n: nat): (b: nat)
    requires Indexes(specs, idx) && 0 < n <= |idx|
    ensures b in idx[..n]
    ensures forall k :: 0 <= k < n ==> WeightOf(specs[idx[k]]) <= WeightOf(specs[b])
    ensures EarlierLighter(specs, idx, n, b)
  {
    if n == 1 then idx[0] else
      var b := Heaviest(specs, idx, n - 1);
      if WeightOf(specs[idx[n - 1]]) > WeightOf(specs[b]) then idx[n - 1] else b
  }

  /** The address count of every unpinned spec, sharing `free` addresses. */
  function SizeOf(specs: seq<PoolSpec>, i: nat, free: int): int
    requires i < |specs| && FixedSum(specs, |specs|) <= free
  {
    if Pinned(specs[i]) then 0
    else if Sized(specs[i]) then specs[i].size
    else
      var idx := ElasticIdx(specs, |specs|);
      ElasticIdxExact(specs, |specs|);
      var remainder, sumWeight := free - FixedSum(specs, |specs|), WeightSum(specs, idx);
      assert |idx| > 0 by { assert i in idx; }
      var leftover := remainder - ShareSum(specs, idx, remainder, sumWeight);
      Share(specs[i], remainder, sumWeight)
      + (if leftover > 0 && i == Heaviest(specs, idx, |idx|) then leftover else 0)
  }

  /** The first of the elastic specs idx[..n] whose share is below its class floor. */
  function FirstUndershoot(specs: seq<PoolSpec>, idx: seq<nat>, n: nat, free: int): Option<nat>
    requires Indexes(specs, idx) && n <= |idx| && FixedSum(specs, |specs|) <= free
  {
    if n == 0 then None else
      match FirstUndershoot(specs, idx, n - 1, free)
      case Some(i) => Some(i)
      case None =>
        if SizeOf(specs, idx[n - 1], free) < FloorForClass(specs[idx[n - 1]].cls) then Some(idx[n - 1]) else None
  }

  lemma {:induction false} NoUndershootIff(specs: seq<PoolSpec>, idx: seq<nat>, n: nat, free: int)
    requires Indexes(specs, idx) && n <= |idx| && FixedSum(specs, |specs|) <= free
    ensures FirstUndershoot(specs, idx, n, free).None? <==>
            forall k :: 0 <= k < n ==> SizeOf(specs, idx[k], free) >= FloorForClass(specs[idx[k]].cls)
  {
    hide SizeOf;
    if n > 0 {
      NoUndershootIff(specs, idx, n - 1, free);
    }
  }

  /** All unpinned sizes, or why there are none. */
  function SizePass(specs: seq<PoolSpec>, free: int): (r: Result<seq<int>, LayoutError>)
    ensures r.Ok? ==> |r.value| == |specs|
  {
    match FirstNegative(specs, |specs|)
    case Some(i) => Err(NegativeSize(i))
    case None =>
      if FixedSum(specs, |specs|) > free then Err(FixedDoNotFit)
      else
        var idx := ElasticIdx(specs, |specs|);
        ElasticIdxExact(specs, |specs|);
        match FirstUndershoot(specs, idx, |idx|, free)
        case Some(i) => Err(ElasticTooSmall(i))
        case None => Ok(seq(|specs|, i requires 0 <= i < |specs| => SizeOf(specs, i, free)))
  }

  // ---- Pass 3: placement ----

  datatype Spot = Spot(gap: nat, size: int)

  /** Where a pool of sz addresses goes: the first gap that fits, or for an elastic
      pool that fits nowhere, all of the largest gap if that meets its floor. */
  function Choose(gaps: seq<Ivl>, s: PoolSpec, i: nat, sz: int): Result<Spot, LayoutError> {
    var fit := FirstFit(gaps, sz);
    if fit < |gaps| then Ok(Spot(fit, sz))
    else if !s.kind.PoolElastic? then Err(NoGapFits(i))
    else if gaps == [] then Err(NoSpaceLeft(i))
    else
      var gi := Largest(gaps, |gaps|);
      if Size(gaps[gi]) < FloorForClass(s.cls) then Err(TooFragmented(i))
      else Ok(Spot(gi, Size(gaps[gi])))
  }

  predicate NonEmpty(gaps: seq<Ivl>) {
    forall k :: 0 <= k < |gaps| ==> gaps[k].lo <= gaps[k].hi
  }

  datatype Placed = Placed(range: Option<Ivl>, gaps: seq<Ivl>)

  /** The range of one spec, and the gaps left after it. */
  function PlaceOne(s: PoolSpec, i: nat, sz: int, gaps: seq<Ivl>): (r: Result<Placed, LayoutError>)
    requires NonEmpty(gaps)
    ensures r.Ok? ==> NonEmpty(r.value.gaps)
  {
    if s.range.Range? then Ok(Placed(Some(Ivl(s.range.lo, s.range.hi)), gaps))
    else if s.range.BadRange? || sz <= 0 then Ok(Placed(None, gaps))
    else
      match Choose(gaps, s, i, sz)
      case Err(e) => Err(e)
      case Ok(spot) =>
        var end := gaps[spot.gap].lo + spot.size - 1;
        Ok(Placed(Some(Ivl(gaps[spot.gap].lo, end)), Shrunk(gaps, spot.gap, end)))
  }

  function Prepend(head: seq<Option<Ivl>>, r: Result<seq<Option<Ivl>>, LayoutError>)
      : Result<seq<Option<Ivl>>, LayoutError> {
    match r
    case Err(e) => Err(e)
    case Ok(tail) => Ok(head + tail)
  }

  /** The ranges of specs[i..], placed in order into the gaps. */
  function PlaceFrom(specs: seq<PoolSpec>, sizes: seq<int>, gaps: seq<Ivl>, i: nat)
      : (r: Result<seq<Option<Ivl>>, LayoutError>)
    requires i <= |specs| == |sizes| && NonEmpty(gaps)
    ensures r.Ok? ==> |r.value| == |specs| - i
    decreases |specs| - i
  {
    if i == |specs| then Ok([]) else
      match PlaceOne(specs[i], i, sizes[i], gaps)
      case Err(e) => Err(e)
      case Ok(placed) => Prepend([placed.range], PlaceFrom(specs, sizes, placed.gaps, i + 1))
  }

  // ---- The allocator ----

  function Placements(specs: seq<PoolSpec>, ranges: seq<Option<Ivl>>): seq<Placement>
    requires |ranges| == |specs|
  {
    seq(|specs|, i requires 0 <= i < |specs| => Placement(specs[i].cls, specs[i].kind, ranges[i]))
  }

  /** The allocator's result inside a pool window. */
  function LayoutIn(window: Ivl, specs: seq<PoolSpec>): (r: Result<seq<Option<Ivl>>, LayoutError>)
    requires window.lo <= window.hi
    ensures r.Ok? ==> |r.value| == |specs|
  {
    match PinScan(specs, |specs|, window)
    case Err(e) => Err(e)
    case Ok(pinned) =>
      PinnedGaps(specs, |specs|, window);
      var gaps := FreeGapsFrom(window.lo, window.hi, Sorted(pinned));
      match SizePass(specs, Total(gaps))
      case Err(e) => Err(e)
      case Ok(sizes) => PlaceFrom(specs, sizes, gaps, 0)
  }

  function Layout(c: Cidr, specs: seq<PoolSpec>): (r: Result<seq<Placement>, LayoutError>)
    ensures r.Ok? ==> |r.value| == |specs|
  {
    if c.Unparseable? then Err(InvalidCidr) else
      match PoolWindow(c)
      case None => Err(SubnetTooSmall)
      case Some(window) =>
        match LayoutIn(window, specs)
        case Err(e) => Err(e)
        case Ok(ranges) => Ok(Placements(specs, ranges))
  }

  // ---- Accepted pins leave ordered gaps ----

  predicate PairwiseDisjoint(s: seq<Ivl>) {
    forall j, k :: 0 <= j < k < |s| ==> Disjoint(s[j], s[k])
  }

  predicate Within(s: seq<Ivl>, window: Ivl) {
    forall k :: 0 <= k < |s| ==> window.lo <= s[k].lo <= s[k].hi <= window.hi
  }

  lemma {:induction false} PinScanSound(specs: seq<PoolSpec>, n: nat, window: Ivl)
    requires n <= |specs| && PinScan(specs, n, window).Ok?
    ensures var pinned := PinScan(specs, n, window).value;
            && Within(pinned, window) && PairwiseDisjoint(pinned)
            && (forall i :: 0 <= i < n ==> !specs[i].range.BadRange?)
            && (forall i :: 0 <= i < n && Pinned(specs[i]) ==> Ivl(specs[i].range.lo, specs[i].range.hi) in pinned)
    ensures forall i, j :: 0 <= i < j < n && Pinned(specs[i]) && Pinned(specs[j]) ==>
              Disjoint(Ivl(specs[i].range.lo, specs[i].range.hi), Ivl(specs[j].range.lo, specs[j].range.hi))
  {
    if n > 0 {
      PinScanSound(specs, n - 1, window);
    }
  }

  lemma {:induction false} SortedDisjointIsOrdered(s: seq<Ivl>, window: Ivl)
    requires Within(s, window) && PairwiseDisjoint(s)
    ensures Ordered(Sorted(s), window.lo, window.hi)
  {
    SortedIsOrdered(s);
    var t := Sorted(s);
    forall k | 0 <= k < |t| ensures window.lo <= t[k].lo <= t[k].hi <= window.hi {
      assert t[k] in multiset(t);
      assert t[k] in s;
    }
    SortedKeepsDisjoint(s);
  }

  lemma PinnedGaps(specs: seq<PoolSpec>, n: nat, window: Ivl)
    requires n <= |specs| && window.lo <= window.hi && PinScan(specs, n, window).Ok?
    ensures var pinned := PinScan(specs, n, window).value;
            var gaps := FreeGapsFrom(window.lo, window.hi, Sorted(pinned));
            && Ordered(gaps, window.lo, window.hi) && NonEmpty(gaps)
            && (forall g, p :: g in gaps && p in pinned ==> Disjoint(g, p))
            && Total(gaps) + Total(Sorted(pinned)) == Size(window)
  {
    var pinned := PinScan(specs, n, window).value;
    PinScanSound(specs, n, window);
    SortedDisjointIsOrdered(pinned, window);
    SortedIsOrdered(pinned);
    FreeGapsOrdered(window.lo, window.hi, Sorted(pinned));
    FreeGapsTotal(window.lo, window.hi, Sorted(pinned));
    forall g, p | g in FreeGapsFrom(window.lo, window.hi, Sorted(pinned)) && p in pinned ensures Disjoint(g, p) {
      assert p in multiset(pinned);
      assert p in multiset(Sorted(pinned));
      assert p in Sorted(pinned);
    }
  }

  lemma {:induction false} InsertedMembers(s: seq<Ivl>, x: Ivl)
    ensures forall y :: y in Inserted(s, x) ==> y in s || y == x
  {
    if s == [] || s[|s| - 1].lo <= x.lo {
    } else {
      InsertedMembers(s[..|s| - 1], x);
    }
  }

  lemma {:induction false} InsertedKeepsDisjoint(s: seq<Ivl>, x: Ivl)
    requires PairwiseDisjoint(s) && forall k :: 0 <= k < |s| ==> Disjoint(s[k], x)
    ensures PairwiseDisjoint(Inserted(s, x))
  {
    if s == [] || s[|s| - 1].lo <= x.lo {
    } else {
      var init, last := s[..|s| - 1], s[|s| - 1];
      InsertedKeepsDisjoint(init, x);
      InsertedMembers(init, x);
      forall k | 0 <= k < |s| ensures Disjoint(Inserted(init, x)[k], last) {
        assert Inserted(init, x)[k] in Inserted(init, x);
      }
    }
  }

  lemma {:induction false} SortedKeepsDisjoint(s: seq<Ivl>)
    requires PairwiseDisjoint(s)
    ensures PairwiseDisjoint(Sorted(s))
  {
    if s != [] {
      SortedKeepsDisjoint(s[..|s| - 1]);
      var t, x := Sorted(s[..|s| - 1]), s[|s| - 1];
      SortedIsOrdered(s[..|s| - 1]);
      forall k | 0 <= k < |t| ensures Disjoint(t[k], x) {
        assert t[k] in multiset(t);
        assert t[k] in s[..|s| - 1];
      }
      InsertedKeepsDisjoint(t, x);
    }
  }
}
