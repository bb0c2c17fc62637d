/** FitCIDR widens the mask until the plan fits. Fitting is closed under doubling the
    subnet, so the first fit is the smallest fit and everything wider fits too. */
module FitCidr {
  import opened ClassNames
  import opened Common
  import opened Addresses
  import opened PoolLayout
  import opened LayoutSafety
  import opened LayoutNoPins
  import opened LayoutMethods

  const FIT_CIDR_FLOOR := 8

  function Supernet(ip: Addr, m: PrefixLen): Cidr { V4(Network(ip, m), m) }

  /** The longest mask m' in 8..m whose supernet fits. */
  function FirstFitting(ip: Addr, m: int, specs: seq<PoolSpec>): Option<PrefixLen>
    requires m <= 32
    decreases m
  {
    if m < FIT_CIDR_FLOOR then None
    else if Layout(Supernet(ip, m), specs).Ok? then Some(m)
    else FirstFitting(ip, m - 1, specs)
  }

  function Fitted(c: Cidr, specs: seq<PoolSpec>): Cidr {
    if Layout(c, specs).Ok? || !c.V4? then c else
      match FirstFitting(c.ip, c.len - 1, specs)
      case Some(m) => Supernet(c.ip, m)
      case None => c
  }

  method FitCIDR(c: Cidr, specs: seq<PoolSpec>) returns (r: Cidr)
    ensures r == Fitted(c, specs)
  {
    hide Layout, Network;
    var asTyped := LayoutPools(c, specs);
    if asTyped.Ok? || !c.V4? {
      return c;
    }
    var m := c.len - 1;
    while m >= FIT_CIDR_FLOOR
      invariant FIT_CIDR_FLOOR - 1 <= m <= c.len - 1 || m == c.len - 1
      invariant FirstFitting(c.ip, c.len - 1, specs) == FirstFitting(c.ip, m, specs)
    {
      var cand := V4(Network(c.ip, m), m);
      var fit := LayoutPools(cand, specs);
      if fit.Ok? {
        return cand;
      }
      m := m - 1;
    }
    r := c;
  }

  /** Fitting again changes nothing, whatever the plan. */
  lemma FitIsIdempotent(c: Cidr, specs: seq<PoolSpec>)
    ensures Fitted(Fitted(c, specs), specs) == Fitted(c, specs)
  {
    if c.V4? && Layout(c, specs).Err? {
      FirstFittingFits(c.ip, c.len - 1, specs);
    }
  }

  lemma {:induction false} FirstFittingFits(ip: Addr, m: int, specs: seq<PoolSpec>)
    requires m <= 32
    ensures var f := FirstFitting(ip, m, specs);
            && (f.Some? ==> FIT_CIDR_FLOOR <= f.value <= m && Layout(Supernet(ip, f.value), specs).Ok?)
            && (forall k: PrefixLen :: (if f.Some? then f.value + 1 else FIT_CIDR_FLOOR) <= k <= m ==>
                Layout(Supernet(ip, k), specs).Err?)
    decreases m
  {
    hide Layout;
    if m >= FIT_CIDR_FLOOR && Layout(Supernet(ip, m), specs).Err? {
      FirstFittingFits(ip, m - 1, specs);
    }
  }

  /** What FitCIDR returns, for every plan: the typed block if it fits or is no IPv4 block; else
      the longest shorter mask down to /8 that fits, on the network base of that mask; else
      the typed block. */
  lemma FitExactly(c: Cidr, specs: seq<PoolSpec>)
    ensures Layout(c, specs).Ok? || !c.V4? ==> Fitted(c, specs) == c
    ensures c.V4? && Layout(c, specs).Err? ==>
              && (forall m :: 8 <= m < c.len && IsLongestFit(c, specs, m) ==>
                    Fitted(c, specs) == V4(Network(c.ip, m), m))
              && ((forall m :: 8 <= m < c.len ==> !FitsAt(c.ip, specs, m)) ==> Fitted(c, specs) == c)
  {
    hide Layout, Network;
    if c.V4? && Layout(c, specs).Err? {
      var f := FirstFitting(c.ip, c.len - 1, specs);
      FirstFittingFits(c.ip, c.len - 1, specs);
      assert f.Some? ==> FitsAt(c.ip, specs, f.value);
      assert forall k: PrefixLen :: Layout(Supernet(c.ip, k), specs).Ok? <==> FitsAt(c.ip, specs, k);
      forall m | 8 <= m < c.len && IsLongestFit(c, specs, m) ensures f == Some(m) {
        assert FitsAt(c.ip, specs, m) && Layout(Supernet(c.ip, m), specs).Ok?;
      }
    }
  }

  predicate FitsAt(ip: Addr, specs: seq<PoolSpec>, m: PrefixLen) { Layout(V4(Network(ip, m), m), specs).Ok? }

  predicate IsLongestFit(c: Cidr, specs: seq<PoolSpec>, m: PrefixLen)
    requires c.V4?
  {
    FitsAt(c.ip, specs, m) && forall k :: m < k < c.len ==> !FitsAt(c.ip, specs, k)
  }

  // ---- Closure under widening ----

  lemma {:induction false} FixedSumNonNegative(specs: seq<PoolSpec>, n: nat)
    requires n <= |specs| && forall i :: 0 <= i < |specs| && Sized(specs[i]) ==> specs[i].size >= 0
    ensures FixedSum(specs, n) >= 0
  {
    if n > 0 { FixedSumNonNegative(specs, n - 1); }
  }

  /** A share grows with the remainder. */
  lemma ShareMonotone(s: PoolSpec, r: nat, r': nat, w: nat)
    requires w > 0 && r <= r'
    ensures Share(s, r, w) <= Share(s, r', w)
  {
    ShareIsFloor(s, r, w);
    ShareIsFloor(s, r', w);
    MulMonotone(r, r', WeightOf(s));
    var a, b := Share(s, r, w), Share(s, r', w);
    if a > b { MulMonotone(b + 1, a, w); }
  }

  /** If a lighter pool's share of r reaches 5, a heavier pool's share of 2r reaches 10. */
  lemma HeavierGetsDouble(light: PoolSpec, heavy: PoolSpec, r: nat, r': nat, w: nat)
    requires w > 0 && 2 * r <= r' && WeightOf(light) <= WeightOf(heavy)
    requires Share(light, r, w) >= LAYOUT_MIN_POOL
    ensures Share(heavy, r', w) >= LAYOUT_CATCH_ALL
  {
    ShareIsFloor(light, r, w);
    ShareIsFloor(heavy, r', w);
    hide Share;
    TwiceTheShare(Share(light, r, w), Share(heavy, r', w), WeightOf(light), WeightOf(heavy), r, r', w);
  }

  lemma TwiceTheShare(sl: int, sh: int, wl: int, wh: int, r: int, r': int, w: int)
    requires 0 < w && 0 < wl <= wh && 0 <= r && 2 * r <= r' && 5 <= sl
    requires sl * w <= r * wl && r' * wh < (sh + 1) * w
    ensures sh >= 10
  {
    MulMonotone(5, sl, w);
    assert 5 * w <= r * wl;
    assert r * wl <= r * wh by { MulMonotone(wl, wh, r); }
    assert 2 * (r * wh) == (2 * r) * wh;
    assert (2 * r) * wh <= r' * wh by { MulMonotone(2 * r, r', wh); }
    if sh < 10 {
      MulMonotone(sh + 1, 10, w);
    }
  }

  /** The only elastic pool takes the whole remainder. */
  lemma LoneElastic(specs: seq<PoolSpec>, free: int, i: nat)
    requires FixedSum(specs, |specs|) <= free && i < |specs| && Elastic(specs[i])
    requires ElasticIdx(specs, |specs|) == [i]
    ensures SizeOf(specs, i, free) == free - FixedSum(specs, |specs|)
  {
    var idx := [i];
    var rem, w := free - FixedSum(specs, |specs|), WeightSum(specs, idx);
    assert idx[..0] == [];
    assert ShareSum(specs, idx, rem, w) == Share(specs[i], rem, w);
    assert Heaviest(specs, idx, 1) == i;
    LeftoverNonNegative(specs, rem);
  }

  lemma ElasticStillFits(specs: seq<PoolSpec>, n: int, m: int, i: nat)
    requires Fits(specs, n) && 2 * n <= m && 0 <= FixedSum(specs, |specs|) && i < |specs| && Elastic(specs[i])
    ensures FixedSum(specs, |specs|) <= m && SizeOf(specs, i, m) >= FloorForClass(specs[i].cls)
  {
    SomeElastic(specs, i);
    assert SizeOf(specs, i, n) >= FloorForClass(specs[i].cls);
    hide ElasticIdx, FixedSum, WeightSum, SizeOf, HeaviestElastic, Fits, FloorForClass;
    if i != HeaviestElastic(specs) {
      OtherStillFits(specs, n, m, i);
    } else if |ElasticIdx(specs, |specs|)| == 1 {
      OnlyElastic(specs, i);
      LoneElastic(specs, n, i);
      LoneElastic(specs, m, i);
    } else {
      HeaviestStillFits(specs, n, m, i);
      FloorAtMostTen(specs[i].cls);
    }
  }

  lemma FloorAtMostTen(cls: string)
    ensures LAYOUT_MIN_POOL <= FloorForClass(cls) <= LAYOUT_CATCH_ALL
  {
  }

  lemma OtherStillFits(specs: seq<PoolSpec>, n: int, m: int, i: nat)
    requires FixedSum(specs, |specs|) <= n <= m && i < |specs| && Elastic(specs[i])
    requires Indexes(specs, ElasticIdx(specs, |specs|)) && ElasticIdx(specs, |specs|) != []
    requires i != HeaviestElastic(specs)
    ensures SizeOf(specs, i, m) >= SizeOf(specs, i, n)
  {
    hide ElasticIdx, FixedSum, WeightSum, SizeOf, HeaviestElastic;
    ElasticSize(specs, n, i);
    ElasticSize(specs, m, i);
    ShareMonotone(specs[i], n - FixedSum(specs, |specs|), m - FixedSum(specs, |specs|),
                  WeightSum(specs, ElasticIdx(specs, |specs|)));
  }

  lemma OnlyElastic(specs: seq<PoolSpec>, i: nat)
    requires i < |specs| && Elastic(specs[i]) && |ElasticIdx(specs, |specs|)| == 1
    ensures ElasticIdx(specs, |specs|) == [i]
  {
    ElasticIdxExact(specs, |specs|);
    assert i in ElasticIdx(specs, |specs|);
  }

  lemma HeaviestStillFits(specs: seq<PoolSpec>, n: int, m: int, i: nat)
    requires Fits(specs, n) && 2 * n <= m && 0 <= FixedSum(specs, |specs|) && i < |specs| && Elastic(specs[i])
    requires Indexes(specs, ElasticIdx(specs, |specs|)) && |ElasticIdx(specs, |specs|)| > 1
    requires i == HeaviestElastic(specs)
    ensures FixedSum(specs, |specs|) <= m && SizeOf(specs, i, m) >= LAYOUT_CATCH_ALL
  {
    var idx := ElasticIdx(specs, |specs|);
    var j := OtherElastic(specs, i);
    assert SizeOf(specs, j, n) >= LAYOUT_MIN_POOL;
    hide ElasticIdx, FixedSum, WeightSum, SizeOf, HeaviestElastic, Fits;
    ElasticSize(specs, n, j);
    ElasticSize(specs, m, i);
    HeavierGetsDouble(specs[j], specs[i], n - FixedSum(specs, |specs|), m - FixedSum(specs, |specs|),
                      WeightSum(specs, idx));
  }

  /** A second elastic pool, no heavier than the heaviest. */
  lemma OtherElastic(specs: seq<PoolSpec>, i: nat) returns (j: nat)
    requires Indexes(specs, ElasticIdx(specs, |specs|)) && |ElasticIdx(specs, |specs|)| > 1
    requires i == HeaviestElastic(specs)
    ensures j < |specs| && j != i && Elastic(specs[j]) && i < |specs| && WeightOf(specs[j]) <= WeightOf(specs[i])
  {
    var idx := ElasticIdx(specs, |specs|);
    ElasticIdxExact(specs, |specs|);
    var k := if idx[0] == i then 1 else 0;
    assert idx[0] < idx[1];
    j := idx[k];
  }

  /** A plan that fits n addresses fits any 2n or more. */
  lemma FitsWhenDoubled(specs: seq<PoolSpec>, n: nat, m: int)
    requires Fits(specs, n) && 2 * n <= m
    ensures Fits(specs, m)
  {
    FixedSumNonNegative(specs, |specs|);
    forall i | 0 <= i < |specs| && Elastic(specs[i]) ensures SizeOf(specs, i, m) >= FloorForClass(specs[i].cls) {
      ElasticStillFits(specs, n, m, i);
    }
  }

  /** Three equal elastic pools, the first of them a catch-all. */
  const UNSTEADY: seq<PoolSpec> := [
    PoolSpec(OTHERS, PoolElastic, 0, 1, NoRange),
    PoolSpec("A", PoolElastic, 0, 1, NoRange),
    PoolSpec("A", PoolElastic, 0, 1, NoRange)
  ]

  /** Growth by a single address can break a fit: the catch-all first in line for the
      rounding leftover gets 10 of 26 addresses, and 9 of 27. */
  lemma GrowthByOneCanBreakFit()
    ensures NoPins(UNSTEADY) && Fits(UNSTEADY, 26) && !Fits(UNSTEADY, 27)
  {
    var a, b := UNSTEADY[0], UNSTEADY[1];
    ThreeEqualElastics(UNSTEADY, 26);
    ThreeEqualElastics(UNSTEADY, 27);
    assert Share(a, 26, 3) == 8 && Share(b, 26, 3) == 8 && Share(a, 27, 3) == 9 && Share(b, 27, 3) == 9;
    hide SizeOf, Share;
    assert IsCatchAll(OTHERS) && !IsCatchAll("A");
    assert !Sized(a) && !Sized(b) && Elastic(a) && Elastic(b);
    assert SizeOf(UNSTEADY, 0, 26) == 10 && SizeOf(UNSTEADY, 1, 26) == 8 && SizeOf(UNSTEADY, 2, 26) == 8;
    assert SizeOf(UNSTEADY, 0, 27) == 9;
  }

  /** Sizes of three elastic pools of weight 1: the first takes the rounding leftover. */
  lemma ThreeEqualElastics(specs: seq<PoolSpec>, n: nat)
    requires |specs| == 3 && forall i :: 0 <= i < 3 ==> Elastic(specs[i]) && WeightOf(specs[i]) == 1
    ensures FixedSum(specs, 3) == 0
    ensures var total := Share(specs[0], n, 3) + Share(specs[1], n, 3) + Share(specs[2], n, 3);
            SizeOf(specs, 0, n) == Share(specs[0], n, 3) + (if n > total then n - total else 0)
    ensures SizeOf(specs, 1, n) == Share(specs[1], n, 3) && SizeOf(specs, 2, n) == Share(specs[2], n, 3)
  {
    ThreeElastics(specs);
    ThreeWeights(specs);
    ThreeShares(specs, n);
    hide Share, ShareSum, WeightSum, Heaviest, ElasticIdx, FixedSum, WeightOf;
  }

  lemma ThreeElastics(specs: seq<PoolSpec>)
    requires |specs| == 3 && forall i :: 0 <= i < 3 ==> Elastic(specs[i])
    ensures FixedSum(specs, 3) == 0 && ElasticIdx(specs, 3) == [0, 1, 2]
  {
    assert FixedSum(specs, 0) == 0 && FixedSum(specs, 1) == 0 && FixedSum(specs, 2) == 0;
    assert ElasticIdx(specs, 0) == [] && ElasticIdx(specs, 1) == [0] && ElasticIdx(specs, 2) == [0, 1];
  }

  lemma ThreeWeights(specs: seq<PoolSpec>)
    requires |specs| == 3 && forall i :: 0 <= i < 3 ==> WeightOf(specs[i]) == 1
    ensures WeightSum(specs, [0, 1, 2]) == 3 && Heaviest(specs, [0, 1, 2], 3) == 0
  {
    hide EarlierLighter;
    var idx := [0, 1, 2];
    assert idx[..2] == [0, 1] && [0, 1][..1] == [0] && [0][..0] == [];
    assert WeightSum(specs, [0]) == 1 && WeightSum(specs, [0, 1]) == 2;
    assert Heaviest(specs, idx, 1) == 0 && Heaviest(specs, idx, 2) == 0;
  }

  lemma ThreeShares(specs: seq<PoolSpec>, r: nat)
    requires |specs| == 3
    ensures ShareSum(specs, [0, 1, 2], r, 3) == Share(specs[0], r, 3) + Share(specs[1], r, 3) + Share(specs[2], r, 3)
  {
    hide Share;
    assert [0, 1, 2][..2] == [0, 1] && [0, 1][..1] == [0] && [0][..0] == [];
    assert ShareSum(specs, [0], r, 3) == Share(specs[0], r, 3);
    assert ShareSum(specs, [0, 1], r, 3) == Share(specs[0], r, 3) + Share(specs[1], r, 3);
  }

  // ---- What that means for masks ----

  /** Away from the end of the address space, whether a plan without pins fits depends
      on the mask alone. */
  lemma FitDependsOnMask(c: Cidr, specs: seq<PoolSpec>)
    requires c.V4? && !WrapsAround(c) && NoPins(specs)
    ensures Layout(c, specs).Ok? <==> c.len <= 30 && Fits(specs, BlockSize(c.len) - 3)
  {
    hide Fits, BlockSize, LayoutIn, Network, Broadcast;
    PoolWindowExact(c);
    if PoolWindow(c).Some? {
      NoPinLayout(specs, PoolWindow(c).value);
    }
  }

  lemma BlockSizeDoubles(m: PrefixLen, n: PrefixLen)
    requires m < n
    ensures BlockSize(m) >= 2 * BlockSize(n)
  {
    Pow2Monotone(32 - n + 1, 32 - m);
  }

  /** Widening the mask never breaks a fit. */
  lemma WiderFits(c: Cidr, d: Cidr, specs: seq<PoolSpec>)
    requires c.V4? && d.V4? && d.len <= c.len && !WrapsAround(c) && !WrapsAround(d) && NoPins(specs)
    requires Layout(c, specs).Ok?
    ensures Layout(d, specs).Ok?
  {
    hide Layout, Fits, BlockSize;
    FitDependsOnMask(c, specs);
    FitDependsOnMask(d, specs);
    if d.len < c.len {
      LargeBlock(c.len);
      BlockSizeDoubles(d.len, c.len);
      FitsWhenDoubled(specs, BlockSize(c.len) - 3, BlockSize(d.len) - 3);
    }
  }

  lemma SupernetDoesNotWrap(ip: Addr, m: PrefixLen)
    requires m <= 30
    ensures !WrapsAround(Supernet(ip, m))
  {
    WrapsAroundExactly(Supernet(ip, m));
  }

  /** FitCIDR's result is the threshold: its own mask and every wider one fit, and every
      mask between it and the typed one does not. */
  lemma FitIsSmallest(c: Cidr, specs: seq<PoolSpec>)
    requires c.V4? && !WrapsAround(c) && NoPins(specs) && Layout(Fitted(c, specs), specs).Ok?
    ensures var r := Fitted(c, specs);
            && r.V4? && (r == c || (8 <= r.len < c.len && r == Supernet(c.ip, r.len)))
            && (forall m: PrefixLen :: r.len < m < c.len ==> Layout(Supernet(c.ip, m), specs).Err?)
            && (forall m: PrefixLen :: m <= r.len && m <= 30 ==> Layout(Supernet(c.ip, m), specs).Ok?)
  {
    var r := Fitted(c, specs);
    FirstFittingFits(c.ip, c.len - 1, specs);
    assert r.V4? && (r == c || (8 <= r.len < c.len && r == Supernet(c.ip, r.len)));
    hide Layout;
    if r != c {
      FittingMaskIsShort(r, c, specs);
    }
    forall m: PrefixLen | m <= r.len && m <= 30 ensures Layout(Supernet(c.ip, m), specs).Ok? {
      SupernetDoesNotWrap(c.ip, m);
      WiderFits(r, Supernet(c.ip, m), specs);
    }
  }

  /** A fitting supernet of a block that does not wrap does not wrap either. */
  lemma FittingMaskIsShort(r: Cidr, c: Cidr, specs: seq<PoolSpec>)
    requires c.V4? && !WrapsAround(c) && r.V4? && r.len < c.len && r == Supernet(c.ip, r.len)
    ensures !WrapsAround(r)
  {
    WrapsAroundExactly(r);
    WrapsAroundExactly(c);
    if r.len == 31 {
      SmallBlock(31);
      assert Network(c.ip, 31) <= c.ip;
    }
  }

  /** So one test at /8 decides whether FitCIDR will find a fit at all. */
  lemma FitFoundIffSlash8Fits(c: Cidr, specs: seq<PoolSpec>)
    requires c.V4? && c.len >= 8 && !WrapsAround(c) && NoPins(specs)
    ensures Layout(Fitted(c, specs), specs).Ok? <==> Layout(Supernet(c.ip, FIT_CIDR_FLOOR), specs).Ok?
  {
    hide Layout;
    SupernetDoesNotWrap(c.ip, FIT_CIDR_FLOOR);
    FirstFittingFits(c.ip, c.len - 1, specs);
    if Layout(Fitted(c, specs), specs).Ok? {
      FitIsSmallest(c, specs);
    } else if c.len == FIT_CIDR_FLOOR {
      if Layout(Supernet(c.ip, FIT_CIDR_FLOOR), specs).Ok? {
        WiderFits(Supernet(c.ip, FIT_CIDR_FLOOR), c, specs);
      }
    }
  }

  /** The three wrapping blocks break both laws: there a plan "fits" that the wider /30
      rejects, and its pools start outside the subnet. */
  lemma WrappingBlocksBreakClosure(c: Cidr)
    requires c.V4? && WrapsAround(c)
    ensures exists specs: seq<PoolSpec> ::
              NoPins(specs) && Layout(c, specs).Ok? && Layout(Supernet(c.ip, 30), specs).Err?
  {
    var specs := [PoolSpec("", PoolFixed, 2, 1, NoRange)];
    SupernetDoesNotWrap(c.ip, 30);
    FitDependsOnMask(Supernet(c.ip, 30), specs);
    assert BlockSize(30) == 4 by { PowSmall(); }
    TwoAddresses(specs, 1);
    WrappedWindowIsWide(c);
    TwoAddresses(specs, Size(PoolWindow(c).value));
    hide Fits, LayoutIn, BlockSize, PoolWindow;
    NoPinLayout(specs, PoolWindow(c).value);
  }

  lemma WrappedWindowIsWide(c: Cidr)
    requires c.V4? && WrapsAround(c)
    ensures PoolWindow(c).Some? && PoolWindow(c).value.lo < Network(c.ip, c.len) && Size(PoolWindow(c).value) >= 3
  {
    WrapsAroundExactly(c);
    SmallBlock(c.len);
  }

  lemma TwoAddresses(specs: seq<PoolSpec>, n: int)
    requires specs == [PoolSpec("", PoolFixed, 2, 1, NoRange)]
    ensures Fits(specs, n) <==> n >= 2
  {
    assert FixedSum(specs, 0) == 0 && FixedSum(specs, 1) == 2;
  }

  ghost predicate EscapesSubnet(c: Cidr, specs: seq<PoolSpec>, i: nat)
    requires c.V4?
  {
    && Layout(c, specs).Ok? && i < |specs|
    && Layout(c, specs).value[i].range.Some?
    && var r := Layout(c, specs).value[i].range.value;
       !(Network(c.ip, c.len) + 2 <= r.lo && r.hi <= Broadcast(c.ip, c.len) - 1)
  }

  /** An accepted layout can leave [network+2, broadcast-1] exactly for those blocks. */
  lemma ContainmentFailsExactlyOnWrap(c: Cidr)
    requires c.V4?
    ensures WrapsAround(c) <==> exists specs: seq<PoolSpec>, i: nat :: EscapesSubnet(c, specs, i)
  {
    if WrapsAround(c) {
      var specs := [PoolSpec("", PoolFixed, 2, 1, NoRange)];
      WrappedWindowIsWide(c);
      var window := PoolWindow(c).value;
      TwoAddresses(specs, Size(window));
      NoPinLayout(specs, window);
      hide PoolWindow, Network, Broadcast, LayoutIn, SizePass, Fits;
      assert SumTo(SizePass(specs, Size(window)).value, 0) == 0;
      assert EscapesSubnet(c, specs, 0);
    } else {
      forall specs: seq<PoolSpec>, i: nat ensures !EscapesSubnet(c, specs, i) {
        if EscapesSubnet(c, specs, i) { LayoutInsideSubnet(c, specs, i); }
      }
    }
  }
}
