/** Whatever the plan and however the pins fragment the subnet: an accepted layout
    is pairwise disjoint, stays in the window, and gives every pool what it asked. */
module LayoutSafety {
  import opened Common
  import opened Addresses
  import opened Gaps
  import opened PoolLayout

  /** r lies inside one of the gaps. */
  predicate InGap(r: Ivl, gaps: seq<Ivl>) {
    exists m :: 0 <= m < |gaps| && gaps[m].lo <= r.lo && r.hi <= gaps[m].hi
  }

  function PinOf(s: PoolSpec): Ivl
    requires s.range.Range?
  {
    Ivl(s.range.lo, s.range.hi)
  }

  /** What a spec with computed size sz is owed. */
  predicate Honoured(s: PoolSpec, sz: int, r: Option<Ivl>) {
    if Pinned(s) then s.range.Range? && r == Some(PinOf(s))
    else if s.kind.PoolElastic? then r.Some? && FloorForClass(s.cls) <= Size(r.value) <= sz
    else if sz > 0 then r.Some? && Size(r.value) == sz
    else r.None?
  }

  predicate PinsClear(specs: seq<PoolSpec>, gaps: seq<Ivl>) {
    forall k :: 0 <= k < |specs| && Pinned(specs[k]) ==>
      specs[k].range.Range? && forall m :: 0 <= m < |gaps| ==> Disjoint(gaps[m], PinOf(specs[k]))
  }

  predicate RangesDisjoint(rs: seq<Option<Ivl>>) {
    forall j, k :: 0 <= j < k < |rs| && rs[j].Some? && rs[k].Some? ==> Disjoint(rs[j].value, rs[k].value)
  }

  lemma SpotSound(s: PoolSpec, i: nat, sz: int, gaps: seq<Ivl>)
    requires NonEmpty(gaps) && sz > 0 && Choose(gaps, s, i, sz).Ok?
    requires s.kind.PoolElastic? ==> sz >= FloorForClass(s.cls)
    ensures var spot := Choose(gaps, s, i, sz).value;
            && spot.gap < |gaps| && 0 < spot.size <= Size(gaps[spot.gap])
            && if s.kind.PoolElastic? then FloorForClass(s.cls) <= spot.size <= sz else spot.size == sz
  {
  }

  lemma ShrunkInGap(gaps: seq<Ivl>, g: nat, end: Addr, lo: int, hi: int)
    requires Ordered(gaps, lo, hi) && g < |gaps| && gaps[g].lo <= end <= gaps[g].hi
    ensures forall r :: InGap(r, Shrunk(gaps, g, end)) ==> InGap(r, gaps)
  {
    ShrunkStaysOrdered(gaps, g, end, lo, hi);
    var after := Shrunk(gaps, g, end);
    hide Shrunk, Ordered;
    forall r | InGap(r, after) ensures InGap(r, gaps) {
      var k :| 0 <= k < |after| && after[k].lo <= r.lo && r.hi <= after[k].hi;
      var m :| 0 <= m < |gaps| && gaps[m].lo <= after[k].lo && after[k].hi <= gaps[m].hi;
    }
  }

  /** What taking [gaps[m].lo, end] leaves and covers. */
  lemma TakeSound(gaps: seq<Ivl>, m: nat, end: Addr, lo: int, hi: int)
    requires Ordered(gaps, lo, hi) && m < |gaps| && gaps[m].lo <= end <= gaps[m].hi
    ensures var after := Shrunk(gaps, m, end);
            && Ordered(after, lo, hi) && NonEmpty(after)
            && InGap(Ivl(gaps[m].lo, end), gaps)
            && (forall k :: 0 <= k < |after| ==> Disjoint(after[k], Ivl(gaps[m].lo, end)))
            && (forall r :: InGap(r, after) ==> InGap(r, gaps))
  {
    ShrunkStaysOrdered(gaps, m, end, lo, hi);
    ShrunkInGap(gaps, m, end, lo, hi);
    hide Shrunk, InGap, NonEmpty;
    OrderedIsNonEmpty(Shrunk(gaps, m, end), lo, hi);
    hide Ordered;
    CoversItself(gaps, m, Ivl(gaps[m].lo, end));
  }

  /** A placement that honours its spec, takes only free space, and leaves the rest. */
  ghost predicate SoundPlacement(s: PoolSpec, sz: int, gaps: seq<Ivl>, lo: int, hi: int, p: Placed) {
    && Honoured(s, sz, p.range)
    && Ordered(p.gaps, lo, hi) && NonEmpty(p.gaps)
    && (!Pinned(s) && p.range.Some? ==> InGap(p.range.value, gaps))
    && (!Pinned(s) && p.range.Some? ==> forall m :: 0 <= m < |p.gaps| ==> Disjoint(p.gaps[m], p.range.value))
    && (forall r :: InGap(r, p.gaps) ==> InGap(r, gaps))
  }

  lemma PlaceOneSound(s: PoolSpec, i: nat, sz: int, gaps: seq<Ivl>, lo: int, hi: int)
    requires Ordered(gaps, lo, hi) && NonEmpty(gaps) && PlaceOne(s, i, sz, gaps).Ok?
    requires Pinned(s) ==> s.range.Range?
    requires Elastic(s) ==> sz >= FloorForClass(s.cls)
    ensures SoundPlacement(s, sz, gaps, lo, hi, PlaceOne(s, i, sz, gaps).value)
  {
    hide Choose, PlaceOne, InGap, Shrunk, Ordered, NonEmpty, SoundPlacement, FloorForClass, Size;
    if !Pinned(s) && sz > 0 {
      PlaceChosen(s, i, sz, gaps);
      SpotSound(s, i, sz, gaps);
      SpotPlacementSound(s, sz, gaps, lo, hi, Choose(gaps, s, i, sz).value);
    } else {
      PlaceNothing(s, i, sz, gaps);
      NoPlacementSound(s, sz, gaps, lo, hi);
    }
  }

  lemma NoPlacementSound(s: PoolSpec, sz: int, gaps: seq<Ivl>, lo: int, hi: int)
    requires Ordered(gaps, lo, hi) && NonEmpty(gaps) && (Pinned(s) ==> s.range.Range?) && (Pinned(s) || sz <= 0)
    requires Elastic(s) ==> sz >= FloorForClass(s.cls)
    ensures SoundPlacement(s, sz, gaps, lo, hi, Placed(if Pinned(s) then Some(PinOf(s)) else None, gaps))
  {
    hide InGap, Ordered, NonEmpty;
  }

  lemma SpotPlacementSound(s: PoolSpec, sz: int, gaps: seq<Ivl>, lo: int, hi: int, spot: Spot)
    requires Ordered(gaps, lo, hi) && !Pinned(s) && sz > 0
    requires spot.gap < |gaps| && 0 < spot.size <= Size(gaps[spot.gap])
    requires if s.kind.PoolElastic? then FloorForClass(s.cls) <= spot.size <= sz else spot.size == sz
    ensures var end := gaps[spot.gap].lo + spot.size - 1;
            SoundPlacement(s, sz, gaps, lo, hi, Placed(Some(Ivl(gaps[spot.gap].lo, end)), Shrunk(gaps, spot.gap, end)))
  {
    hide InGap, Shrunk, Ordered, NonEmpty;
    TakeSound(gaps, spot.gap, gaps[spot.gap].lo + spot.size - 1, lo, hi);
  }

  lemma PlaceChosen(s: PoolSpec, i: nat, sz: int, gaps: seq<Ivl>)
    requires NonEmpty(gaps) && !Pinned(s) && sz > 0 && PlaceOne(s, i, sz, gaps).Ok?
    ensures Choose(gaps, s, i, sz).Ok?
    ensures var spot := Choose(gaps, s, i, sz).value;
            && spot.gap < |gaps| && 0 < spot.size <= Size(gaps[spot.gap])
            && var end := gaps[spot.gap].lo + spot.size - 1;
               PlaceOne(s, i, sz, gaps) == Ok(Placed(Some(Ivl(gaps[spot.gap].lo, end)), Shrunk(gaps, spot.gap, end)))
  {
    hide Shrunk;
  }

  lemma PlaceNothing(s: PoolSpec, i: nat, sz: int, gaps: seq<Ivl>)
    requires NonEmpty(gaps) && (Pinned(s) ==> s.range.Range?) && (Pinned(s) || sz <= 0)
    ensures PlaceOne(s, i, sz, gaps) == Ok(Placed(if Pinned(s) then Some(PinOf(s)) else None, gaps))
  {
  }

  lemma OrderedIsNonEmpty(gaps: seq<Ivl>, lo: int, hi: int)
    requires Ordered(gaps, lo, hi)
    ensures NonEmpty(gaps)
  {
  }

  lemma CoversItself(gaps: seq<Ivl>, m: nat, r: Ivl)
    requires m < |gaps| && gaps[m].lo <= r.lo && r.hi <= gaps[m].hi
    ensures InGap(r, gaps)
  {
  }

  lemma ClearOfSmallerGaps(specs: seq<PoolSpec>, gaps: seq<Ivl>, after: seq<Ivl>)
    requires PinsClear(specs, gaps) && NonEmpty(after)
    requires forall r :: InGap(r, after) ==> InGap(r, gaps)
    ensures PinsClear(specs, after)
  {
    forall k, m | 0 <= k < |specs| && Pinned(specs[k]) && 0 <= m < |after| ensures Disjoint(after[m], PinOf(specs[k])) {
      assert InGap(after[m], after);
      ClearOfPin(specs, gaps, after[m], k);
    }
  }

  lemma ClearOfPin(specs: seq<PoolSpec>, gaps: seq<Ivl>, r: Ivl, k: nat)
    requires PinsClear(specs, gaps) && InGap(r, gaps) && k < |specs| && Pinned(specs[k])
    ensures Disjoint(r, PinOf(specs[k]))
  {
    var m :| 0 <= m < |gaps| && gaps[m].lo <= r.lo && r.hi <= gaps[m].hi;
    assert Disjoint(gaps[m], PinOf(specs[k]));
  }

  predicate PinsDisjoint(specs: seq<PoolSpec>) {
    forall j, k :: 0 <= j < k < |specs| && specs[j].range.Range? && specs[k].range.Range? ==>
      Disjoint(PinOf(specs[j]), PinOf(specs[k]))
  }

  /** What placing specs[i..] into the gaps establishes. */
  ghost predicate PlacedSoundly(specs: seq<PoolSpec>, sizes: seq<int>, gaps: seq<Ivl>, i: nat, rs: seq<Option<Ivl>>)
    requires |sizes| == |specs|
  {
    && i + |rs| == |specs|
    && (forall k :: 0 <= k < |rs| ==> Honoured(specs[i + k], sizes[i + k], rs[k]))
    && (forall k :: 0 <= k < |rs| && !Pinned(specs[i + k]) && rs[k].Some? ==> InGap(rs[k].value, gaps))
    && RangesDisjoint(rs)
  }

  /** Placement by induction over the specs that remain. */
  lemma {:induction false} PlaceFromSound(specs: seq<PoolSpec>, sizes: seq<int>, gaps: seq<Ivl>, i: nat, lo: int,
                                          hi: int)
    requires i <= |specs| == |sizes| && Ordered(gaps, lo, hi) && NonEmpty(gaps)
    requires PinsClear(specs, gaps) && PinsDisjoint(specs)
    requires forall k :: 0 <= k < |specs| && Elastic(specs[k]) ==> sizes[k] >= FloorForClass(specs[k].cls)
    requires PlaceFrom(specs, sizes, gaps, i).Ok?
    ensures PlacedSoundly(specs, sizes, gaps, i, PlaceFrom(specs, sizes, gaps, i).value)
    decreases |specs| - i
  {
    if i < |specs| {
      var placed := PlaceOne(specs[i], i, sizes[i], gaps).value;
      var rest := PlaceFrom(specs, sizes, placed.gaps, i + 1).value;
      assert PlaceFrom(specs, sizes, gaps, i).value == [placed.range] + rest;
      hide PlacedSoundly, PlaceFrom;
      PlaceOneSound(specs[i], i, sizes[i], gaps, lo, hi);
      ClearOfSmallerGaps(specs, gaps, placed.gaps);
      PlaceFromSound(specs, sizes, placed.gaps, i + 1, lo, hi);
      hide PlaceOne, Ordered, NonEmpty, PinsDisjoint, Honoured, InGap, PinsClear;
      ExtendPlacement(specs, sizes, gaps, placed, i, rest);
    }
  }

  lemma ExtendPlacement(specs: seq<PoolSpec>, sizes: seq<int>, gaps: seq<Ivl>, placed: Placed, i: nat,
                        rest: seq<Option<Ivl>>)
    requires i < |specs| == |sizes|
    requires PinsClear(specs, gaps) && PinsDisjoint(specs)
    requires Honoured(specs[i], sizes[i], placed.range)
    requires !Pinned(specs[i]) && placed.range.Some? ==> InGap(placed.range.value, gaps)
    requires !Pinned(specs[i]) && placed.range.Some? ==> forall m :: 0 <= m < |placed.gaps| ==>
             Disjoint(placed.gaps[m], placed.range.value)
    requires forall r :: InGap(r, placed.gaps) ==> InGap(r, gaps)
    requires PlacedSoundly(specs, sizes, placed.gaps, i + 1, rest)
    ensures PlacedSoundly(specs, sizes, gaps, i, [placed.range] + rest)
  {
    var rs := [placed.range] + rest;
    hide InGap, PinsClear, Honoured, PinsDisjoint, Pinned, Disjoint;
    forall k | 0 <= k < |rs|
      ensures Honoured(specs[i + k], sizes[i + k], rs[k])
      ensures !Pinned(specs[i + k]) && rs[k].Some? ==> InGap(rs[k].value, gaps)
    {
      if k > 0 {
        assert rs[k] == rest[k - 1];
        assert Honoured(specs[i + 1 + (k - 1)], sizes[i + 1 + (k - 1)], rest[k - 1]);
      }
    }
    forall j, k | 0 <= j < k < |rs| && rs[j].Some? && rs[k].Some? ensures Disjoint(rs[j].value, rs[k].value) {
      assert rs[k] == rest[k - 1];
      if j == 0 {
        assert Honoured(specs[i + k], sizes[i + k], rs[k]);
        assert !Pinned(specs[i + 1 + (k - 1)]) ==> InGap(rest[k - 1].value, placed.gaps);
        HeadDisjoint(specs, sizes, gaps, placed, i, k, rs[k].value);
      } else {
        assert rs[j] == rest[j - 1];
      }
    }
  }

  lemma HeadDisjoint(specs: seq<PoolSpec>, sizes: seq<int>, gaps: seq<Ivl>, placed: Placed, i: nat, k: nat, r: Ivl)
    requires 1 <= k && i + k < |specs| == |sizes|
    requires PinsClear(specs, gaps) && PinsDisjoint(specs)
    requires Honoured(specs[i], sizes[i], placed.range) && placed.range.Some?
    requires Honoured(specs[i + k], sizes[i + k], Some(r))
    requires !Pinned(specs[i]) ==> InGap(placed.range.value, gaps)
    requires !Pinned(specs[i]) ==> forall m :: 0 <= m < |placed.gaps| ==> Disjoint(placed.gaps[m], placed.range.value)
    requires forall r' :: InGap(r', placed.gaps) ==> InGap(r', gaps)
    requires !Pinned(specs[i + k]) ==> InGap(r, placed.gaps)
    ensures Disjoint(placed.range.value, r)
  {
    if Pinned(specs[i]) {
      if Pinned(specs[i + k]) {
        assert Disjoint(PinOf(specs[i]), PinOf(specs[i + k]));
      } else {
        ClearOfPin(specs, gaps, r, i);
      }
    } else if Pinned(specs[i + k]) {
      ClearOfPin(specs, gaps, placed.range.value, i + k);
    } else {
      var m :| 0 <= m < |placed.gaps| && placed.gaps[m].lo <= r.lo && r.hi <= placed.gaps[m].hi;
      assert Disjoint(placed.gaps[m], placed.range.value);
    }
  }

  /** The safety theorem, for every plan, pinned or not. */
  lemma LayoutSafe(window: Ivl, specs: seq<PoolSpec>)
    requires window.lo <= window.hi && LayoutIn(window, specs).Ok?
    ensures var rs := LayoutIn(window, specs).value;
            && |rs| == |specs|
            && RangesDisjoint(rs)
            && (forall i :: 0 <= i < |rs| && rs[i].Some? ==> window.lo <= rs[i].value.lo <= rs[i].value.hi <= window.hi)
            && (forall i :: 0 <= i < |rs| ==> Delivered(specs[i], rs[i]))
  {
    var pinned := PinScan(specs, |specs|, window).value;
    var gaps := FreeGapsFrom(window.lo, window.hi, Sorted(pinned));
    PinnedGaps(specs, |specs|, window);
    PinScanSound(specs, |specs|, window);
    var sizes := SizePass(specs, Total(gaps)).value;
    SizesSound(specs, Total(gaps));
    hide FreeGapsFrom, Sorted, SizePass, PinScan, PlacedSoundly, Honoured;
    forall k | 0 <= k < |specs| && Pinned(specs[k])
      ensures specs[k].range.Range? && forall m :: 0 <= m < |gaps| ==> Disjoint(gaps[m], PinOf(specs[k]))
    {
      assert PinOf(specs[k]) in pinned;
    }
    PlaceFromSound(specs, sizes, gaps, 0, window.lo, window.hi);
    var rs := PlaceFrom(specs, sizes, gaps, 0).value;
    hide PlaceFrom, PinsClear, NonEmpty;
    SoundInWindow(specs, sizes, gaps, pinned, window, rs);
  }

  lemma SoundInWindow(specs: seq<PoolSpec>, sizes: seq<int>, gaps: seq<Ivl>, pinned: seq<Ivl>, window: Ivl,
                      rs: seq<Option<Ivl>>)
    requires |sizes| == |specs| && PlacedSoundly(specs, sizes, gaps, 0, rs)
    requires Ordered(gaps, window.lo, window.hi) && Within(pinned, window)
    requires forall k :: 0 <= k < |specs| && Pinned(specs[k]) ==> specs[k].range.Range? && PinOf(specs[k]) in pinned
    requires forall k :: 0 <= k < |specs| && Sized(specs[k]) ==> sizes[k] == specs[k].size >= 0
    ensures RangesDisjoint(rs)
    ensures forall i :: 0 <= i < |rs| ==> Delivered(specs[i], rs[i])
    ensures forall i :: 0 <= i < |rs| && rs[i].Some? ==> window.lo <= rs[i].value.lo <= rs[i].value.hi <= window.hi
  {
    forall i | 0 <= i < |rs|
      ensures Delivered(specs[i], rs[i])
      ensures rs[i].Some? ==> window.lo <= rs[i].value.lo <= rs[i].value.hi <= window.hi
    {
      assert Honoured(specs[0 + i], sizes[0 + i], rs[i]);
      if rs[i].Some? && Pinned(specs[i]) {
        assert PinOf(specs[i]) in pinned;
      } else if rs[i].Some? {
        assert !Pinned(specs[0 + i]) && InGap(rs[i].value, gaps);
        assert 0 < Size(rs[i].value);
      }
    }
  }

  /** What an accepted layout delivers to a spec: a pin verbatim, a fixed or reserve
      pool exactly its size, an elastic pool at least its class floor. */
  predicate Delivered(s: PoolSpec, r: Option<Ivl>) {
    if Pinned(s) then s.range.Range? && r == Some(PinOf(s))
    else if s.kind.PoolElastic? then r.Some? && Size(r.value) >= FloorForClass(s.cls)
    else s.size >= 0 && (r.Some? <==> s.size > 0) && (r.Some? ==> Size(r.value) == s.size)
  }

  lemma SizesSound(specs: seq<PoolSpec>, free: int)
    requires SizePass(specs, free).Ok?
    ensures var sizes := SizePass(specs, free).value;
            && (forall k :: 0 <= k < |specs| && Elastic(specs[k]) ==> sizes[k] >= FloorForClass(specs[k].cls))
            && (forall k :: 0 <= k < |specs| && Sized(specs[k]) ==> sizes[k] == specs[k].size >= 0)
  {
    var idx := ElasticIdx(specs, |specs|);
    ElasticIdxExact(specs, |specs|);
    NoUndershootIff(specs, idx, |idx|, free);
    hide ElasticIdx, FirstUndershoot;
    forall k | 0 <= k < |specs| && Elastic(specs[k]) ensures SizeOf(specs, k, free) >= FloorForClass(specs[k].cls) {
      assert k in idx;
    }
  }

  /** Every range an accepted layout of a block emits lies in [network+2, broadcast-1]. */
  lemma LayoutInsideSubnet(c: Cidr, specs: seq<PoolSpec>, i: nat)
    requires !WrapsAround(c) && Layout(c, specs).Ok? && i < |specs|
    requires Layout(c, specs).value[i].range.Some?
    ensures c.V4? && c.len <= 30
    ensures var r := Layout(c, specs).value[i].range.value;
            Network(c.ip, c.len) + 2 <= r.lo <= r.hi <= Broadcast(c.ip, c.len) - 1
  {
    PoolWindowExact(c);
    LayoutSafe(PoolWindow(c).value, specs);
  }
}
