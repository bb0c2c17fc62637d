/** Interval packing (addr.go): free gaps between reserved intervals, and the
    gap list a placement shrinks in place. */
module Gaps {
  import opened Addresses

  predicate Disjoint(a: Ivl, b: Ivl) { a.hi < b.lo || b.hi < a.lo }

  /** Non-empty intervals within [lo, hi], in ascending order and without overlap. */
  predicate Ordered(s: seq<Ivl>, lo: int, hi: int) {
    && (forall i :: 0 <= i < |s| ==> lo <= s[i].lo <= s[i].hi <= hi)
    && (forall i, j :: 0 <= i < j < |s| ==> s[i].hi < s[j].lo)
  }

  function Total(s: seq<Ivl>): int {
    if s == [] then 0 else Total(s[..|s| - 1]) + Size(s[|s| - 1])
  }

  // ---- sortIvls ----

  function Inserted(s: seq<Ivl>, x: Ivl): seq<Ivl>
    ensures |Inserted(s, x)| == |s| + 1
  {
    if s == [] || s[|s| - 1].lo <= x.lo then s + [x]
    else Inserted(s[..|s| - 1], x) + [s[|s| - 1]]
  }

  function Sorted(s: seq<Ivl>): seq<Ivl>
    ensures |Sorted(s)| == |s|
  {
    if s == [] then [] else Inserted(Sorted(s[..|s| - 1]), s[|s| - 1])
  }

  lemma {:induction false} InsertedIsOrdered(s: seq<Ivl>, x: Ivl)
    requires forall i, j :: 0 <= i < j < |s| ==> s[i].lo <= s[j].lo
    ensures forall i, j :: 0 <= i < j < |s| + 1 ==> Inserted(s, x)[i].lo <= Inserted(s, x)[j].lo
    ensures multiset(Inserted(s, x)) == multiset(s) + multiset{x}
  {
    if s == [] || s[|s| - 1].lo <= x.lo {
    } else {
      var init, last := s[..|s| - 1], s[|s| - 1];
      assert s == init + [last];
      InsertedIsOrdered(init, x);
      forall i | 0 <= i < |s| ensures Inserted(init, x)[i].lo <= last.lo {
        assert Inserted(init, x)[i] in multiset(Inserted(init, x));
      }
    }
  }

  /** Sorting orders by start address and loses nothing. */
  lemma {:induction false} SortedIsOrdered(s: seq<Ivl>)
    ensures forall i, j :: 0 <= i < j < |s| ==> Sorted(s)[i].lo <= Sorted(s)[j].lo
    ensures multiset(Sorted(s)) == multiset(s)
  {
    if s != [] {
      var init, x := s[..|s| - 1], s[|s| - 1];
      SortedIsOrdered(init);
      assert Sorted(s) == Inserted(Sorted(init), x) && s == init + [x];
      hide Sorted, Inserted;
      InsertedIsOrdered(Sorted(init), x);
    }
  }

  /** x goes before the first of the larger starts that end s. */
  lemma {:induction false} InsertedAt(s: seq<Ivl>, x: Ivl, j: nat)
    requires j <= |s| && (j > 0 ==> s[j - 1].lo <= x.lo) && forall k :: j <= k < |s| ==> x.lo < s[k].lo
    ensures Inserted(s, x) == s[..j] + [x] + s[j..]
  {
    if j < |s| {
      InsertedAt(s[..|s| - 1], x, j);
      assert s[..|s| - 1][..j] == s[..j];
      assert s[j..] == s[..|s| - 1][j..] + [s[|s| - 1]];
    } else {
      assert s[..j] == s;
    }
  }

  lemma SwappedLeft(s: seq<Ivl>, x: Ivl, rest: seq<Ivl>, j: nat)
    requires 0 < j <= |s|
    ensures var all := s[..j] + [x] + s[j..] + rest;
            && all[j] == x && all[j - 1] == s[j - 1]
            && all[j := s[j - 1]][j - 1 := x] == s[..j - 1] + [x] + s[j - 1..] + rest
  {
  }

  lemma AppendedParts(s: seq<Ivl>, rest: seq<Ivl>)
    ensures (s + rest)[..|s|] == s && (s + rest)[|s|..] == rest
  {
  }

  /** The inner loop: moves ivs[i] left past every larger start. */
  method SinkIvl(ivs: array<Ivl>, i: nat)
    requires i < ivs.Length
    modifies ivs
    ensures ivs[..i + 1] == Inserted(old(ivs[..i]), old(ivs[i]))
    ensures ivs[i + 1..] == old(ivs[i + 1..])
  {
    hide Inserted;
    ghost var before, x, rest := ivs[..i], ivs[i], ivs[i + 1..];
    var j := i;
    assert before[..i] == before && before[i..] == [];
    while j > 0 && ivs[j].lo < ivs[j - 1].lo
      invariant 0 <= j <= i
      invariant ivs[..] == before[..j] + [x] + before[j..] + rest
      invariant forall k :: j <= k < i ==> x.lo < before[k].lo
    {
      SwappedLeft(before, x, rest, j);
      ghost var all := ivs[..];
      assert all[j] == ivs[j] && all[j - 1] == ivs[j - 1];
      ivs[j], ivs[j - 1] := ivs[j - 1], ivs[j];
      assert ivs[..] == all[j := before[j - 1]][j - 1 := x];
      j := j - 1;
    }
    assert j > 0 ==> ivs[..][j - 1] == before[j - 1] && ivs[..][j] == x;
    InsertedAt(before, x, j);
    AppendedParts(before[..j] + [x] + before[j..], rest);
    assert ivs[..i + 1] == ivs[..][..i + 1] && ivs[i + 1..] == ivs[..][i + 1..];
  }

  method SortIvls(ivs: array<Ivl>)
    modifies ivs
    ensures ivs[..] == Sorted(old(ivs[..]))
  {
    ghost var all := ivs[..];
    var i := 1;
    if ivs.Length == 0 { return; }
    assert all[..1] == [all[0]] && all[..1][..0] == [];
    while i < ivs.Length
      invariant 1 <= i <= ivs.Length
      invariant ivs[..i] == Sorted(all[..i]) && ivs[i..] == all[i..]
    {
      assert ivs[i] == all[i] && ivs[i + 1..] == all[i + 1..];
      SinkIvl(ivs, i);
      assert all[..i + 1][..i] == all[..i];
      i := i + 1;
    }
    assert ivs[..] == ivs[..i] && all == all[..i];
  }

  // ---- freeGaps ----

  /** The free windows of [cur, to] around the reserved intervals. */
  function FreeGapsFrom(cur: int, to: Addr, reserved: seq<Ivl>): seq<Ivl>
    requires 0 <= cur <= U32
    decreases |reserved|
  {
    if reserved == [] then (if cur <= to then [Ivl(cur, to)] else [])
    else
      (if reserved[0].lo > cur then [Ivl(cur, reserved[0].lo - 1)] else [])
      + FreeGapsFrom(if reserved[0].hi + 1 > cur then reserved[0].hi + 1 else cur, to, reserved[1..])
  }

  /** The same as the code computes it, where iv.hi+1 wraps past 255.255.255.255. */
  function FreeGapsWrapping(cur: Addr, to: Addr, reserved: seq<Ivl>): seq<Ivl>
    decreases |reserved|
  {
    if reserved == [] then (if cur <= to then [Ivl(cur, to)] else [])
    else
      var next := Wrap(reserved[0].hi + 1);
      (if reserved[0].lo > cur then [Ivl(cur, reserved[0].lo - 1)] else [])
      + FreeGapsWrapping(if next > cur then next else cur, to, reserved[1..])
  }

  lemma FreeGapsStep(cur: Addr, to: Addr, reserved: seq<Ivl>, i: nat)
    requires i < |reserved|
    ensures var next := Wrap(reserved[i].hi + 1);
            FreeGapsWrapping(cur, to, reserved[i..])
            == (if reserved[i].lo > cur then [Ivl(cur, reserved[i].lo - 1)] else [])
               + FreeGapsWrapping(if next > cur then next else cur, to, reserved[i + 1..])
  {
    assert reserved[i..][0] == reserved[i] && reserved[i..][1..] == reserved[i + 1..];
  }

  lemma FreeGapsEnd(cur: Addr, to: Addr)
    ensures FreeGapsWrapping(cur, to, []) == if cur <= to then [Ivl(cur, to)] else []
  {
  }

  method FreeGaps(from: Addr, to: Addr, reserved: seq<Ivl>) returns (gaps: seq<Ivl>)
    ensures gaps == FreeGapsWrapping(from, to, reserved)
  {
    hide FreeGapsWrapping;
    gaps := [];
    var cur: Addr := from;
    var i := 0;
    assert reserved[0..] == reserved;
    while i < |reserved|
      invariant 0 <= i <= |reserved|
      invariant gaps + FreeGapsWrapping(cur, to, reserved[i..]) == FreeGapsWrapping(from, to, reserved)
    {
      var iv := reserved[i];
      FreeGapsStep(cur, to, reserved, i);
      if iv.lo > cur {
        gaps := gaps + [Ivl(cur, iv.lo - 1)];
      }
      var next := Wrap(iv.hi + 1);
      if next > cur {
        cur := next;
      }
      i := i + 1;
    }
    assert reserved[i..] == [];
    FreeGapsEnd(cur, to);
    if cur <= to {
      gaps := gaps + [Ivl(cur, to)];
    }
  }

  lemma {:induction false} WrappingAgrees(cur: Addr, to: Addr, reserved: seq<Ivl>)
    requires forall i :: 0 <= i < |reserved| ==> reserved[i].hi < U32 - 1
    ensures FreeGapsWrapping(cur, to, reserved) == FreeGapsFrom(cur, to, reserved)
    decreases |reserved|
  {
    if reserved != [] {
      var hi := reserved[0].hi;
      WrappingAgrees(if hi + 1 > cur then hi + 1 else cur, to, reserved[1..]);
    }
  }

  lemma {:induction false} TotalConcat(a: seq<Ivl>, b: seq<Ivl>)
    ensures Total(a + b) == Total(a) + Total(b)
  {
    if b == [] {
      assert a + b == a;
    } else {
      var n := |b| - 1;
      assert (a + b)[..|a| + n] == a + b[..n];
      TotalConcat(a, b[..n]);
    }
  }

  lemma TotalAround(s: seq<Ivl>, i: nat)
    requires i < |s|
    ensures Total(s) == Total(s[..i]) + Size(s[i]) + Total(s[i + 1..])
  {
    assert s == s[..i] + ([s[i]] + s[i + 1..]);
    TotalConcat(s[..i], [s[i]] + s[i + 1..]);
    TotalConcat([s[i]], s[i + 1..]);
    TotalOne(s[i]);
  }

  lemma TotalOne(g: Ivl)
    ensures Total([g]) == Size(g)
  {
    assert [g][..0] == [];
  }

  lemma OrderedTail(s: seq<Ivl>, lo: int, hi: int)
    requires Ordered(s, lo, hi) && s != []
    ensures lo <= s[0].lo <= s[0].hi <= hi && Ordered(s[1..], s[0].hi + 1, hi)
  {
  }

  /** No gap meets any reservation. */
  predicate AllClear(gaps: seq<Ivl>, reserved: seq<Ivl>) {
    forall i, j :: 0 <= i < |gaps| && 0 <= j < |reserved| ==> Disjoint(gaps[i], reserved[j])
  }

  lemma GapsPrepend(cur: int, iv: Ivl, to: Addr, rest: seq<Ivl>, tail: seq<Ivl>)
    requires 0 <= cur <= iv.lo <= iv.hi <= to && Ordered(tail, iv.hi + 1, to) && Ordered(rest, iv.hi + 1, to)
             && AllClear(tail, rest)
    ensures var gaps := (if iv.lo > cur then [Ivl(cur, iv.lo - 1)] else []) + tail;
            Ordered(gaps, cur, to) && AllClear(gaps, [iv] + rest)
  {
  }

  lemma FreeGapsHead(cur: int, to: Addr, reserved: seq<Ivl>)
    requires 0 <= cur <= to && reserved != [] && cur <= reserved[0].lo <= reserved[0].hi <= to
    ensures FreeGapsFrom(cur, to, reserved)
            == (if reserved[0].lo > cur then [Ivl(cur, reserved[0].lo - 1)] else [])
               + FreeGapsFrom(reserved[0].hi + 1, to, reserved[1..])
  {
  }

  /** Around ordered reservations, the gaps are ordered and avoid every reservation. */
  lemma {:induction false} FreeGapsOrdered(cur: int, to: Addr, reserved: seq<Ivl>)
    requires 0 <= cur <= to + 1 && Ordered(reserved, cur, to)
    ensures Ordered(FreeGapsFrom(cur, to, reserved), cur, to)
    ensures AllClear(FreeGapsFrom(cur, to, reserved), reserved)
    decreases |reserved|
  {
    hide FreeGapsFrom, Ordered, AllClear;
    if reserved == [] {
      NoReservations(cur, to);
    } else {
      var iv, rest := reserved[0], reserved[1..];
      OrderedTail(reserved, cur, to);
      FreeGapsHead(cur, to, reserved);
      FreeGapsOrdered(iv.hi + 1, to, rest);
      GapsPrepend(cur, iv, to, rest, FreeGapsFrom(iv.hi + 1, to, rest));
      assert reserved == [iv] + rest;
    }
  }

  lemma NoReservations(cur: int, to: Addr)
    requires 0 <= cur <= to + 1
    ensures Ordered(FreeGapsFrom(cur, to, []), cur, to) && AllClear(FreeGapsFrom(cur, to, []), [])
  {
  }

  lemma WrappingHead(cur: Addr, to: Addr, reserved: seq<Ivl>)
    requires reserved != [] && cur <= reserved[0].lo <= reserved[0].hi
    ensures FreeGapsWrapping(cur, to, reserved)
            == (if reserved[0].lo > cur then [Ivl(cur, reserved[0].lo - 1)] else [])
               + FreeGapsWrapping(if reserved[0].hi < U32 - 1 then reserved[0].hi + 1 else cur, to, reserved[1..])
  {
  }

  lemma {:induction false} WrappingReachesTop(cur: Addr, to: Addr, reserved: seq<Ivl>)
    requires Ordered(reserved, cur, to) && cur <= to && reserved != [] && reserved[|reserved| - 1].hi == U32 - 1
    ensures var gaps := FreeGapsWrapping(cur, to, reserved);
            gaps != [] && gaps[|gaps| - 1].lo <= to == gaps[|gaps| - 1].hi
    decreases |reserved|
  {
    hide FreeGapsWrapping, Wrap;
    OrderedTail(reserved, cur, to);
    WrappingHead(cur, to, reserved);
    var rest := reserved[1..];
    if rest == [] {
      FreeGapsEnd(cur, to);
    } else {
      assert rest[0] == reserved[1] && rest[|rest| - 1] == reserved[|reserved| - 1];
      assert reserved[0].hi < reserved[1].lo <= to;
      WrappingReachesTop(reserved[0].hi + 1, to, rest);
    }
  }

  /** freeGaps keeps clear of ordered reservations if and only if none of them ends at
      255.255.255.255. */
  lemma GapsClearExactly(cur: Addr, to: Addr, reserved: seq<Ivl>)
    requires Ordered(reserved, cur, to) && cur <= to
    ensures AllClear(FreeGapsWrapping(cur, to, reserved), reserved)
            <==> reserved == [] || reserved[|reserved| - 1].hi < U32 - 1
  {
    if reserved == [] || reserved[|reserved| - 1].hi < U32 - 1 {
      WrappingAgrees(cur, to, reserved);
      FreeGapsOrdered(cur, to, reserved);
    } else {
      WrappingReachesTop(cur, to, reserved);
      var gaps := FreeGapsWrapping(cur, to, reserved);
      assert !Disjoint(gaps[|gaps| - 1], reserved[|reserved| - 1]);
    }
  }

  /** Together with the reservations they account for every address of the window. */
  lemma {:induction false} FreeGapsTotal(cur: int, to: Addr, reserved: seq<Ivl>)
    requires 0 <= cur <= to + 1 && Ordered(reserved, cur, to)
    ensures Total(FreeGapsFrom(cur, to, reserved)) + Total(reserved) == to + 1 - cur
    decreases |reserved|
  {
    hide Total, FreeGapsFrom, Ordered;
    if reserved == [] {
      FreeWindowTotal(cur, to);
    } else {
      var iv, rest := reserved[0], reserved[1..];
      OrderedTail(reserved, cur, to);
      FreeGapsHead(cur, to, reserved);
      FreeGapsTotal(iv.hi + 1, to, rest);
      assert reserved == [iv] + rest;
      TotalConcat([iv], rest);
      TotalOne(iv);
      var head := if iv.lo > cur then [Ivl(cur, iv.lo - 1)] else [];
      TotalConcat(head, FreeGapsFrom(iv.hi + 1, to, rest));
      if iv.lo > cur { TotalOne(Ivl(cur, iv.lo - 1)); } else { TotalNone(); }
    }
  }

  lemma TotalNone()
    ensures Total([]) == 0
  {
  }

  lemma FreeWindowTotal(cur: int, to: Addr)
    requires 0 <= cur <= to + 1
    ensures Total(FreeGapsFrom(cur, to, [])) + Total([]) == to + 1 - cur
  {
    if cur <= to { TotalOne(Ivl(cur, to)); }
  }

  // ---- Choosing and shrinking a gap ----

  /** The first gap of at least `need` addresses, or |gaps| if none fits. */
  function FirstFit(gaps: seq<Ivl>, need: int): (i: nat)
    ensures i <= |gaps|
    ensures i < |gaps| ==> Size(gaps[i]) >= need
    ensures forall j :: 0 <= j < i ==> Size(gaps[j]) < need
  {
    if gaps == [] then 0
    else if Size(gaps[0]) >= need then 0
    else
      var k := FirstFit(gaps[1..], need);
      assert forall j :: 1 <= j < k + 1 ==> gaps[j] == gaps[1..][j - 1];
      1 + k
  }

  method FirstFitGap(gaps: seq<Ivl>, need: int) returns (i: int)
    ensures i == if FirstFit(gaps, need) < |gaps| then FirstFit(gaps, need) else -1
  {
    i := 0;
    while i < |gaps|
      invariant 0 <= i <= |gaps|
      invariant forall j :: 0 <= j < i ==> Size(gaps[j]) < need
    {
      if Size(gaps[i]) >= need {
        return;
      }
      i := i + 1;
    }
    i := -1;
  }

  /** The first widest of the first n gaps. */
  function Largest(gaps: seq<Ivl>, n: nat): (i: nat)
    requires 0 < n <= |gaps|
    ensures i < n
    ensures forall j :: 0 <= j < n ==> Size(gaps[j]) <= Size(gaps[i])
    ensures forall j :: 0 <= j < i ==> Size(gaps[j]) < Size(gaps[i])
  {
    if n == 1 then 0 else
      var b := Largest(gaps, n - 1);
      if Size(gaps[n - 1]) > Size(gaps[b]) then n - 1 else b
  }

  method LargestGapIdx(gaps: seq<Ivl>) returns (best: int)
    requires forall i :: 0 <= i < |gaps| ==> gaps[i].lo <= gaps[i].hi
    ensures best == if gaps == [] then -1 else Largest(gaps, |gaps|)
  {
    var bestSize := -1;
    best := -1;
    var i := 0;
    while i < |gaps|
      invariant 0 <= i <= |gaps|
      invariant i == 0 ==> best == -1 && bestSize == -1
      invariant i > 0 ==> best == Largest(gaps, i) && bestSize == Size(gaps[best])
    {
      var sz := Size(gaps[i]);
      if sz > bestSize {
        best, bestSize := i, sz;
      }
      i := i + 1;
    }
  }

  /** The gap list once [gaps[i].lo, usedHi] is taken; a spent gap is dropped. */
  function Shrunk(gaps: seq<Ivl>, i: nat, usedHi: Addr): seq<Ivl>
    requires i < |gaps| && gaps[i].lo <= usedHi <= gaps[i].hi
  {
    if usedHi < gaps[i].hi then gaps[i := Ivl(usedHi + 1, gaps[i].hi)]
    else gaps[..i] + gaps[i + 1..]
  }

  method ShrinkGap(gaps: seq<Ivl>, i: nat, usedHi: Addr) returns (after: seq<Ivl>)
    requires i < |gaps| && gaps[i].lo <= usedHi <= gaps[i].hi
    ensures after == Shrunk(gaps, i, usedHi)
  {
    if usedHi < gaps[i].hi {
      after := gaps[i := Ivl(usedHi + 1, gaps[i].hi)];
      return;
    }
    after := gaps[..i] + gaps[i + 1..];
  }

  /** Taking space from the front of a gap keeps the list ordered and clear of
      everything it was clear of, including the span just taken. */
  lemma ShrunkStaysOrdered(gaps: seq<Ivl>, i: nat, usedHi: Addr, lo: int, hi: int)
    requires Ordered(gaps, lo, hi) && i < |gaps| && gaps[i].lo <= usedHi <= gaps[i].hi
    ensures var after := Shrunk(gaps, i, usedHi);
            && Ordered(after, lo, hi)
            && (forall k :: 0 <= k < |after| ==> Disjoint(after[k], Ivl(gaps[i].lo, usedHi)))
            && (forall k :: 0 <= k < |after| ==>
                exists m :: 0 <= m < |gaps| && gaps[m].lo <= after[k].lo && after[k].hi <= gaps[m].hi)
  {
    var after := Shrunk(gaps, i, usedHi);
    forall k | 0 <= k < |after|
      ensures exists m :: 0 <= m < |gaps| && gaps[m].lo <= after[k].lo && after[k].hi <= gaps[m].hi
    {
      var m := if usedHi < gaps[i].hi || k < i then k else k + 1;
      assert gaps[m].lo <= after[k].lo && after[k].hi <= gaps[m].hi;
    }
  }

  lemma ShrunkTotal(gaps: seq<Ivl>, i: nat, usedHi: Addr)
    requires i < |gaps| && gaps[i].lo <= usedHi <= gaps[i].hi
    ensures Total(Shrunk(gaps, i, usedHi)) == Total(gaps) - (usedHi - gaps[i].lo + 1)
  {
    var after := Shrunk(gaps, i, usedHi);
    TotalAround(gaps, i);
    if usedHi < gaps[i].hi {
      TotalAround(after, i);
      assert after[..i] == gaps[..i] && after[i + 1..] == gaps[i + 1..];
    } else {
      TotalConcat(gaps[..i], gaps[i + 1..]);
    }
  }

  // ---- Exactly which addresses are free ----

  /** x is in one of the intervals. */
  predicate InSome(s: seq<Ivl>, x: int) { exists i :: 0 <= i < |s| && s[i].lo <= x <= s[i].hi }

  /** Between two gaps there is always an address in neither. */
  predicate Apart(gaps: seq<Ivl>) { forall i, j :: 0 <= i < j < |gaps| ==> gaps[i].hi + 1 < gaps[j].lo }

  lemma InSomeConcat(a: seq<Ivl>, b: seq<Ivl>, x: int)
    ensures InSome(a + b, x) <==> InSome(a, x) || InSome(b, x)
  {
    if i :| 0 <= i < |a| && a[i].lo <= x <= a[i].hi { assert (a + b)[i] == a[i]; }
    if i :| 0 <= i < |b| && b[i].lo <= x <= b[i].hi { assert (a + b)[|a| + i] == b[i]; }
  }

  lemma InOne(g: Ivl, x: int)
    ensures InSome([g], x) <==> g.lo <= x <= g.hi
  {
    assert [g][0] == g;
  }

  /** The gaps around ordered reservations hold exactly the unreserved addresses, and are
      maximal: no two of them touch. */
  lemma {:induction false} FreeGapsExact(cur: int, to: Addr, reserved: seq<Ivl>)
    requires 0 <= cur <= to + 1 && Ordered(reserved, cur, to)
    ensures Apart(FreeGapsFrom(cur, to, reserved))
    ensures forall x :: InSome(FreeGapsFrom(cur, to, reserved), x) <==> cur <= x <= to && !InSome(reserved, x)
    decreases |reserved|
  {
    hide FreeGapsFrom, Ordered, InSome, Apart;
    if reserved == [] {
      WindowExact(cur, to);
    } else {
      var iv, rest := reserved[0], reserved[1..];
      OrderedTail(reserved, cur, to);
      FreeGapsHead(cur, to, reserved);
      FreeGapsExact(iv.hi + 1, to, rest);
      FreeGapsOrdered(iv.hi + 1, to, rest);
      assert reserved == [iv] + rest;
      var tail := FreeGapsFrom(iv.hi + 1, to, rest);
      var head := if iv.lo > cur then [Ivl(cur, iv.lo - 1)] else [];
      forall x ensures InSome(head + tail, x) <==> cur <= x <= to && !InSome(reserved, x) {
        InSomeConcat(head, tail, x);
        InSomeConcat([iv], rest, x);
        InOne(iv, x);
        RestIsAbove(rest, iv.hi + 1, to, x);
        if iv.lo > cur { InOne(Ivl(cur, iv.lo - 1), x); } else { InNone(x); }
      }
      ApartPrepend(cur, iv, to, tail);
    }
  }

  lemma InNone(x: int)
    ensures !InSome([], x)
  {
  }

  lemma RestIsAbove(rest: seq<Ivl>, lo: int, hi: int, x: int)
    requires Ordered(rest, lo, hi)
    ensures InSome(rest, x) ==> lo <= x <= hi
  {
  }

  lemma ApartPrepend(cur: int, iv: Ivl, to: Addr, tail: seq<Ivl>)
    requires 0 <= cur <= iv.lo <= iv.hi <= to && Ordered(tail, iv.hi + 1, to) && Apart(tail)
    ensures Apart((if iv.lo > cur then [Ivl(cur, iv.lo - 1)] else []) + tail)
  {
  }

  lemma WindowExact(cur: int, to: Addr)
    requires 0 <= cur <= to + 1
    ensures Apart(FreeGapsFrom(cur, to, []))
    ensures forall x :: InSome(FreeGapsFrom(cur, to, []), x) <==> cur <= x <= to && !InSome([], x)
  {
    forall x ensures InSome(FreeGapsFrom(cur, to, []), x) <==> cur <= x <= to {
      if cur <= to { InOne(Ivl(cur, to), x); }
    }
  }

  /** Taking the front of a gap frees nothing, takes nothing else, and leaves maximal gaps. */
  lemma ShrunkExact(gaps: seq<Ivl>, i: nat, usedHi: Addr, lo: int, hi: int)
    requires Ordered(gaps, lo, hi) && Apart(gaps) && i < |gaps| && gaps[i].lo <= usedHi <= gaps[i].hi
    ensures Apart(Shrunk(gaps, i, usedHi))
    ensures forall x :: InSome(Shrunk(gaps, i, usedHi), x) <==> InSome(gaps, x) && !(gaps[i].lo <= x <= usedHi)
  {
    hide InSome;
    forall x ensures InSome(Shrunk(gaps, i, usedHi), x) <==> InSome(gaps, x) && !(gaps[i].lo <= x <= usedHi) {
      SplitAround(gaps, i, x);
      if gaps[i].lo <= x <= gaps[i].hi { OthersApart(gaps, i, x); }
      if usedHi < gaps[i].hi {
        SplitAround(Shrunk(gaps, i, usedHi), i, x);
        assert Shrunk(gaps, i, usedHi)[..i] == gaps[..i] && Shrunk(gaps, i, usedHi)[i + 1..] == gaps[i + 1..];
      } else {
        InSomeConcat(gaps[..i], gaps[i + 1..], x);
      }
    }
  }

  lemma SplitAround(s: seq<Ivl>, i: nat, x: int)
    requires i < |s|
    ensures InSome(s, x) <==> InSome(s[..i], x) || s[i].lo <= x <= s[i].hi || InSome(s[i + 1..], x)
  {
    hide InSome;
    assert s == s[..i] + ([s[i]] + s[i + 1..]);
    InSomeConcat(s[..i], [s[i]] + s[i + 1..], x);
    InSomeConcat([s[i]], s[i + 1..], x);
    InOne(s[i], x);
  }

  lemma OthersApart(gaps: seq<Ivl>, i: nat, x: int)
    requires Apart(gaps) && i < |gaps| && gaps[i].lo <= x <= gaps[i].hi
    ensures !InSome(gaps[..i], x) && !InSome(gaps[i + 1..], x)
  {
  }

  lemma PastGap(gaps: seq<Ivl>, m: nat)
    requires Apart(gaps) && m < |gaps| && gaps[m].lo <= gaps[m].hi
    ensures !InSome(gaps, gaps[m].hi + 1)
  {
    assert forall k :: 0 <= k < |gaps| ==> k == m || gaps[k].hi + 1 < gaps[m].lo || gaps[m].hi + 1 < gaps[k].lo;
  }

  /** A run of addresses that are all in gaps lies in one gap. */
  lemma RunInOneGap(gaps: seq<Ivl>, a: int, n: int) returns (m: nat)
    requires Apart(gaps) && n > 0 && forall x :: a <= x < a + n ==> InSome(gaps, x)
    ensures m < |gaps| && gaps[m].lo <= a && a + n - 1 <= gaps[m].hi
  {
    assert InSome(gaps, a);
    m :| 0 <= m < |gaps| && gaps[m].lo <= a <= gaps[m].hi;
    var past := gaps[m].hi + 1;
    PastGap(gaps, m);
    assert past < a + n ==> InSome(gaps, past);
  }

  lemma {:induction false} TotalInserted(s: seq<Ivl>, x: Ivl)
    ensures Total(Inserted(s, x)) == Total(s) + Size(x)
  {
    if s == [] || s[|s| - 1].lo <= x.lo {
      assert (s + [x])[..|s|] == s;
    } else {
      var init, last := s[..|s| - 1], s[|s| - 1];
      TotalInserted(init, x);
      assert (Inserted(init, x) + [last])[..|s|] == Inserted(init, x);
    }
  }

  lemma {:induction false} TotalSorted(s: seq<Ivl>)
    ensures Total(Sorted(s)) == Total(s)
  {
    if s != [] {
      TotalSorted(s[..|s| - 1]);
      TotalInserted(Sorted(s[..|s| - 1]), s[|s| - 1]);
    }
  }
}
