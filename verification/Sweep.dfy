/** The rotating ARP sweep of an interface's pool ranges (internal/arpscan/prober.go). */
module Sweep {
  import opened Common

  const SWEEP_CHUNK := 32

  /** An inclusive range of IPv4 addresses; one with hi < lo is empty and is skipped. */
  datatype Range = Range(lo: nat, hi: nat)

  predicate Has(r: Range, a: nat) { r.lo <= a <= r.hi }

  function Size(r: Range): nat { if r.hi < r.lo then 0 else r.hi - r.lo + 1 }

  function Total(rs: seq<Range>): nat {
    if rs == [] then 0 else Size(rs[0]) + Total(rs[1..])
  }

  /** The address at a flat offset into the ranges laid end to end. */
  function Address(rs: seq<Range>, off: nat): nat
    requires off < Total(rs)
  {
    if off < Size(rs[0]) then rs[0].lo + off else Address(rs[1..], off - Size(rs[0]))
  }

  function Min(a: nat, b: nat): nat { if a < b then a else b }

  // ---- The code, in place ----

  method SweepTotal(rs: seq<Range>) returns (total: nat)
    ensures total == Total(rs)
  {
    total := 0;
    for i := 0 to |rs|
      invariant total + Total(rs[i..]) == Total(rs)
    {
      assert rs[i..][1..] == rs[i + 1..];
      if rs[i].hi >= rs[i].lo {
        total := total + (rs[i].hi - rs[i].lo) + 1;
      }
    }
    assert rs[|rs|..] == [];
  }

  /** None stands for the zero address the code falls back to past the end. */
  method SweepIPAt(rs: seq<Range>, off: nat) returns (a: Option<nat>)
    ensures a == if off < Total(rs) then Some(Address(rs, off)) else None
  {
    var rest: nat := off;
    for i := 0 to |rs|
      invariant off < Total(rs) <==> rest < Total(rs[i..])
      invariant off < Total(rs) ==> Address(rs, off) == Address(rs[i..], rest)
    {
      assert rs[i..][0] == rs[i] && rs[i..][1..] == rs[i + 1..];
      if rs[i].hi < rs[i].lo {
        continue;
      }
      var size := rs[i].hi - rs[i].lo + 1;
      if rest < size {
        return Some(rs[i].lo + rest);
      }
      rest := rest - size;
    }
    assert rs[|rs|..] == [];
    return None;
  }

  /** The lease addresses that parse, in order. */
  function Parsed(leases: seq<Option<nat>>): seq<nat> {
    if leases == [] then []
    else Parsed(leases[..|leases| - 1]) + (if leases[|leases| - 1].Some? then [leases[|leases| - 1].value] else [])
  }

  /** The first n sweep probes of a cycle that starts at cursor. */
  function Swept(rs: seq<Range>, cursor: nat, n: nat, probed: seq<nat>): seq<nat>
    requires Total(rs) > 0
  {
    if n == 0 then [] else
      var a := Address(rs, (cursor + n - 1) % Total(rs));
      Swept(rs, cursor, n - 1, probed) + (if a in probed then [] else [a])
  }

  lemma NothingSwept(rs: seq<Range>, cursor: nat, probed: seq<nat>)
    requires Total(rs) > 0
    ensures Swept(rs, cursor, 0, probed) == []
  {
  }

  lemma SweptNext(rs: seq<Range>, cursor: nat, i: nat, probed: seq<nat>)
    requires Total(rs) > 0
    ensures (cursor + i) % Total(rs) < Total(rs)
    ensures var a := Address(rs, (cursor + i) % Total(rs));
            Swept(rs, cursor, i + 1, probed) == Swept(rs, cursor, i, probed) + (if a in probed then [] else [a])
  {
  }

  function Chunk(rs: seq<Range>): nat { Min(SWEEP_CHUNK, Total(rs)) }

  /** Everything one cycle sends a who-has to. */
  function Cycle(rs: seq<Range>, cursor: nat, leases: seq<Option<nat>>): seq<nat> {
    Parsed(leases) + (if Total(rs) == 0 then [] else Swept(rs, cursor, Chunk(rs), Parsed(leases)))
  }

  function NextCursor(rs: seq<Range>, cursor: nat): nat {
    if Total(rs) == 0 then cursor else (cursor + Chunk(rs)) % Total(rs)
  }

  class IfaceRunner {
    const sweep: seq<Range>
    var sweepCursor: nat

    constructor (sweep: seq<Range>)
      ensures this.sweep == sweep && sweepCursor == 0
    {
      this.sweep := sweep;
      sweepCursor := 0;
    }

    /** One cycle; probes lists the who-has requests in the order they are handed to the
        transport. */
    method ProbeOnce(leases: seq<Option<nat>>) returns (probes: seq<nat>)
      modifies this
      ensures probes == Cycle(sweep, old(sweepCursor), leases)
      ensures sweepCursor == NextCursor(sweep, old(sweepCursor))
    {
      probes := [];
      var probed: set<nat> := {};
      for i := 0 to |leases|
        invariant probes == Parsed(leases[..i])
        invariant probed == set a | a in probes
      {
        assert leases[..i + 1][..i] == leases[..i];
        if leases[i].Some? {
          probed := probed + {leases[i].value};
          probes := probes + [leases[i].value];
        }
      }
      assert leases[..|leases|] == leases;
      var total := SweepTotal(sweep);
      if total == 0 {
        return;
      }
      ghost var leased := probes;
      var n := Min(SWEEP_CHUNK, total);
      hide Swept, Address, Parsed, Total, Min;
      NothingSwept(sweep, sweepCursor, leased);
      for i := 0 to n
        invariant sweepCursor == old(sweepCursor)
        invariant probes == leased + Swept(sweep, sweepCursor, i, leased)
      {
        SweptNext(sweep, sweepCursor, i, leased);
        var ip := SweepIPAt(sweep, (sweepCursor + i) % total);
        if ip.value !in probed {
          probes := probes + [ip.value];
        }
      }
      sweepCursor := (sweepCursor + n) % total;
    }
  }

  // ---- Offsets and addresses ----

  ghost predicate Covers(rs: seq<Range>, a: nat) {
    exists i :: 0 <= i < |rs| && Has(rs[i], a)
  }

  ghost predicate Disjoint(rs: seq<Range>) {
    forall i, j, a: nat :: 0 <= i < j < |rs| && Has(rs[i], a) ==> !Has(rs[j], a)
  }

  ghost predicate OffsetsInjective(rs: seq<Range>) {
    forall o, p | 0 <= o < p < Total(rs) :: Address(rs, o) != Address(rs, p)
  }

  lemma {:induction false} AddressCovered(rs: seq<Range>, off: nat)
    requires off < Total(rs)
    ensures Covers(rs, Address(rs, off))
  {
    if off < Size(rs[0]) {
      assert Has(rs[0], rs[0].lo + off);
    } else {
      AddressCovered(rs[1..], off - Size(rs[0]));
      var i :| 0 <= i < |rs[1..]| && Has(rs[1..][i], Address(rs, off));
      assert rs[i + 1] == rs[1..][i];
    }
  }

  lemma {:induction false} TotalPrefix(rs: seq<Range>, i: nat)
    requires i < |rs|
    ensures Total(rs[..i + 1]) == Total(rs[..i]) + Size(rs[i])
  {
    if i > 0 {
      TotalPrefix(rs[1..], i - 1);
      assert rs[..i][1..] == rs[1..][..i - 1];
      assert rs[..i + 1][1..] == rs[1..][..i];
    } else {
      assert rs[..1] == [rs[0]] && rs[..0] == [];
    }
  }

  lemma {:induction false} TotalGrows(rs: seq<Range>, i: nat, j: nat)
    requires i <= j <= |rs|
    ensures Total(rs[..i]) <= Total(rs[..j])
  {
    if i < j {
      TotalGrows(rs, i, j - 1);
      TotalPrefix(rs, j - 1);
    }
  }

  lemma {:induction false} CoveredHasOffset(rs: seq<Range>, i: nat, a: nat) returns (off: nat)
    requires i < |rs| && Has(rs[i], a)
    ensures off < Total(rs) && Address(rs, off) == a
    ensures Total(rs[..i]) <= off < Total(rs[..i + 1])
  {
    if i == 0 {
      off := a - rs[0].lo;
      assert rs[..1] == [rs[0]];
    } else {
      assert rs[1..][i - 1] == rs[i];
      var rest := CoveredHasOffset(rs[1..], i - 1, a);
      off := rest + Size(rs[0]);
      assert rs[..i][1..] == rs[1..][..i - 1];
      assert rs[..i + 1][1..] == rs[1..][..i];
    }
  }

  /** The offsets run through every address of the ranges and through nothing else. */
  lemma OffsetsOntoRanges(rs: seq<Range>, a: nat)
    ensures Covers(rs, a) <==> exists off :: 0 <= off < Total(rs) && Address(rs, off) == a
  {
    if Covers(rs, a) {
      var i :| 0 <= i < |rs| && Has(rs[i], a);
      var off := CoveredHasOffset(rs, i, a);
    }
    if off :| 0 <= off < Total(rs) && Address(rs, off) == a {
      AddressCovered(rs, off);
    }
  }

  lemma {:induction false} DisjointInjective(rs: seq<Range>, o: nat, p: nat)
    requires Disjoint(rs) && o < p < Total(rs)
    ensures Address(rs, o) != Address(rs, p)
  {
    var k := Size(rs[0]);
    if o >= k {
      assert Disjoint(rs[1..]) by {
        forall i, j, a: nat | 0 <= i < j < |rs[1..]| && Has(rs[1..][i], a)
          ensures !Has(rs[1..][j], a)
        {
          assert Has(rs[i + 1], a);
          assert rs[1..][j] == rs[j + 1];
        }
      }
      DisjointInjective(rs[1..], o - k, p - k);
    } else if p >= k {
      var a := Address(rs, p);
      AddressCovered(rs[1..], p - k);
      var j :| 0 <= j < |rs[1..]| && Has(rs[1..][j], a);
      assert rs[j + 1] == rs[1..][j];
      assert Has(rs[0], Address(rs, o));
    }
  }

  /** Distinct offsets give distinct addresses exactly when no two ranges overlap. */
  lemma InjectiveExactlyWhenDisjoint(rs: seq<Range>)
    ensures OffsetsInjective(rs) <==> Disjoint(rs)
  {
    if Disjoint(rs) {
      forall o, p | 0 <= o < p < Total(rs) ensures Address(rs, o) != Address(rs, p) {
        DisjointInjective(rs, o, p);
      }
    } else {
      var i, j, a: nat :| 0 <= i < j < |rs| && Has(rs[i], a) && Has(rs[j], a);
      var o := CoveredHasOffset(rs, i, a);
      var p := CoveredHasOffset(rs, j, a);
      TotalGrows(rs, i + 1, j);
      assert o < p;
    }
  }

  /** The offsets run through the ranges in order, and through each from its low end. */
  lemma {:induction false} OffsetsInOrder(rs: seq<Range>, i: nat, d: nat)
    requires i < |rs| && rs[i].lo + d <= rs[i].hi
    ensures Total(rs[..i]) + d < Total(rs) && Address(rs, Total(rs[..i]) + d) == rs[i].lo + d
  {
    if i > 0 {
      OffsetsInOrder(rs[1..], i - 1, d);
      assert rs[..i][1..] == rs[1..][..i - 1];
    } else {
      assert rs[..0] == [];
    }
  }

  /** The total is that of the sizes, an empty range counting nothing. */
  lemma {:induction false} TotalExactly(rs: seq<Range>, i: nat)
    requires i < |rs|
    ensures Total(rs[..0]) == 0
    ensures Total(rs[..i + 1]) == Total(rs[..i]) + (if rs[i].lo <= rs[i].hi then rs[i].hi - rs[i].lo + 1 else 0)
  {
    TotalPrefix(rs, i);
  }

  // ---- One cycle ----

  predicate Ascending(at: seq<nat>) { forall i, j :: 0 <= i < j < |at| ==> at[i] < at[j] }

  predicate ParsedAt(leases: seq<Option<nat>>, parsed: seq<nat>, at: seq<nat>) {
    && Ascending(at) && |parsed| == |at|
    && forall j :: 0 <= j < |at| ==> at[j] < |leases| && leases[at[j]] == Some(parsed[j])
  }

  lemma ParsedAtSnoc(leases: seq<Option<nat>>, parsed: seq<nat>, at: seq<nat>, l: Option<nat>)
    requires ParsedAt(leases, parsed, at)
    ensures ParsedAt(leases + [l], parsed, at)
    ensures l.Some? ==> ParsedAt(leases + [l], parsed + [l.value], at + [|leases|])
  {
    assert forall j :: 0 <= j < |at| ==> (leases + [l])[at[j]] == leases[at[j]];
  }

  lemma {:induction false} ParsedExactly(leases: seq<Option<nat>>) returns (at: seq<nat>)
    ensures ParsedAt(leases, Parsed(leases), at)
    ensures forall k: nat :: k in at <==> k < |leases| && leases[k].Some?
  {
    hide ParsedAt;
    if leases == [] {
      at := [];
      assert ParsedAt([], [], []) by { NothingParsed(); }
    } else {
      var n := |leases| - 1;
      var init, l := leases[..n], leases[n];
      at := ParsedExactly(init);
      ParsedAtSnoc(init, Parsed(init), at, l);
      assert leases == init + [l];
      ParsedNext(leases);
      hide Parsed;
      if l.Some? { at := at + [n]; }
    }
  }

  lemma NothingParsed()
    ensures ParsedAt([], [], [])
  {
  }

  lemma ParsedNext(leases: seq<Option<nat>>)
    requires leases != []
    ensures var init, l := leases[..|leases| - 1], leases[|leases| - 1];
            Parsed(leases) == if l.Some? then Parsed(init) + [l.value] else Parsed(init)
  {
  }

  lemma {:induction false} SweptExactly(rs: seq<Range>, cursor: nat, n: nat, probed: seq<nat>) returns (at: seq<nat>)
    requires Total(rs) > 0
    ensures Ascending(at) && |Swept(rs, cursor, n, probed)| == |at|
    ensures forall j :: 0 <= j < |at| ==> Swept(rs, cursor, n, probed)[j] == At(rs, cursor, at[j])
    ensures forall i: nat :: i in at <==> i < n && At(rs, cursor, i) !in probed
  {
    hide Address, Total;
    if n == 0 {
      at := [];
    } else {
      at := SweptExactly(rs, cursor, n - 1, probed);
      SweptNext(rs, cursor, n - 1, probed);
      if At(rs, cursor, n - 1) !in probed {
        assert forall i :: 0 <= i < |at| ==> at[i] in at;
        at := at + [n - 1];
      }
    }
  }

  /** One cycle probes, in order, the lease addresses that parse, and then those of the next
      min(32, total) sweep positions from the cursor that no lease had; the cursor moves past
      them, around the end. */
  lemma CycleExactly(rs: seq<Range>, cursor: nat, leases: seq<Option<nat>>)
    returns (parsed: seq<nat>, leased: seq<nat>, swept: seq<nat>)
    ensures ParsedAt(leases, parsed, leased)
    ensures forall k: nat :: k in leased <==> k < |leases| && leases[k].Some?
    ensures Total(rs) == 0 ==> Cycle(rs, cursor, leases) == parsed && NextCursor(rs, cursor) == cursor
    ensures Total(rs) > 0 ==>
              var n := if Total(rs) < 32 then Total(rs) else 32;
              && NextCursor(rs, cursor) == (cursor + n) % Total(rs)
              && Ascending(swept) && (forall i: nat :: i in swept <==> i < n && At(rs, cursor, i) !in parsed)
              && |Cycle(rs, cursor, leases)| == |parsed| + |swept| && Cycle(rs, cursor, leases)[..|parsed|] == parsed
              && forall j :: 0 <= j < |swept| ==> Cycle(rs, cursor, leases)[|parsed| + j] == At(rs, cursor, swept[j])
  {
    leased := ParsedExactly(leases);
    parsed := Parsed(leases);
    swept := [];
    if Total(rs) > 0 { swept := SweptExactly(rs, cursor, Chunk(rs), parsed); }
    hide Parsed, Swept, Total, At;
  }

  // ---- Whole runs ----

  /** Everything consecutive cycles probe; cycles[k] is the k-th cycle's lease list. */
  function Run(rs: seq<Range>, cursor: nat, cycles: seq<seq<Option<nat>>>): seq<nat>
    decreases |cycles|
  {
    if cycles == [] then []
    else Cycle(rs, cursor, cycles[0]) + Run(rs, NextCursor(rs, cursor), cycles[1..])
  }

  /** Among the first n sweep positions from cursor. */
  ghost predicate InWindow(rs: seq<Range>, cursor: nat, n: nat, a: nat)
    requires Total(rs) > 0
  {
    exists i: nat :: i < n && At(rs, cursor, i) == a
  }

  function At(rs: seq<Range>, cursor: nat, i: nat): nat
    requires Total(rs) > 0
  {
    Address(rs, (cursor + i) % Total(rs))
  }

  lemma {:induction false} SweptIsWindow(rs: seq<Range>, cursor: nat, n: nat, probed: seq<nat>, a: nat)
    requires Total(rs) > 0
    ensures a in Swept(rs, cursor, n, probed) <==> a !in probed && InWindow(rs, cursor, n, a)
  {
    if n > 0 {
      SweptIsWindow(rs, cursor, n - 1, probed, a);
      var last := n - 1;
      if InWindow(rs, cursor, n, a) && !InWindow(rs, cursor, n - 1, a) {
        var i: nat :| i < n && At(rs, cursor, i) == a;
        assert i == last;
      }
      assert At(rs, cursor, last) == Address(rs, (cursor + n - 1) % Total(rs));
    }
  }

  lemma CycleIsWindow(rs: seq<Range>, cursor: nat, leases: seq<Option<nat>>, a: nat)
    requires Total(rs) > 0
    ensures a in Cycle(rs, cursor, leases) <==> a in Parsed(leases) || InWindow(rs, cursor, Chunk(rs), a)
  {
    SweptIsWindow(rs, cursor, Chunk(rs), Parsed(leases), a);
  }

  lemma ModShift(c: nat, n: nat, i: nat, t: nat)
    requires t > 0
    ensures ((c + n) % t + i) % t == (c + (n + i)) % t
  {
    var q := (c + n) / t;
    assert c + n == q * t + (c + n) % t;
    ModPlusMultiple((c + n) % t + i, q, t);
  }

  lemma ModPlusMultiple(x: nat, q: nat, t: nat)
    requires t > 0
    ensures (x + q * t) % t == x % t
  {
    ModUnique(x + q * t, x / t + q, x % t, t);
  }

  lemma WindowShift(rs: seq<Range>, cursor: nat, n: nat, m: nat, a: nat)
    requires Total(rs) > 0
    ensures InWindow(rs, cursor, n + m, a)
            <==> InWindow(rs, cursor, n, a) || InWindow(rs, (cursor + n) % Total(rs), m, a)
  {
    var next := (cursor + n) % Total(rs);
    forall i: nat ensures At(rs, next, i) == At(rs, cursor, n + i) {
      ModShift(cursor, n, i, Total(rs));
    }
    if i: nat :| i < n + m && At(rs, cursor, i) == a && i >= n {
      assert At(rs, next, i - n) == a;
    }
    if i: nat :| i < m && At(rs, next, i) == a {
      assert At(rs, cursor, n + i) == a;
    }
  }

  ghost predicate Leased(cycles: seq<seq<Option<nat>>>, a: nat) {
    exists k :: 0 <= k < |cycles| && a in Parsed(cycles[k])
  }

  lemma RunSplit(rs: seq<Range>, cursor: nat, cycles: seq<seq<Option<nat>>>, a: nat)
    requires cycles != []
    ensures a in Run(rs, cursor, cycles)
            <==> a in Cycle(rs, cursor, cycles[0]) || a in Run(rs, NextCursor(rs, cursor), cycles[1..])
  {
    hide Cycle, NextCursor;
  }

  lemma RunStep(rs: seq<Range>, cursor: nat, cycles: seq<seq<Option<nat>>>, m: nat, a: nat)
    requires Total(rs) > 0 && cycles != []
    requires a in Run(rs, NextCursor(rs, cursor), cycles[1..])
             <==> Leased(cycles[1..], a) || InWindow(rs, NextCursor(rs, cursor), m, a)
    ensures a in Run(rs, cursor, cycles) <==> Leased(cycles, a) || InWindow(rs, cursor, Chunk(rs) + m, a)
  {
    hide Cycle, Leased, InWindow, NextCursor, Chunk, Parsed, Total, Run;
    RunSplit(rs, cursor, cycles, a);
    CycleIsWindow(rs, cursor, cycles[0], a);
    NextCursorIs(rs, cursor);
    WindowShift(rs, cursor, Chunk(rs), m, a);
    LeasedSplit(cycles, a);
  }

  /** A run probes the leases it was given and the sweep window as long as its cycles. */
  lemma {:induction false} RunIsWindow(rs: seq<Range>, cursor: nat, cycles: seq<seq<Option<nat>>>, a: nat)
    requires Total(rs) > 0
    ensures a in Run(rs, cursor, cycles)
            <==> Leased(cycles, a) || InWindow(rs, cursor, Reach(rs, |cycles|), a)
    decreases |cycles|
  {
    hide Cycle, Leased, InWindow, NextCursor, Chunk, Parsed, Total, Run, Reach;
    if cycles != [] {
      var rest := cycles[1..];
      RunIsWindow(rs, NextCursor(rs, cursor), rest, a);
      RunStep(rs, cursor, cycles, Reach(rs, |rest|), a);
      OneMore(rs, |rest|);
    } else {
      NoCycles(rs, cursor, a);
    }
  }

  lemma NoCycles(rs: seq<Range>, cursor: nat, a: nat)
    requires Total(rs) > 0
    ensures Run(rs, cursor, []) == [] && !Leased([], a) && !InWindow(rs, cursor, Reach(rs, 0), a)
  {
  }

  /** How many sweep positions k cycles walk through. */
  function Reach(rs: seq<Range>, k: nat): nat { k * Chunk(rs) }

  lemma OneMore(rs: seq<Range>, k: nat)
    ensures Reach(rs, k + 1) == Chunk(rs) + Reach(rs, k) && Reach(rs, 0) == 0
  {
    hide Chunk;
  }

  lemma NextCursorIs(rs: seq<Range>, cursor: nat)
    requires Total(rs) > 0
    ensures NextCursor(rs, cursor) == (cursor + Chunk(rs)) % Total(rs)
  {
  }

  lemma LeasedSplit(cycles: seq<seq<Option<nat>>>, a: nat)
    requires cycles != []
    ensures Leased(cycles, a) <==> a in Parsed(cycles[0]) || Leased(cycles[1..], a)
  {
    if k :| 0 <= k < |cycles[1..]| && a in Parsed(cycles[1..][k]) {
      assert cycles[k + 1] == cycles[1..][k];
    }
    if k :| 0 <= k < |cycles| && a in Parsed(cycles[k]) && k > 0 {
      assert cycles[1..][k - 1] == cycles[k];
    }
  }

  lemma EveryOffsetInTurn(cursor: nat, o: nat, t: nat) returns (i: nat)
    requires o < t
    ensures i < t && (cursor + i) % t == o
  {
    var c, q := cursor % t, cursor / t;
    i := if o >= c then o - c else o + t - c;
    if o >= c {
      ModUnique(cursor + i, q, o, t);
    } else {
      assert cursor + i == (q + 1) * t + o;
      ModUnique(cursor + i, q + 1, o, t);
    }
  }

  /** Enough cycles to add up to the whole sweep probe every address, from any cursor and
      whatever leases each cycle sees. */
  lemma EveryAddressProbed(rs: seq<Range>, cursor: nat, cycles: seq<seq<Option<nat>>>, a: nat)
    requires Covers(rs, a) && Reach(rs, |cycles|) >= Total(rs)
    ensures a in Run(rs, cursor, cycles)
  {
    OffsetsOntoRanges(rs, a);
    var o :| 0 <= o < Total(rs) && Address(rs, o) == a;
    var i := EveryOffsetInTurn(cursor, o, Total(rs));
    assert At(rs, cursor, i) == a;
    RunIsWindow(rs, cursor, cycles, a);
  }

  lemma DistinctInTurn(cursor: nat, i: nat, j: nat, t: nat)
    requires i < j < t
    ensures (cursor + i) % t != (cursor + j) % t
  {
    var q, r := (cursor + i) / t, (cursor + i) % t;
    var s := r + (j - i);
    if s < t {
      ModUnique(cursor + j, q, s, t);
    } else {
      assert cursor + j == (q + 1) * t + (s - t);
      ModUnique(cursor + j, q + 1, s - t, t);
    }
  }

  /** The bound is exact: over disjoint ranges, sweeping alone reaches every address
      precisely when the cycles add up to the whole sweep. */
  lemma CyclesNeeded(rs: seq<Range>, cursor: nat, cycles: seq<seq<Option<nat>>>)
    requires Disjoint(rs) && forall k :: 0 <= k < |cycles| ==> cycles[k] == []
    ensures (forall a: nat :: Covers(rs, a) ==> a in Run(rs, cursor, cycles))
            <==> Reach(rs, |cycles|) >= Total(rs)
  {
    var reach, t := Reach(rs, |cycles|), Total(rs);
    if reach < t {
      var a := At(rs, cursor, reach);
      AddressCovered(rs, (cursor + reach) % t);
      RunIsWindow(rs, cursor, cycles, a);
      if i: nat :| i < reach && At(rs, cursor, i) == a {
        DistinctInTurn(cursor, i, reach, t);
        InjectiveExactlyWhenDisjoint(rs);
        assert false;
      }
      assert a !in Run(rs, cursor, cycles);
    } else {
      forall a: nat | Covers(rs, a) ensures a in Run(rs, cursor, cycles) {
        EveryAddressProbed(rs, cursor, cycles, a);
      }
    }
  }

  /** ceil(total / chunk) cycles are enough, and one fewer is not. */
  function CyclesFor(rs: seq<Range>): nat {
    if Total(rs) == 0 then 0 else (Total(rs) + Chunk(rs) - 1) / Chunk(rs)
  }

  lemma CyclesForIsLeast(rs: seq<Range>, k: nat)
    ensures Reach(rs, k) >= Total(rs) <==> k >= CyclesFor(rs)
  {
    if Total(rs) > 0 {
      CeilDivides(Total(rs), Chunk(rs), k);
    }
  }

  lemma CeilDivides(t: nat, n: nat, k: nat)
    requires n > 0
    ensures k * n >= t <==> k >= (t + n - 1) / n
  {
    var c := (t + n - 1) / n;
    var r := (t + n - 1) % n;
    assert t + n - 1 == n * c + r;
    CeilBounds(t, n, c, r);
    if k >= c {
      MulMonotone(c, k, n);
    } else {
      MulMonotone(k, c - 1, n);
    }
  }

  lemma CeilBounds(t: int, n: int, c: int, r: int)
    requires 0 <= r < n && t + n - 1 == n * c + r
    ensures t <= c * n && (c - 1) * n < t
  {
    assert n * c == c * n && (c - 1) * n == c * n - n;
  }
}
