/** RemapReservationSubnets end to end: plan from the rows of the table, then execute. */
module RemapRun {
  import opened Common
  import P = RemapPlan
  import T = RemapTheorems
  import M = RemapMethod
  import X = RemapExecutor

  /** A scope's network, None for an unparseable CIDR. */
  datatype Net = Net(base: nat, size: nat)

  predicate Contains(n: Net, ip: nat) { n.base <= ip < n.base + n.size }

  /** SubnetMatcherForScopes: the position, from 1, of the first network holding ip. */
  function SubnetFor(nets: seq<Option<Net>>, ip: nat): (r: Option<int>)
    ensures r.Some? ==> 1 <= r.value <= |nets| && nets[r.value - 1].Some? && Contains(nets[r.value - 1].value, ip)
    ensures forall i :: 0 <= i < (if r.Some? then r.value - 1 else |nets|) ==>
            nets[i].None? || !Contains(nets[i].value, ip)
  {
    if nets == [] then None
    else
      var init := SubnetFor(nets[..|nets| - 1], ip);
      if init.Some? then init
      else if nets[|nets| - 1].Some? && Contains(nets[|nets| - 1].value, ip) then Some(|nets|)
      else None
  }

  method MatchSubnet(nets: seq<Option<Net>>, ip: nat) returns (r: Option<int>)
    ensures r == SubnetFor(nets, ip)
  {
    var i := 0;
    while i < |nets|
      invariant 0 <= i <= |nets|
      invariant forall j :: 0 <= j < i ==> nets[j].None? || !Contains(nets[j].value, ip)
    {
      if nets[i].Some? && Contains(nets[i].value, ip) {
        return Some(i + 1);
      }
      i := i + 1;
    }
    r := None;
  }

  function TripleOf(r: P.HostRow): X.Triple { X.Triple(r.identifier, r.idType, r.subnet) }
  function PayloadOf(r: P.HostRow): X.Payload { X.Payload(r.ip, r.hostname) }

  /** The hosts table holding these rows. */
  function TableOf(rows: seq<P.HostRow>): X.Table {
    if rows == [] then map[] else TableOf(rows[..|rows| - 1])[TripleOf(rows[|rows| - 1]) := PayloadOf(rows[|rows| - 1])]
  }

  lemma SameTripleSameKey(r: P.HostRow, s: P.HostRow)
    ensures TripleOf(r) == TripleOf(s) <==> P.Key(r) == P.Key(s)
  {
    P.HostKeyInjective(r.identifier, r.idType, r.subnet, s.identifier, s.idType, s.subnet);
  }

  lemma {:induction false} TableOfKeys(rows: seq<P.HostRow>)
    ensures forall t :: t in TableOf(rows) <==> exists k :: 0 <= k < |rows| && TripleOf(rows[k]) == t
  {
    if rows != [] {
      TableOfKeys(rows[..|rows| - 1]);
      hide TripleOf, PayloadOf;
      assert rows == rows[..|rows| - 1] + [rows[|rows| - 1]];
      forall t | t in TableOf(rows) ensures exists k :: 0 <= k < |rows| && TripleOf(rows[k]) == t {
        if t in TableOf(rows[..|rows| - 1]) {
          var k :| 0 <= k < |rows| - 1 && TripleOf(rows[..|rows| - 1][k]) == t;
          assert TripleOf(rows[k]) == t;
        }
      }
    }
  }

  lemma {:induction false} TableOfValues(rows: seq<P.HostRow>)
    requires T.DistinctKeys(rows)
    ensures forall k :: 0 <= k < |rows| ==>
            TripleOf(rows[k]) in TableOf(rows) && TableOf(rows)[TripleOf(rows[k])] == PayloadOf(rows[k])
  {
    if rows != [] {
      var n := |rows| - 1;
      TableOfValues(rows[..n]);
      forall k | 0 <= k < n ensures TripleOf(rows[k]) != TripleOf(rows[n]) && rows[..n][k] == rows[k] {
        SameTripleSameKey(rows[k], rows[n]);
        hide TripleOf, P.Key;
      }
      hide TripleOf, PayloadOf, T.DistinctKeys;
      var before, t := TableOf(rows[..n]), TableOf(rows);
      assert t == before[TripleOf(rows[n]) := PayloadOf(rows[n])];
      forall k | 0 <= k < |rows| ensures TripleOf(rows[k]) in t && t[TripleOf(rows[k])] == PayloadOf(rows[k]) {
        if k < n {
          assert rows[..n][k] == rows[k];
          assert TripleOf(rows[k]) != TripleOf(rows[n]);
        }
      }
    }
  }

  /** The statements for the plan's moves. */
  function Updates(moves: seq<P.SubnetRemap>): seq<X.SubnetIDUpdate> {
    seq(|moves|, i requires 0 <= i < |moves| =>
      X.SubnetIDUpdate(moves[i].row.identifier, moves[i].row.idType, moves[i].row.subnet, moves[i].newID))
  }

  /** The positions of the rows that move. */
  function MovedRows(rows: seq<P.HostRow>, f: P.SubnetFor, d: set<nat>, n: nat): seq<nat>
    requires n <= |rows|
  {
    if n == 0 then []
    else MovedRows(rows, f, d, n - 1) + (if P.Mover(rows[n - 1], f) && n - 1 !in d then [n - 1] else [])
  }

  lemma {:induction false} MovedRowsExact(rows: seq<P.HostRow>, f: P.SubnetFor, d: set<nat>, n: nat)
    requires n <= |rows|
    ensures var idx := MovedRows(rows, f, d, n);
            && (forall i :: 0 <= i < |idx| ==> idx[i] < n && P.Mover(rows[idx[i]], f) && idx[i] !in d)
            && (forall i, j :: 0 <= i < j < |idx| ==> idx[i] < idx[j])
            && (forall k :: 0 <= k < n && P.Mover(rows[k], f) && k !in d ==> k in idx)
  {
    if n > 0 { MovedRowsExact(rows, f, d, n - 1); }
  }

  lemma {:induction false} ReportedAreMovedRows(rows: seq<P.HostRow>, f: P.SubnetFor, d: set<nat>, n: nat)
    requires n <= |rows|
    ensures var moves := P.Reported(rows, f, d, n, false);
            && |moves| == |MovedRows(rows, f, d, n)|
            && forall i :: 0 <= i < |moves| ==>
                 var k := MovedRows(rows, f, d, n)[i];
                 k < n && P.Mover(rows[k], f) && moves[i] == P.SubnetRemap(rows[k], f(rows[k].ip).value)
  {
    if n > 0 { ReportedAreMovedRows(rows, f, d, n - 1); }
  }

  // ---- Executing the plan yields the planned table ----

  /** Ids the renderer assigns are far below the park range. */
  predicate BelowPark(rows: seq<P.HostRow>, f: P.SubnetFor) {
    && (forall k :: 0 <= k < |rows| ==> rows[k].subnet < X.PARK_BASE)
    && (forall k :: 0 <= k < |rows| && f(rows[k].ip).Some? ==> f(rows[k].ip).value < X.PARK_BASE)
  }

  ghost function PlannedUpdates(rows: seq<P.HostRow>, f: P.SubnetFor): seq<X.SubnetIDUpdate> {
    Updates(P.Reported(rows, f, P.Demoted(rows, f), |rows|, false))
  }

  ghost function Planned(rows: seq<P.HostRow>, f: P.SubnetFor): seq<P.HostRow> {
    T.After(rows, f, P.Demoted(rows, f))
  }

  /** The i-th statement moves row k from its old triple to its planned one. */
  lemma UpdateOfRow(rows: seq<P.HostRow>, f: P.SubnetFor, i: nat) returns (k: nat)
    requires i < |PlannedUpdates(rows, f)|
    ensures k < |rows| && P.Mover(rows[k], f) && k !in P.Demoted(rows, f)
    ensures i < |MovedRows(rows, f, P.Demoted(rows, f), |rows|)|
            && k == MovedRows(rows, f, P.Demoted(rows, f), |rows|)[i]
    ensures X.OldKey(PlannedUpdates(rows, f)[i]) == TripleOf(rows[k])
    ensures X.NewKey(PlannedUpdates(rows, f)[i]) == TripleOf(Planned(rows, f)[k])
    ensures PlannedUpdates(rows, f)[i].newSubnetID == f(rows[k].ip).value
    ensures PayloadOf(Planned(rows, f)[k]) == PayloadOf(rows[k])
  {
    var d := P.Demoted(rows, f);
    ReportedAreMovedRows(rows, f, d, |rows|);
    MovedRowsExact(rows, f, d, |rows|);
    k := MovedRows(rows, f, d, |rows|)[i];
  }

  /** Every row that moves has its statement. */
  lemma RowOfUpdate(rows: seq<P.HostRow>, f: P.SubnetFor, k: nat) returns (i: nat)
    requires k < |rows| && P.Mover(rows[k], f) && k !in P.Demoted(rows, f)
    ensures i < |PlannedUpdates(rows, f)| && X.OldKey(PlannedUpdates(rows, f)[i]) == TripleOf(rows[k])
    ensures X.NewKey(PlannedUpdates(rows, f)[i]) == TripleOf(Planned(rows, f)[k])
  {
    var d := P.Demoted(rows, f);
    ReportedAreMovedRows(rows, f, d, |rows|);
    MovedRowsExact(rows, f, d, |rows|);
    i :| 0 <= i < |MovedRows(rows, f, d, |rows|)| && MovedRows(rows, f, d, |rows|)[i] == k;
  }

  lemma DistinctTriples(rows: seq<P.HostRow>, j: nat, k: nat)
    requires T.DistinctKeys(rows) && j < |rows| && k < |rows| && TripleOf(rows[j]) == TripleOf(rows[k])
    ensures j == k
  {
    SameTripleSameKey(rows[j], rows[k]);
    T.SameKey(rows, j, k);
  }

  /** The plan's moves are consistent with the table they were planned from. */
  lemma PlanIsConsistent(rows: seq<P.HostRow>, f: P.SubnetFor)
    requires T.DistinctKeys(rows) && BelowPark(rows, f)
    ensures X.Consistent(TableOf(rows), PlannedUpdates(rows, f))
  {
    var t, moves, d := TableOf(rows), PlannedUpdates(rows, f), P.Demoted(rows, f);
    var after := Planned(rows, f);
    assert |after| == |rows|;
    TableOfKeys(rows);
    T.PlanKeepsKeysDistinct(rows, f);
    MovedRowsExact(rows, f, d, |rows|);
    hide TableOf, PlannedUpdates, TripleOf, P.Demoted, P.Key, MovedRows, P.Mover;
    forall k | k in t ensures k.subnet < X.PARK_BASE {
      var r :| 0 <= r < |rows| && TripleOf(rows[r]) == k;
      TripleSubnet(rows[r]);
    }
    forall i | 0 <= i < |moves| ensures X.OldKey(moves[i]) in t && moves[i].newSubnetID < X.PARK_BASE {
      var k := UpdateOfRow(rows, f, i);
      MoverHasTarget(rows[k], f);
    }
    forall i, j | 0 <= i < j < |moves|
      ensures X.OldKey(moves[i]) != X.OldKey(moves[j]) && X.NewKey(moves[i]) != X.NewKey(moves[j]) {
      var a := UpdateOfRow(rows, f, i);
      var b := UpdateOfRow(rows, f, j);
      if TripleOf(rows[a]) == TripleOf(rows[b]) { DistinctTriples(rows, a, b); }
      if TripleOf(after[a]) == TripleOf(after[b]) { DistinctTriples(after, a, b); }
    }
    forall i | 0 <= i < |moves| && X.NewKey(moves[i]) in t ensures X.NewKey(moves[i]) in X.OldKeys(moves, |moves|) {
      var k := UpdateOfRow(rows, f, i);
      var j: nat :| j < |rows| && TripleOf(rows[j]) == X.NewKey(moves[i]);
      HolderMoves(rows, f, j, k);
      var q := RowOfUpdate(rows, f, j);
    }
  }

  lemma TripleSubnet(r: P.HostRow)
    ensures TripleOf(r).subnet == r.subnet
  {
  }

  lemma MoverHasTarget(r: P.HostRow, f: P.SubnetFor)
    requires P.Mover(r, f)
    ensures f(r.ip).Some?
  {
  }

  /** A row holding a mover's target in the old table moves away. */
  lemma HolderMoves(rows: seq<P.HostRow>, f: P.SubnetFor, j: nat, k: nat)
    requires T.DistinctKeys(rows) && T.DistinctKeys(Planned(rows, f)) && j < |rows| && k < |rows|
    requires P.Mover(rows[k], f) && k !in P.Demoted(rows, f)
    requires TripleOf(rows[j]) == TripleOf(Planned(rows, f)[k])
    ensures P.Mover(rows[j], f) && j !in P.Demoted(rows, f)
  {
    UnmovedRow(rows, f, j);
    DistinctTriplesImply(Planned(rows, f), j, k);
    P.NewKeyDiffers(rows[k], f);
  }

  lemma UnmovedRow(rows: seq<P.HostRow>, f: P.SubnetFor, j: nat)
    requires j < |rows|
    ensures |Planned(rows, f)| == |rows|
    ensures Planned(rows, f)[j] == rows[j] || (P.Mover(rows[j], f) && j !in P.Demoted(rows, f))
  {
  }

  lemma DistinctTriplesImply(rows: seq<P.HostRow>, j: nat, k: nat)
    requires T.DistinctKeys(rows) && j < |rows| && k < |rows|
    ensures TripleOf(rows[j]) == TripleOf(rows[k]) ==> j == k
  {
    if TripleOf(rows[j]) == TripleOf(rows[k]) { DistinctTriples(rows, j, k); }
  }

  /** After the transaction the table holds exactly the planned rows. */
  lemma PlanExecutes(rows: seq<P.HostRow>, f: P.SubnetFor)
    requires T.DistinctKeys(rows) && BelowPark(rows, f)
    ensures X.Transact(TableOf(rows), PlannedUpdates(rows, f)) == Some(TableOf(Planned(rows, f)))
  {
    var t, moves, after := TableOf(rows), PlannedUpdates(rows, f), Planned(rows, f);
    PlanIsConsistent(rows, f);
    X.TwoPhaseIsSimultaneous(t, moves);
    SimultaneousIsPlanned(rows, f);
  }

  lemma SimultaneousIsPlanned(rows: seq<P.HostRow>, f: P.SubnetFor)
    requires T.DistinctKeys(rows) && X.Consistent(TableOf(rows), PlannedUpdates(rows, f))
    ensures X.Simultaneous(TableOf(rows), PlannedUpdates(rows, f)) == TableOf(Planned(rows, f))
  {
    var u, v := X.Simultaneous(TableOf(rows), PlannedUpdates(rows, f)), TableOf(Planned(rows, f));
    T.PlanKeepsKeysDistinct(rows, f);
    hide TableOf, PlannedUpdates, Planned, X.Simultaneous, X.Consistent;
    forall x | x in u ensures x in v { SimultaneousKeyPlanned(rows, f, x); }
    forall x | x in v ensures x in u && u[x] == v[x] { PlannedKeySimultaneous(rows, f, x); }
    assert u.Keys == v.Keys;
  }

  lemma SimultaneousKeyPlanned(rows: seq<P.HostRow>, f: P.SubnetFor, x: X.Triple)
    requires T.DistinctKeys(rows) && X.Consistent(TableOf(rows), PlannedUpdates(rows, f))
    requires x in X.Simultaneous(TableOf(rows), PlannedUpdates(rows, f))
    ensures x in TableOf(Planned(rows, f))
  {
    hide TableOf, PlannedUpdates, Planned, X.Simultaneous, X.Consistent, X.OldKeys, X.OldKey, X.NewKey, T.DistinctKeys,
         TripleOf;
    var t, moves := TableOf(rows), PlannedUpdates(rows, f);
    X.SimultaneousRows(t, moves);
    if x in t && x !in X.OldKeys(moves, |moves|) {
      StayingPlanned(rows, f, x);
    } else {
      var i :| 0 <= i < |moves| && x == X.NewKey(moves[i]);
      MovedPlanned(rows, f, i);
    }
  }

  lemma StayingPlanned(rows: seq<P.HostRow>, f: P.SubnetFor, x: X.Triple)
    requires x in TableOf(rows) && x !in X.OldKeys(PlannedUpdates(rows, f), |PlannedUpdates(rows, f)|)
    ensures x in TableOf(Planned(rows, f))
  {
    hide TableOf, PlannedUpdates, X.OldKeys, TripleOf;
    TableOfKeys(rows);
    TableOfKeys(Planned(rows, f));
    var k :| 0 <= k < |rows| && TripleOf(rows[k]) == x;
    StayingRow(rows, f, k);
    assert TripleOf(Planned(rows, f)[k]) in TableOf(Planned(rows, f));
  }

  lemma MovedPlanned(rows: seq<P.HostRow>, f: P.SubnetFor, i: nat)
    requires i < |PlannedUpdates(rows, f)|
    ensures X.NewKey(PlannedUpdates(rows, f)[i]) in TableOf(Planned(rows, f))
  {
    hide TableOf, PlannedUpdates, TripleOf, X.NewKey;
    var k := UpdateOfRow(rows, f, i);
    TableOfKeys(Planned(rows, f));
    assert TripleOf(Planned(rows, f)[k]) in TableOf(Planned(rows, f));
  }

  lemma PlannedKeySimultaneous(rows: seq<P.HostRow>, f: P.SubnetFor, x: X.Triple)
    requires T.DistinctKeys(rows) && X.Consistent(TableOf(rows), PlannedUpdates(rows, f))
    requires T.DistinctKeys(Planned(rows, f)) && x in TableOf(Planned(rows, f))
    ensures var u := X.Simultaneous(TableOf(rows), PlannedUpdates(rows, f));
            x in u && u[x] == TableOf(Planned(rows, f))[x]
  {
    var after := Planned(rows, f);
    TableOfKeys(after);
    TableOfValues(after);
    assert |after| == |rows|;
    hide TableOf, PlannedUpdates, Planned, TripleOf, PayloadOf, X.Simultaneous, X.Consistent;
    var k :| 0 <= k < |after| && TripleOf(after[k]) == x;
    PlannedRowInTable(rows, f, k);
  }

  /** A row whose old triple no statement touches stays as it is. */
  lemma StayingRow(rows: seq<P.HostRow>, f: P.SubnetFor, k: nat)
    requires k < |rows|
    requires TripleOf(rows[k]) !in X.OldKeys(PlannedUpdates(rows, f), |PlannedUpdates(rows, f)|)
    ensures k < |Planned(rows, f)| && Planned(rows, f)[k] == rows[k]
  {
    UnmovedRow(rows, f, k);
    hide Planned, PlannedUpdates, TripleOf, X.OldKeys, P.Demoted, P.Mover;
    if P.Mover(rows[k], f) && k !in P.Demoted(rows, f) {
      MovedRowInOldKeys(rows, f, k);
    }
  }

  lemma MovedRowInOldKeys(rows: seq<P.HostRow>, f: P.SubnetFor, k: nat)
    requires k < |rows| && P.Mover(rows[k], f) && k !in P.Demoted(rows, f)
    ensures TripleOf(rows[k]) in X.OldKeys(PlannedUpdates(rows, f), |PlannedUpdates(rows, f)|)
  {
    var i := RowOfUpdate(rows, f, k);
  }

  /** Each planned row is in the simultaneous result under its planned triple. */
  lemma PlannedRowInTable(rows: seq<P.HostRow>, f: P.SubnetFor, k: nat)
    requires T.DistinctKeys(rows) && X.Consistent(TableOf(rows), PlannedUpdates(rows, f)) && k < |rows|
    ensures k < |Planned(rows, f)|
    ensures var u, x := X.Simultaneous(TableOf(rows), PlannedUpdates(rows, f)), TripleOf(Planned(rows, f)[k]);
            x in u && u[x] == PayloadOf(Planned(rows, f)[k])
  {
    var t, moves, after := TableOf(rows), PlannedUpdates(rows, f), Planned(rows, f);
    assert |after| == |rows|;
    X.SimultaneousRows(t, moves);
    TableOfValues(rows);
    hide TableOf, TripleOf, PayloadOf, X.Simultaneous, X.Consistent, X.OldKeys, X.OldKey, X.NewKey;
    if TripleOf(rows[k]) in X.OldKeys(moves, |moves|) {
      var i := OldKeyIndex(moves, TripleOf(rows[k]));
      var j := UpdateOfRow(rows, f, i);
      DistinctTriples(rows, j, k);
    } else {
      StayingRow(rows, f, k);
    }
  }

  lemma OldKeyIndex(moves: seq<X.SubnetIDUpdate>, x: X.Triple) returns (i: nat)
    requires x in X.OldKeys(moves, |moves|)
    ensures i < |moves| && X.OldKey(moves[i]) == x
  {
    i :| 0 <= i < |moves| && X.OldKey(moves[i]) == x;
  }

  /** One reconcile: plan from the rows that were read, then execute on the table, which
      another writer may have changed since. The plan is the same whatever the outcome; the
      table holds the transaction's result, or is untouched when a statement is rejected.
      On the table that was read it is never rejected, and the planned rows result. */
  method RemapReservationSubnets(table: X.HostsTable, rows: seq<P.HostRow>, f: P.SubnetFor)
    returns (moves: seq<P.SubnetRemap>, orphans: seq<P.HostRow>, skipped: seq<P.SubnetRemap>, ok: bool)
    modifies table
    ensures moves == P.Reported(rows, f, P.Demoted(rows, f), |rows|, false)
    ensures skipped == P.Reported(rows, f, P.Demoted(rows, f), |rows|, true)
    ensures orphans == P.Orphans(rows, f)
    ensures ok <==> X.Transact(old(table.rows), PlannedUpdates(rows, f)).Some?
    ensures table.rows == if ok then X.Transact(old(table.rows), PlannedUpdates(rows, f)).value else old(table.rows)
    ensures T.DistinctKeys(rows) && BelowPark(rows, f) && old(table.rows) == TableOf(rows)
            ==> ok && table.rows == TableOf(Planned(rows, f))
  {
    ghost var before := table.rows;
    moves, orphans, skipped := M.PlanSubnetRemaps(rows, f);
    var updates := Updates(moves);
    assert updates == PlannedUpdates(rows, f);
    hide TableOf, X.Transact, Updates, P.Reported, P.Demoted, P.Orphans, Planned, T.DistinctKeys, BelowPark,
         PlannedUpdates;
    if T.DistinctKeys(rows) && BelowPark(rows, f) && before == TableOf(rows) {
      PlanExecutes(rows, f);
    }
    ok := true;
    if |moves| > 0 {
      ok := table.UpdateReservationSubnets(updates);
    } else {
      NoUpdates(before, rows, f);
    }
  }

  lemma NoUpdates(t: X.Table, rows: seq<P.HostRow>, f: P.SubnetFor)
    requires |P.Reported(rows, f, P.Demoted(rows, f), |rows|, false)| == 0
    ensures X.Transact(t, PlannedUpdates(rows, f)) == Some(t)
  {
  }

  /** Re-planning after a successful run, in the same row order, reports no move. */
  lemma {:induction false} SecondRunPlansNothing(rows: seq<P.HostRow>, f: P.SubnetFor, n: nat)
    requires n <= |rows|
    ensures |Planned(rows, f)| == |rows|
    ensures P.Reported(Planned(rows, f), f, P.Demoted(Planned(rows, f), f), n, false) == []
  {
    T.ReplanMovesNothing(rows, f);
    if n > 0 { SecondRunPlansNothing(rows, f, n - 1); }
  }
}
