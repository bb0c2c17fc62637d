/** What the plan guarantees about the table it leads to. */
module RemapTheorems {
  import opened Common
  import opened RemapPlan

  ghost predicate DistinctKeys(rows: seq<HostRow>) {
    forall i, j :: 0 <= i < j < |rows| ==> Key(rows[i]) != Key(rows[j])
  }

  /** Row k after the movers outside `demoted` have moved. */
  function AfterRow(rows: seq<HostRow>, f: SubnetFor, demoted: set<nat>, k: nat): HostRow
    requires k < |rows|
  {
    if Mover(rows[k], f) && k !in demoted then rows[k].(subnet := f(rows[k].ip).value) else rows[k]
  }

  function After(rows: seq<HostRow>, f: SubnetFor, demoted: set<nat>): seq<HostRow> {
    seq(|rows|, k requires 0 <= k < |rows| => AfterRow(rows, f, demoted, k))
  }

  lemma AfterKey(rows: seq<HostRow>, f: SubnetFor, demoted: set<nat>, k: nat)
    requires k < |rows|
    ensures Key(After(rows, f, demoted)[k]) ==
            if Mover(rows[k], f) && k !in demoted then NewKey(rows[k], f) else Key(rows[k])
  {
  }

  /** The planned table keeps Kea's key unique. */
  lemma PlanKeepsKeysDistinct(rows: seq<HostRow>, f: SubnetFor)
    requires DistinctKeys(rows)
    ensures DistinctKeys(After(rows, f, Demoted(rows, f)))
  {
    DemotedIsClosed(rows, f);
    ClosedKeepsKeysDistinct(rows, f, Demoted(rows, f));
  }

  lemma ClosedKeepsKeysDistinct(rows: seq<HostRow>, f: SubnetFor, d: set<nat>)
    requires DistinctKeys(rows) && Closed(rows, f, d)
    ensures DistinctKeys(After(rows, f, d))
  {
    hide Key, NewKey, Mover;
    forall i, j | 0 <= i < j < |rows| ensures Key(After(rows, f, d)[i]) != Key(After(rows, f, d)[j]) {
      AfterKey(rows, f, d, i);
      AfterKey(rows, f, d, j);
      assert !Rival(rows, f, i, j) || j in d;
      assert !Blocks(rows, f, d, i, j) || j in d;
      assert !Blocks(rows, f, d, j, i) || i in d;
    }
  }

  /** Row k's target is held by another row of the planned table. */
  ghost predicate TargetTaken(rows: seq<HostRow>, f: SubnetFor, k: nat)
    requires k < |rows| && Mover(rows[k], f)
  {
    exists q: nat :: q < |rows| && q != k && Key(After(rows, f, Demoted(rows, f))[q]) == NewKey(rows[k], f)
  }

  predicate SameTarget(rows: seq<HostRow>, f: SubnetFor, j: nat, k: nat)
    requires k < |rows| && Mover(rows[k], f)
  {
    j < |rows| && Mover(rows[j], f) && NewKey(rows[j], f) == NewKey(rows[k], f)
  }

  /** No skip is needless: were a skipped row's target free, the first skipped row with
      that target could be left out of a closed set. */
  lemma SkippedTargetsAreTaken(rows: seq<HostRow>, f: SubnetFor, k: nat)
    requires k in Demoted(rows, f)
    ensures k < |rows| && Mover(rows[k], f) && TargetTaken(rows, f, k)
  {
    DemotedAreMovers(rows, f);
    var m := FirstDemotedWith(rows, f, k, k);
    FirstSkipIsAvoidable(rows, f, k, m);
    assert Unavoidable(rows, f, m);
  }

  lemma {:induction false} FirstDemotedWith(rows: seq<HostRow>, f: SubnetFor, k: nat, m0: nat) returns (m: nat)
    requires k < |rows| && Mover(rows[k], f)
    requires m0 in Demoted(rows, f) && SameTarget(rows, f, m0, k)
    ensures m in Demoted(rows, f) && SameTarget(rows, f, m, k)
    ensures forall j :: j in Demoted(rows, f) && SameTarget(rows, f, j, k) ==> m <= j
    decreases m0
  {
    hide Demoted, SameTarget;
    if j: nat :| j < m0 && j in Demoted(rows, f) && SameTarget(rows, f, j, k) {
      m := FirstDemotedWith(rows, f, k, j);
    } else {
      m := m0;
    }
  }

  lemma FirstSkipIsAvoidable(rows: seq<HostRow>, f: SubnetFor, k: nat, m: nat)
    requires k in Demoted(rows, f) && k < |rows| && Mover(rows[k], f)
    requires m in Demoted(rows, f) && SameTarget(rows, f, m, k)
    requires forall j :: j in Demoted(rows, f) && SameTarget(rows, f, j, k) ==> m <= j
    ensures !TargetTaken(rows, f, k) ==> Closed(rows, f, Demoted(rows, f) - {m})
  {
    var d := Demoted(rows, f);
    var t := d - {m};
    DemotedIsClosed(rows, f);
    hide Demoted, Key, NewKey;
    if !TargetTaken(rows, f, k) {
      forall j, x | 0 <= j < |rows| && 0 <= x < |rows| && Rival(rows, f, j, x) ensures x in t {
        if x == m {
          assert SameTarget(rows, f, j, k);
          AfterKey(rows, f, d, j);
        }
      }
      forall j, x | 0 <= j < |rows| && 0 <= x < |rows| && Blocks(rows, f, t, j, x) ensures x in t {
        assert Blocks(rows, f, d, j, x);
        if x == m {
          AfterKey(rows, f, d, j);
          NewKeyDiffers(rows[k], f);
        }
      }
    }
  }

  /** Moving a blocked row onto its blocker's key gives two rows one key. */
  lemma BlockedRowsClash(rows: seq<HostRow>, f: SubnetFor, left: set<nat>, j: nat, k: nat)
    requires j < |rows| && k < |rows| && Blocks(rows, f, left, j, k)
    ensures k in left || !DistinctKeys(After(rows, f, left))
  {
    hide Key, NewKey;
    var after := After(rows, f, left);
    AfterKey(rows, f, left, j);
    AfterKey(rows, f, left, k);
    NewKeyDiffers(rows[k], f);
    if DistinctKeys(after) && k !in left {
      SameKey(after, j, k);
    }
  }

  /** Among the sets of movers that can be left in place without two rows sharing a key,
      those that contain the skipped rows are exactly the first-come ones: of the movers
      that want one target, only the first in row order may go. So first come, first
      served cannot leave fewer rows than this plan skips. */
  lemma FirstComeLeavesLeast(rows: seq<HostRow>, f: SubnetFor, left: set<nat>)
    requires DistinctKeys(After(rows, f, left))
    ensures Demoted(rows, f) <= left
            <==> forall j, k :: 0 <= j < |rows| && 0 <= k < |rows| && Rival(rows, f, j, k) ==> k in left
  {
    hide Key, NewKey;
    if forall j, k :: 0 <= j < |rows| && 0 <= k < |rows| && Rival(rows, f, j, k) ==> k in left {
      forall j, k | 0 <= j < |rows| && 0 <= k < |rows| && Blocks(rows, f, left, j, k) ensures k in left {
        BlockedRowsClash(rows, f, left, j, k);
      }
      assert Closed(rows, f, left);
      forall k | k in Demoted(rows, f) ensures k in left {
        assert Unavoidable(rows, f, k);
      }
    }
    if Demoted(rows, f) <= left {
      DemotedIsClosed(rows, f);
    }
  }

  /** One device's rows on subnets 1, 2, 3, 4, 6, whose addresses are now in 5, 5, 1, 2, 4. */
  function ChainRow(subnet: int, target: nat): HostRow { HostRow("d", 0, subnet, target, "") }

  const CHAIN: seq<HostRow> := [ChainRow(1, 5), ChainRow(2, 5), ChainRow(3, 1), ChainRow(4, 2), ChainRow(6, 4)]

  function ChainTarget(ip: nat): Option<int> { Some(ip) }

  lemma SameDevice(r: HostRow, s: HostRow)
    requires r.identifier == s.identifier && r.idType == s.idType
    ensures Key(r) == Key(s) <==> r.subnet == s.subnet
  {
    HostKeyInjective(r.identifier, r.idType, r.subnet, s.identifier, s.idType, s.subnet);
  }

  /** For one device's rows, keys are subnets. */
  lemma ChainRivals(j: nat, k: nat)
    requires j < 5 && k < 5
    ensures Rival(CHAIN, ChainTarget, j, k) <==> j < k && CHAIN[j].ip == CHAIN[k].ip
  {
    var r, s := CHAIN[j], CHAIN[k];
    SameDevice(r.(subnet := r.ip), s.(subnet := s.ip));
    hide HostKey;
  }

  lemma ChainBlocks(d: set<nat>, j: nat, k: nat)
    requires j < 5 && k < 5
    ensures Blocks(CHAIN, ChainTarget, d, j, k) <==> j in d && CHAIN[j].subnet == CHAIN[k].ip
  {
    var r, s := CHAIN[j], CHAIN[k];
    SameDevice(r, s.(subnet := s.ip));
    hide HostKey;
  }

  /** Serving a later mover first can move more: leaving rows 0 and 2 moves three rows of
      the chain, while the plan gives row 0 its target and has to skip rows 1, 3 and 4. */
  lemma LaterMoverFirstCanMoveMore()
    ensures |CHAIN| == 5 && forall k :: 0 <= k < 5 ==> Mover(CHAIN[k], ChainTarget)
    ensures DistinctKeys(CHAIN) && DistinctKeys(After(CHAIN, ChainTarget, {0, 2}))
    ensures Demoted(CHAIN, ChainTarget) == {1, 3, 4}
  {
    ChainDistinct({0, 1, 2, 3, 4});
    ChainDistinct({0, 2});
    assert After(CHAIN, ChainTarget, {0, 1, 2, 3, 4}) == CHAIN;
    ChainDemoted();
  }

  lemma ChainDistinct(left: set<nat>)
    requires left == {0, 1, 2, 3, 4} || left == {0, 2}
    ensures DistinctKeys(After(CHAIN, ChainTarget, left))
  {
    var after := After(CHAIN, ChainTarget, left);
    ChainSubnets(left);
    hide Key, CHAIN, After;
    forall i, j | 0 <= i < j < |after| ensures Key(after[i]) != Key(after[j]) {
      SameDevice(after[i], after[j]);
    }
  }

  lemma ChainSubnets(left: set<nat>)
    requires left == {0, 1, 2, 3, 4} || left == {0, 2}
    ensures forall i, j :: 0 <= i < j < |After(CHAIN, ChainTarget, left)| ==>
              var r, s := After(CHAIN, ChainTarget, left)[i], After(CHAIN, ChainTarget, left)[j];
              r.identifier == s.identifier && r.idType == s.idType && r.subnet != s.subnet
  {
    var subnets := if left == {0, 2} then [1, 5, 3, 2, 4] else [1, 2, 3, 4, 6];
    assert forall i :: 0 <= i < 5 ==> AfterRow(CHAIN, ChainTarget, left, i) == CHAIN[i].(subnet := subnets[i]);
  }

  lemma ChainClosed()
    ensures Closed(CHAIN, ChainTarget, {1, 3, 4})
  {
    hide Rival, Blocks;
    forall j, k | 0 <= j < 5 && 0 <= k < 5
      ensures Rival(CHAIN, ChainTarget, j, k) ==> k in {1, 3, 4}
      ensures Blocks(CHAIN, ChainTarget, {1, 3, 4}, j, k) ==> k in {1, 3, 4}
    {
      ChainRivals(j, k);
      ChainBlocks({1, 3, 4}, j, k);
    }
  }

  lemma ChainDemoted()
    ensures Demoted(CHAIN, ChainTarget) == {1, 3, 4}
  {
    hide Rival, Blocks, Mover, Closed;
    ChainClosed();
    DemotedIsClosed(CHAIN, ChainTarget);
    ClosedChain(Demoted(CHAIN, ChainTarget));
    forall k | k in Demoted(CHAIN, ChainTarget) ensures k in {1, 3, 4} {
      assert Unavoidable(CHAIN, ChainTarget, k);
    }
  }

  lemma ClosedChain(d: set<nat>)
    requires Closed(CHAIN, ChainTarget, d)
    ensures 1 in d && 3 in d && 4 in d
  {
    hide Rival, Blocks;
    ChainRivals(0, 1);
    ChainBlocks(d, 1, 3);
    ChainBlocks(d, 3, 4);
  }

  lemma SameKey(rows: seq<HostRow>, j: nat, k: nat)
    requires DistinctKeys(rows) && j < |rows| && k < |rows|
    ensures Key(rows[j]) == Key(rows[k]) ==> j == k
  {
    hide Key;
  }

  // ---- Planning again ----

  /** In the planned table the movers are exactly the rows that were skipped. */
  lemma MoversAfter(rows: seq<HostRow>, f: SubnetFor, k: nat)
    requires k < |rows|
    ensures Mover(After(rows, f, Demoted(rows, f))[k], f) <==> Mover(rows[k], f) && k in Demoted(rows, f)
    ensures k in Demoted(rows, f) ==> After(rows, f, Demoted(rows, f))[k] == rows[k]
  {
  }

  /** Re-planning the planned table, in the same row order, moves nothing: every row the
      first plan skipped is skipped again. */
  lemma ReplanMovesNothing(rows: seq<HostRow>, f: SubnetFor)
    ensures var after := After(rows, f, Demoted(rows, f));
            forall k :: 0 <= k < |after| && Mover(after[k], f) ==> k in Demoted(after, f)
  {
    var d := Demoted(rows, f);
    var after := After(rows, f, d);
    var t := Demoted(after, f);
    DemotedAreMovers(rows, f);
    DemotedAreMovers(after, f);
    DemotedIsClosed(rows, f);
    DemotedIsClosed(after, f);
    assert |after| == |rows|;
    hide Demoted, After, Key, NewKey, Mover;
    forall k | k in t ensures k in d {
      MoversAfter(rows, f, k);
    }
    ReplanIsClosed(rows, f, d, after, t);
    forall k | 0 <= k < |after| && Mover(after[k], f) ensures k in t {
      MoversAfter(rows, f, k);
      DemotedInClosed(rows, f, t, k);
    }
  }

  lemma DemotedInClosed(rows: seq<HostRow>, f: SubnetFor, t: set<nat>, k: nat)
    requires k in Demoted(rows, f) && Closed(rows, f, t)
    ensures k in t
  {
    assert Unavoidable(rows, f, k);
  }

  /** What the second plan demotes is closed for the first. */
  lemma ReplanIsClosed(rows: seq<HostRow>, f: SubnetFor, d: set<nat>, after: seq<HostRow>, t: set<nat>)
    requires d == Demoted(rows, f) && after == After(rows, f, d) && Closed(rows, f, d)
    requires t == Demoted(after, f) && Closed(after, f, t) && t <= d
    ensures Closed(rows, f, t)
  {
    hide Demoted, Key, NewKey;
    forall j, k | 0 <= j < |rows| && 0 <= k < |rows| && Rival(rows, f, j, k) ensures k in t {
      assert k in d;
      MoversAfter(rows, f, j);
      MoversAfter(rows, f, k);
      AfterKey(rows, f, d, j);
      assert if j in d then Rival(after, f, j, k) else Blocks(after, f, t, j, k);
    }
    forall j, k | 0 <= j < |rows| && 0 <= k < |rows| && Blocks(rows, f, t, j, k) ensures k in t {
      assert Blocks(rows, f, d, j, k);
      MoversAfter(rows, f, j);
      MoversAfter(rows, f, k);
      AfterKey(rows, f, d, j);
      assert Blocks(after, f, t, j, k);
    }
  }
}
