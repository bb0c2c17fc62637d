/** Every host row's fate under the plan, from the rows and the scopes alone (remap.go). */
module RemapAccounts {
  import opened Common
  import opened RemapPlan
  import opened RemapTheorems

  /** The subnet the row's address now lies in is not the one it is stored with. */
  predicate Stale(rows: seq<HostRow>, f: SubnetFor, k: nat)
    requires k < |rows|
  {
    f(rows[k].ip).Some? && f(rows[k].ip).value != rows[k].subnet
  }

  predicate SameDevice(r: HostRow, s: HostRow) { r.identifier == s.identifier && r.idType == s.idType }

  /** Increasing positions below n. */
  predicate Positions(at: seq<nat>, n: nat) {
    (forall i :: 0 <= i < |at| ==> at[i] < n) && (forall i, j :: 0 <= i < j < |at| ==> at[i] < at[j])
  }

  /** The remaps list the rows at these positions, each with the subnet of its address. */
  predicate Lists(remaps: seq<SubnetRemap>, rows: seq<HostRow>, f: SubnetFor, at: seq<nat>) {
    && Positions(at, |rows|) && |remaps| == |at|
    && forall i :: 0 <= i < |at| ==> remaps[i].row == rows[at[i]] && f(rows[at[i]].ip) == Some(remaps[i].newID)
  }

  lemma ListsSnoc(remaps: seq<SubnetRemap>, rows: seq<HostRow>, f: SubnetFor, at: seq<nat>, n: nat)
    requires Lists(remaps, rows, f, at) && n < |rows| && f(rows[n].ip).Some? && forall k :: k in at ==> k < n
    ensures Lists(remaps + [SubnetRemap(rows[n], f(rows[n].ip).value)], rows, f, at + [n])
  {
    assert forall i :: 0 <= i < |at| ==> at[i] in at;
  }

  lemma {:induction false} ReportedLists(rows: seq<HostRow>, f: SubnetFor, d: set<nat>, n: nat, want: bool)
    returns (at: seq<nat>)
    requires n <= |rows|
    ensures Lists(Reported(rows, f, d, n, want), rows, f, at)
    ensures forall k: nat :: k in at <==> k < n && Stale(rows, f, k) && (k in d) == want
  {
    hide Lists;
    if n == 0 {
      at := [];
      NothingListed(rows, f);
    } else {
      at := ReportedLists(rows, f, d, n - 1, want);
      if Stale(rows, f, n - 1) && (n - 1 in d) == want {
        ListsSnoc(Reported(rows, f, d, n - 1, want), rows, f, at, n - 1);
        at := at + [n - 1];
        assert Reported(rows, f, d, n, want)
            == Reported(rows, f, d, n - 1, want) + [SubnetRemap(rows[n - 1], f(rows[n - 1].ip).value)];
      } else {
        assert Reported(rows, f, d, n, want) == Reported(rows, f, d, n - 1, want);
      }
    }
  }

  lemma NothingListed(rows: seq<HostRow>, f: SubnetFor)
    ensures Lists([], rows, f, [])
  {
  }

  lemma {:induction false} OrphansListed(rows: seq<HostRow>, f: SubnetFor) returns (at: seq<nat>)
    ensures Positions(at, |rows|) && |Orphans(rows, f)| == |at|
    ensures forall i :: 0 <= i < |at| ==> Orphans(rows, f)[i] == rows[at[i]]
    ensures forall k: nat :: k in at <==> k < |rows| && f(rows[k].ip).None?
  {
    if rows == [] {
      at := [];
    } else {
      var n := |rows| - 1;
      var init := rows[..n];
      at := OrphansListed(init, f);
      assert forall k :: 0 <= k < n ==> init[k] == rows[k];
      if f(rows[n].ip).None? { at := at + [n]; }
    }
  }

  /** Every row is accounted for. An orphan is listed as one and stays; a row whose address
      lies in the subnet it is stored with is in no list and stays; any other row is either
      moved to the subnet of its address, or skipped, and then stays because another planned
      row of the same device holds that subnet. The lists are in row order and hold nothing
      else. */
  lemma EveryRowAccounted(rows: seq<HostRow>, f: SubnetFor)
    returns (moved: seq<nat>, orphaned: seq<nat>, skipped: seq<nat>)
    ensures Lists(Reported(rows, f, Demoted(rows, f), |rows|, false), rows, f, moved)
    ensures Lists(Reported(rows, f, Demoted(rows, f), |rows|, true), rows, f, skipped)
    ensures Positions(orphaned, |rows|) && |Orphans(rows, f)| == |orphaned|
    ensures forall i :: 0 <= i < |orphaned| ==> Orphans(rows, f)[i] == rows[orphaned[i]]
    ensures forall k :: 0 <= k < |rows| ==>
              && (k in orphaned <==> f(rows[k].ip) == None)
              && (k in moved || k in skipped <==> f(rows[k].ip).Some? && f(rows[k].ip).value != rows[k].subnet)
              && !(k in moved && k in skipped)
    ensures var planned := After(rows, f, Demoted(rows, f));
            && |planned| == |rows|
            && (forall k :: 0 <= k < |rows| ==>
                  planned[k] == if k in moved then rows[k].(subnet := f(rows[k].ip).value) else rows[k])
            && (forall k :: 0 <= k < |rows| && k in skipped ==> HeldByAnother(planned, rows[k], f(rows[k].ip).value, k))
  {
    var d := Demoted(rows, f);
    moved := ReportedLists(rows, f, d, |rows|, false);
    skipped := ReportedLists(rows, f, d, |rows|, true);
    orphaned := OrphansListed(rows, f);
    var planned := After(rows, f, d);
    hide Demoted, Reported, Orphans, Key;
    forall k | 0 <= k < |rows| && k in skipped ensures HeldByAnother(planned, rows[k], f(rows[k].ip).value, k) {
      SkippedTargetsAreTaken(rows, f, k);
      TakenMeansHeld(rows, f, k);
    }
  }

  /** A row other than the k-th is the device's row in that subnet. */
  ghost predicate HeldByAnother(planned: seq<HostRow>, r: HostRow, subnet: int, k: nat) {
    exists q :: 0 <= q < |planned| && q != k && SameDevice(planned[q], r) && planned[q].subnet == subnet
  }

  lemma TakenMeansHeld(rows: seq<HostRow>, f: SubnetFor, k: nat)
    requires k < |rows| && Mover(rows[k], f) && TargetTaken(rows, f, k)
    ensures HeldByAnother(After(rows, f, Demoted(rows, f)), rows[k], f(rows[k].ip).value, k)
  {
    var planned := After(rows, f, Demoted(rows, f));
    var q: nat :| q < |rows| && q != k && Key(planned[q]) == NewKey(rows[k], f);
    hide Demoted;
    HostKeyInjective(planned[q].identifier, planned[q].idType, planned[q].subnet,
                     rows[k].identifier, rows[k].idType, f(rows[k].ip).value);
  }

  // ---- Why no other choice skips fewer ----

  /** The subnet row k ends up with when the stale rows in `left` stay. */
  function SubnetAfter(rows: seq<HostRow>, f: SubnetFor, left: set<nat>, k: nat): int
    requires k < |rows|
  {
    if Stale(rows, f, k) && k !in left then f(rows[k].ip).value else rows[k].subnet
  }

  /** No two rows of one device end up in one subnet. */
  ghost predicate NoClash(rows: seq<HostRow>, f: SubnetFor, left: set<nat>) {
    forall i, j :: 0 <= i < j < |rows| && SameDevice(rows[i], rows[j]) ==>
                   SubnetAfter(rows, f, left, i) != SubnetAfter(rows, f, left, j)
  }

  /** No two stored rows of one device are in one subnet. */
  ghost predicate UniqueStored(rows: seq<HostRow>) {
    forall i, j :: 0 <= i < j < |rows| && SameDevice(rows[i], rows[j]) ==> rows[i].subnet != rows[j].subnet
  }

  /** Of the stale rows of one device bound for one subnet, all but the first stay. */
  ghost predicate FirstComes(rows: seq<HostRow>, f: SubnetFor, left: set<nat>) {
    forall i, j ::
      && 0 <= i < j < |rows| && Stale(rows, f, i) && Stale(rows, f, j)
      && SameDevice(rows[i], rows[j]) && f(rows[i].ip) == f(rows[j].ip)
      ==> j in left
  }

  lemma ClashIsSameKey(rows: seq<HostRow>, f: SubnetFor, left: set<nat>)
    ensures NoClash(rows, f, left) <==> DistinctKeys(After(rows, f, left))
  {
    var after := After(rows, f, left);
    forall i, j | 0 <= i < j < |rows|
      ensures Key(after[i]) == Key(after[j])
              <==> SameDevice(rows[i], rows[j]) && SubnetAfter(rows, f, left, i) == SubnetAfter(rows, f, left, j)
    {
      HostKeyInjective(after[i].identifier, after[i].idType, after[i].subnet,
                       after[j].identifier, after[j].idType, after[j].subnet);
    }
    hide Key;
  }

  lemma UniqueIsDistinct(rows: seq<HostRow>)
    ensures UniqueStored(rows) <==> DistinctKeys(rows)
  {
    forall i, j | 0 <= i < j < |rows|
      ensures Key(rows[i]) == Key(rows[j]) <==> SameDevice(rows[i], rows[j]) && rows[i].subnet == rows[j].subnet
    {
      HostKeyInjective(rows[i].identifier, rows[i].idType, rows[i].subnet,
                       rows[j].identifier, rows[j].idType, rows[j].subnet);
    }
    hide Key;
  }

  /** The skipped rows are the least set left in place: if the stored keys are unique they
      leave no clash and let the first come first, and every set that does so contains them. */
  lemma SkipsAreLeast(rows: seq<HostRow>, f: SubnetFor, left: set<nat>)
    ensures NoClash(rows, f, left) && FirstComes(rows, f, left) ==> Demoted(rows, f) <= left
    ensures FirstComes(rows, f, Demoted(rows, f))
    ensures UniqueStored(rows) ==> NoClash(rows, f, Demoted(rows, f))
  {
    RivalsAre(rows, f);
    DemotedIsClosed(rows, f);
    ClashIsSameKey(rows, f, left);
    ClashIsSameKey(rows, f, Demoted(rows, f));
    UniqueIsDistinct(rows);
    hide Demoted, Key, Rival, Stale, SameDevice, Blocks;
    if NoClash(rows, f, left) && FirstComes(rows, f, left) { FirstComeLeavesLeast(rows, f, left); }
    if UniqueStored(rows) { PlanKeepsKeysDistinct(rows, f); }
  }

  lemma RivalsAre(rows: seq<HostRow>, f: SubnetFor)
    ensures forall i, j :: 0 <= i < |rows| && 0 <= j < |rows| ==>
              (Rival(rows, f, i, j) <==> i < j && Stale(rows, f, i) && Stale(rows, f, j)
                                         && SameDevice(rows[i], rows[j]) && f(rows[i].ip) == f(rows[j].ip))
  {
    forall i, j | 0 <= i < |rows| && 0 <= j < |rows| && Stale(rows, f, i) && Stale(rows, f, j)
      ensures NewKey(rows[i], f) == NewKey(rows[j], f)
              <==> SameDevice(rows[i], rows[j]) && f(rows[i].ip) == f(rows[j].ip)
    {
      HostKeyInjective(rows[i].identifier, rows[i].idType, f(rows[i].ip).value,
                       rows[j].identifier, rows[j].idType, f(rows[j].ip).value);
    }
    hide NewKey;
  }
}
