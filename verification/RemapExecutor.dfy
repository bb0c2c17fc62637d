/** UpdateReservationSubnets: the planned moves as single UPDATE statements on a table
    whose key InnoDB checks per statement, first to park ids, then to final ids. */
module RemapExecutor {
  import opened Common

  /** Kea's hosts unique key. */
  datatype Triple = Triple(identifier: string, idType: int, subnet: int)

  /** The other columns of a host row. */
  datatype Payload = Payload(ip: nat, hostname: string)

  type Table = map<Triple, Payload>

  datatype SubnetIDUpdate = SubnetIDUpdate(identifier: string, idType: int, oldSubnetID: int, newSubnetID: int)

  const PARK_BASE: int := 0x10_0000

  /** UPDATE hosts SET subnet = after WHERE the triple matches; None is a duplicate-key
      rejection, and a missing row updates nothing. */
  function Exec(t: Table, identifier: string, idType: int, before: int, after: int): Option<Table> {
    var from, to := Triple(identifier, idType, before), Triple(identifier, idType, after);
    if from !in t || from == to then Some(t)
    else if to in t then None
    else Some((t - {from})[to := t[from]])
  }

  /** A statement is rejected exactly when it would give two rows one key; otherwise the row it
      names, if there is one, changes its subnet and nothing else changes. */
  lemma ExecExactly(t: Table, identifier: string, idType: int, before: int, after: int)
    ensures var r, from, to := Exec(t, identifier, idType, before, after), Triple(identifier, idType, before),
              Triple(identifier, idType, after);
            && (r == None <==> before != after && from in t && to in t)
            && (r.Some? && (before == after || from !in t) ==> r.value == t)
            && (r.Some? && before != after && from in t ==>
                && from !in r.value && to in r.value && r.value[to] == t[from]
                && forall k :: k != from && k != to ==>
                     (k in r.value <==> k in t) && (k in t ==> k in r.value && r.value[k] == t[k]))
  {
  }

  function ParkAll(t: Table, moves: seq<SubnetIDUpdate>, n: nat): Option<Table>
    requires n <= |moves|
  {
    if n == 0 then Some(t) else
      match ParkAll(t, moves, n - 1)
      case None => None
      case Some(u) => Exec(u, moves[n - 1].identifier, moves[n - 1].idType, moves[n - 1].oldSubnetID, PARK_BASE + n - 1)
  }

  function PlaceAll(t: Table, moves: seq<SubnetIDUpdate>, n: nat): Option<Table>
    requires n <= |moves|
  {
    if n == 0 then Some(t) else
      match PlaceAll(t, moves, n - 1)
      case None => None
      case Some(u) => Exec(u, moves[n - 1].identifier, moves[n - 1].idType, PARK_BASE + n - 1, moves[n - 1].newSubnetID)
  }

  /** The transaction's outcome: the final table, or None when a statement is rejected. */
  function Transact(t: Table, moves: seq<SubnetIDUpdate>): Option<Table> {
    match ParkAll(t, moves, |moves|)
    case None => None
    case Some(u) => PlaceAll(u, moves, |moves|)
  }

  class HostsTable {
    var rows: Table

    constructor (rows: Table)
      ensures this.rows == rows
    {
      this.rows := rows;
    }

    /** One prepared statement execution. */
    method Update(identifier: string, idType: int, before: int, after: int) returns (ok: bool)
      modifies this
      ensures ok <==> Exec(old(rows), identifier, idType, before, after).Some?
      ensures rows == if ok then Exec(old(rows), identifier, idType, before, after).value else old(rows)
    {
      var from, to := Triple(identifier, idType, before), Triple(identifier, idType, after);
      if from !in rows || from == to {
        return true;
      }
      if to in rows {
        return false;
      }
      var payload := rows[from];
      rows := rows - {from};
      rows := rows[to := payload];
      ok := true;
    }

    /** All moves in one transaction; a rejected statement rolls everything back. */
    method UpdateReservationSubnets(moves: seq<SubnetIDUpdate>) returns (ok: bool)
      modifies this
      ensures ok <==> Transact(old(rows), moves).Some?
      ensures rows == if ok then Transact(old(rows), moves).value else old(rows)
    {
      var snapshot := rows;
      if |moves| == 0 {
        return true;
      }
      var i := 0;
      while i < |moves|
        invariant 0 <= i <= |moves| && ParkAll(snapshot, moves, i) == Some(rows)
      {
        var done := Update(moves[i].identifier, moves[i].idType, moves[i].oldSubnetID, PARK_BASE + i);
        if !done {
          ParkFailureIsFinal(snapshot, moves, i + 1, |moves|);
          rows := snapshot;
          return false;
        }
        i := i + 1;
      }
      ghost var parked := rows;
      i := 0;
      while i < |moves|
        invariant 0 <= i <= |moves| && PlaceAll(parked, moves, i) == Some(rows)
      {
        var done := Update(moves[i].identifier, moves[i].idType, PARK_BASE + i, moves[i].newSubnetID);
        if !done {
          PlaceFailureIsFinal(parked, moves, i + 1, |moves|);
          rows := snapshot;
          return false;
        }
        i := i + 1;
      }
      ok := true;
    }
  }

  lemma {:induction false} ParkFailureIsFinal(t: Table, moves: seq<SubnetIDUpdate>, m: nat, n: nat)
    requires m <= n <= |moves| && ParkAll(t, moves, m).None?
    ensures ParkAll(t, moves, n).None?
  {
    if m < n { ParkFailureIsFinal(t, moves, m, n - 1); }
  }

  lemma {:induction false} PlaceFailureIsFinal(t: Table, moves: seq<SubnetIDUpdate>, m: nat, n: nat)
    requires m <= n <= |moves| && PlaceAll(t, moves, m).None?
    ensures PlaceAll(t, moves, n).None?
  {
    if m < n { PlaceFailureIsFinal(t, moves, m, n - 1); }
  }

  // ---- The two phases apply all moves at once ----

  function OldKey(m: SubnetIDUpdate): Triple { Triple(m.identifier, m.idType, m.oldSubnetID) }
  function NewKey(m: SubnetIDUpdate): Triple { Triple(m.identifier, m.idType, m.newSubnetID) }
  function ParkKey(m: SubnetIDUpdate, i: nat): Triple { Triple(m.identifier, m.idType, PARK_BASE + i) }

  function OldKeys(moves: seq<SubnetIDUpdate>, n: nat): set<Triple>
    requires n <= |moves|
  {
    set i | 0 <= i < n :: OldKey(moves[i])
  }

  predicate Present(t: Table, moves: seq<SubnetIDUpdate>) {
    forall i :: 0 <= i < |moves| ==> OldKey(moves[i]) in t
  }

  /** The moves are the ones a plan over this table makes: distinct rows of the table to
      distinct keys, none held by a row that stays, and no id in the park range. */
  predicate Consistent(t: Table, moves: seq<SubnetIDUpdate>) {
    && (forall k :: k in t ==> k.subnet < 0x10_0000)
    && Present(t, moves)
    && (forall i :: 0 <= i < |moves| ==> moves[i].newSubnetID < 0x10_0000)
    && (forall i, j :: 0 <= i < j < |moves| ==>
        OldKey(moves[i]) != OldKey(moves[j]) && NewKey(moves[i]) != NewKey(moves[j]))
    && (forall i :: 0 <= i < |moves| ==> NewKey(moves[i]) in t ==> NewKey(moves[i]) in OldKeys(moves, |moves|))
  }

  /** The first n moved rows at their new keys. */
  function Places(t: Table, moves: seq<SubnetIDUpdate>, n: nat): Table
    requires n <= |moves| && Present(t, moves)
  {
    if n == 0 then map[] else Places(t, moves, n - 1)[NewKey(moves[n - 1]) := t[OldKey(moves[n - 1])]]
  }

  /** All moves applied at once: every moved row at its new key, the others untouched. */
  function Simultaneous(t: Table, moves: seq<SubnetIDUpdate>): Table
    requires Present(t, moves)
  {
    (t - OldKeys(moves, |moves|)) + Places(t, moves, |moves|)
  }

  /** Moves lo..hi parked. */
  function Parks(t: Table, moves: seq<SubnetIDUpdate>, lo: nat, hi: nat): Table
    requires lo <= hi <= |moves| && Present(t, moves)
    decreases hi - lo
  {
    if lo == hi then map[] else Parks(t, moves, lo + 1, hi)[ParkKey(moves[lo], lo) := t[OldKey(moves[lo])]]
  }

  /** Park ids lie in the park range, one per move. */
  lemma {:induction false} ParksRange(t: Table, moves: seq<SubnetIDUpdate>, lo: nat, hi: nat)
    requires lo <= hi <= |moves| && Present(t, moves)
    ensures forall k :: k in Parks(t, moves, lo, hi) ==> PARK_BASE + lo <= k.subnet < PARK_BASE + hi
    decreases hi - lo
  {
    if lo < hi { ParksRange(t, moves, lo + 1, hi); }
  }

  lemma {:induction false} ParksGrow(t: Table, moves: seq<SubnetIDUpdate>, lo: nat, hi: nat)
    requires lo <= hi < |moves| && Present(t, moves)
    ensures Parks(t, moves, lo, hi + 1) == Parks(t, moves, lo, hi)[ParkKey(moves[hi], hi) := t[OldKey(moves[hi])]]
    decreases hi - lo
  {
    if lo < hi {
      ParksGrow(t, moves, lo + 1, hi);
      hide Present;
      assert ParkKey(moves[lo], lo) != ParkKey(moves[hi], hi);
    } else {
      assert Parks(t, moves, hi + 1, hi + 1) == map[];
    }
  }

  lemma ParksShrink(t: Table, moves: seq<SubnetIDUpdate>, lo: nat, hi: nat)
    requires lo < hi <= |moves| && Present(t, moves)
    ensures Parks(t, moves, lo + 1, hi) == Parks(t, moves, lo, hi) - {ParkKey(moves[lo], lo)}
    ensures ParkKey(moves[lo], lo) in Parks(t, moves, lo, hi)
    ensures Parks(t, moves, lo, hi)[ParkKey(moves[lo], lo)] == t[OldKey(moves[lo])]
  {
    ParksRange(t, moves, lo + 1, hi);
    hide Present;
  }

  lemma {:induction false} ParkingSucceeds(t: Table, moves: seq<SubnetIDUpdate>, n: nat)
    requires n <= |moves| && Consistent(t, moves)
    ensures ParkAll(t, moves, n) == Some((t - OldKeys(moves, n)) + Parks(t, moves, 0, n))
  {
    if n == 0 {
      assert OldKeys(moves, 0) == {};
      assert (t - {}) + map[] == t;
    } else {
      ParkingSucceeds(t, moves, n - 1);
      hide ParkAll, OldKeys;
      ParkOne(t, moves, n - 1, ParkAll(t, moves, n - 1).value);
      ParkAllStep(t, moves, n - 1, ParkAll(t, moves, n - 1).value);
    }
  }

  lemma ParkOne(t: Table, moves: seq<SubnetIDUpdate>, n: nat, u: Table)
    requires n < |moves| && Consistent(t, moves) && u == (t - OldKeys(moves, n)) + Parks(t, moves, 0, n)
    ensures Exec(u, moves[n].identifier, moves[n].idType, moves[n].oldSubnetID, PARK_BASE + n)
            == Some((t - OldKeys(moves, n + 1)) + Parks(t, moves, 0, n + 1))
  {
    var from, to := OldKey(moves[n]), ParkKey(moves[n], n);
    ParksGrow(t, moves, 0, n);
    ParksRange(t, moves, 0, n);
    OldKeysGrow(t, moves, n);
    hide Parks, OldKeys, Consistent, Present, Exec;
    ExecFree(u, moves[n].identifier, moves[n].idType, moves[n].oldSubnetID, PARK_BASE + n);
    MoveOver(t - OldKeys(moves, n), Parks(t, moves, 0, n), from, to);
    assert (t - OldKeys(moves, n)) - {from} == t - OldKeys(moves, n + 1);
  }

  lemma ParkAllStep(t: Table, moves: seq<SubnetIDUpdate>, n: nat, u: Table)
    requires n < |moves| && ParkAll(t, moves, n) == Some(u)
    ensures ParkAll(t, moves, n + 1) ==
            Exec(u, moves[n].identifier, moves[n].idType, moves[n].oldSubnetID, PARK_BASE + n)
  {
  }

  lemma OldKeysGrow(t: Table, moves: seq<SubnetIDUpdate>, n: nat)
    requires n < |moves| && Consistent(t, moves)
    ensures OldKeys(moves, n + 1) == OldKeys(moves, n) + {OldKey(moves[n])}
    ensures OldKey(moves[n]) !in OldKeys(moves, n) && OldKey(moves[n]).subnet < PARK_BASE && OldKey(moves[n]) in t
    ensures forall k :: k in t ==> k.subnet < PARK_BASE
  {
  }

  /** Re-keying a row from the base part of a table into its overlay. */
  lemma MoveOver(base: Table, overlay: Table, from: Triple, to: Triple)
    requires from in base && from !in overlay && to !in base && to !in overlay
    ensures (base + overlay - {from})[to := (base + overlay)[from]] == (base - {from}) + overlay[to := base[from]]
  {
  }

  /** Re-keying a row within the overlay. */
  lemma MoveWithin(base: Table, overlay: Table, placed: Table, from: Triple, to: Triple)
    requires from in overlay && from !in base && from !in placed
    requires to !in base && to !in overlay && to !in placed
    ensures (base + overlay + placed - {from})[to := (base + overlay + placed)[from]]
            == base + (overlay - {from}) + placed[to := overlay[from]]
  {
  }

  lemma {:induction false} PlacesKeys(t: Table, moves: seq<SubnetIDUpdate>, n: nat)
    requires n <= |moves| && Present(t, moves)
    ensures forall k :: k in Places(t, moves, n) ==> exists i :: 0 <= i < n && k == NewKey(moves[i])
  {
    if n > 0 { PlacesKeys(t, moves, n - 1); }
  }

  lemma {:induction false} PlacingSucceeds(t: Table, moves: seq<SubnetIDUpdate>, n: nat)
    requires n <= |moves| && Consistent(t, moves)
    ensures var parked := (t - OldKeys(moves, |moves|)) + Parks(t, moves, 0, |moves|);
            PlaceAll(parked, moves, n) ==
            Some((t - OldKeys(moves, |moves|)) + Parks(t, moves, n, |moves|) + Places(t, moves, n))
  {
    var base := t - OldKeys(moves, |moves|);
    var parked := base + Parks(t, moves, 0, |moves|);
    if n == 0 {
      assert parked + map[] == parked;
    } else {
      PlacingSucceeds(t, moves, n - 1);
      hide PlaceAll, OldKeys;
      PlaceOne(t, moves, n - 1, PlaceAll(parked, moves, n - 1).value);
      PlaceAllStep(parked, moves, n - 1, PlaceAll(parked, moves, n - 1).value);
    }
  }

  lemma PlaceOne(t: Table, moves: seq<SubnetIDUpdate>, n: nat, u: Table)
    requires n < |moves| && Consistent(t, moves)
    requires u == (t - OldKeys(moves, |moves|)) + Parks(t, moves, n, |moves|) + Places(t, moves, n)
    ensures Exec(u, moves[n].identifier, moves[n].idType, PARK_BASE + n, moves[n].newSubnetID)
            == Some((t - OldKeys(moves, |moves|)) + Parks(t, moves, n + 1, |moves|) + Places(t, moves, n + 1))
  {
    var from, to := ParkKey(moves[n], n), NewKey(moves[n]);
    var base, parks, places := t - OldKeys(moves, |moves|), Parks(t, moves, n, |moves|), Places(t, moves, n);
    ParkKeyAtHead(t, moves, n);
    PlaceTargetFree(t, moves, n);
    assert from !in base;
    ParksShrink(t, moves, n, |moves|);
    PlacesGrow(t, moves, n);
    hide Parks, OldKeys, Consistent, Present, Places, Exec;
    ExecWithin(base, parks, places, moves[n].identifier, moves[n].idType, PARK_BASE + n, moves[n].newSubnetID);
  }

  lemma ParkKeyAtHead(t: Table, moves: seq<SubnetIDUpdate>, n: nat)
    requires n < |moves| && Present(t, moves)
    ensures ParkKey(moves[n], n) in Parks(t, moves, n, |moves|)
    ensures moves[n].newSubnetID < PARK_BASE ==> NewKey(moves[n]) !in Parks(t, moves, n, |moves|)
  {
    ParksRange(t, moves, n, |moves|);
  }

  lemma PlacesGrow(t: Table, moves: seq<SubnetIDUpdate>, n: nat)
    requires n < |moves| && Present(t, moves)
    ensures Places(t, moves, n + 1) == Places(t, moves, n)[NewKey(moves[n]) := t[OldKey(moves[n])]]
  {
  }

  lemma ExecWithin(base: Table, overlay: Table, placed: Table, identifier: string, idType: int, before: int, after: int)
    requires var from, to := Triple(identifier, idType, before), Triple(identifier, idType, after);
             && from in overlay && from !in base && from !in placed
             && to !in base && to !in overlay && to !in placed
    ensures var from, to := Triple(identifier, idType, before), Triple(identifier, idType, after);
            Exec(base + overlay + placed, identifier, idType, before, after)
            == Some(base + (overlay - {from}) + placed[to := overlay[from]])
  {
    hide Exec;
    ExecFree(base + overlay + placed, identifier, idType, before, after);
    MoveWithin(base, overlay, placed, Triple(identifier, idType, before), Triple(identifier, idType, after));
  }

  lemma ExecFree(u: Table, identifier: string, idType: int, before: int, after: int)
    requires Triple(identifier, idType, before) in u && Triple(identifier, idType, after) !in u
    ensures Exec(u, identifier, idType, before, after) ==
            Some((u - {Triple(identifier, idType, before)})[Triple(identifier, idType, after) :=
                                                            u[Triple(identifier, idType, before)]])
  {
  }

  lemma PlaceAllStep(t: Table, moves: seq<SubnetIDUpdate>, n: nat, u: Table)
    requires n < |moves| && PlaceAll(t, moves, n) == Some(u)
    ensures PlaceAll(t, moves, n + 1) ==
            Exec(u, moves[n].identifier, moves[n].idType, PARK_BASE + n, moves[n].newSubnetID)
  {
  }

  /** When move n is placed its target is free, and its park key is in neither part. */
  lemma PlaceTargetFree(t: Table, moves: seq<SubnetIDUpdate>, n: nat)
    requires n < |moves| && Consistent(t, moves)
    ensures NewKey(moves[n]) !in t - OldKeys(moves, |moves|)
    ensures NewKey(moves[n]).subnet < PARK_BASE
    ensures NewKey(moves[n]) !in Places(t, moves, n)
    ensures ParkKey(moves[n], n) !in t && ParkKey(moves[n], n) !in Places(t, moves, n)
  {
    PlacesKeys(t, moves, n);
  }

  /** Parking then placing never violates the key at any statement, and ends in the
      simultaneous application of all moves, swaps and cycles included. */
  lemma TwoPhaseIsSimultaneous(t: Table, moves: seq<SubnetIDUpdate>)
    requires Consistent(t, moves)
    ensures Transact(t, moves) == Some(Simultaneous(t, moves))
  {
    ParkingSucceeds(t, moves, |moves|);
    PlacingSucceeds(t, moves, |moves|);
    var base := t - OldKeys(moves, |moves|);
    assert Parks(t, moves, |moves|, |moves|) == map[];
    hide ParkAll, PlaceAll, OldKeys, Places, Parks, Consistent, Present;
    assert base + map[] == base;
  }

  /** What Simultaneous means row by row. */
  lemma SimultaneousRows(t: Table, moves: seq<SubnetIDUpdate>)
    requires Consistent(t, moves)
    ensures forall i :: 0 <= i < |moves| ==>
              NewKey(moves[i]) in Simultaneous(t, moves)
                && Simultaneous(t, moves)[NewKey(moves[i])] == t[OldKey(moves[i])]
    ensures forall k :: k in t && k !in OldKeys(moves, |moves|) ==>
            k in Simultaneous(t, moves) && Simultaneous(t, moves)[k] == t[k]
    ensures forall k :: k in Simultaneous(t, moves) ==>
              (k in t && k !in OldKeys(moves, |moves|)) || exists i :: 0 <= i < |moves| && k == NewKey(moves[i])
  {
    PlacesKeys(t, moves, |moves|);
    PlacesValues(t, moves, |moves|);
    hide OldKeys, Places;
  }

  lemma {:induction false} PlacesValues(t: Table, moves: seq<SubnetIDUpdate>, n: nat)
    requires n <= |moves| && Consistent(t, moves)
    ensures forall i :: 0 <= i < n ==>
            NewKey(moves[i]) in Places(t, moves, n) && Places(t, moves, n)[NewKey(moves[i])] == t[OldKey(moves[i])]
  {
    if n > 0 { PlacesValues(t, moves, n - 1); }
  }
}
