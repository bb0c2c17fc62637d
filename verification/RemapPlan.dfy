/** planSubnetRemaps: which host rows move to the subnet-id their address now has,
    when Kea keeps (identifier, identifier type, subnet) unique. */
module RemapPlan {
  import opened Common
  import opened Decimal

  datatype HostRow = HostRow(identifier: string, idType: int, subnet: int, ip: nat, hostname: string)

  datatype SubnetRemap = SubnetRemap(row: HostRow, newID: int)

  function HostKey(identifier: string, idType: int, subnet: int): string {
    identifier + "|" + Itoa(idType) + "|" + Itoa(subnet)
  }

  /** The key text identifies the triple, even when the identifier contains '|'. */
  lemma HostKeyInjective(i1: string, t1: int, s1: int, i2: string, t2: int, s2: int)
    ensures HostKey(i1, t1, s1) == HostKey(i2, t2, s2) ==> i1 == i2 && t1 == t2 && s1 == s2
  {
    if HostKey(i1, t1, s1) == HostKey(i2, t2, s2) {
      ItoaChars(t1); ItoaChars(t2); ItoaChars(s1); ItoaChars(s2);
      SplitAtLast(i1 + "|" + Itoa(t1), Itoa(s1), i2 + "|" + Itoa(t2), Itoa(s2), '|');
      SplitAtLast(i1, Itoa(t1), i2, Itoa(t2), '|');
      ItoaInjective(t1, t2);
      ItoaInjective(s1, s2);
    }
  }

  type SubnetFor = nat -> Option<int>

  function Key(r: HostRow): string { HostKey(r.identifier, r.idType, r.subnet) }

  predicate Orphan(r: HostRow, f: SubnetFor) { f(r.ip).None? }

  predicate Mover(r: HostRow, f: SubnetFor) { f(r.ip).Some? && f(r.ip).value != r.subnet }

  function NewKey(r: HostRow, f: SubnetFor): string
    requires f(r.ip).Some?
  {
    HostKey(r.identifier, r.idType, f(r.ip).value)
  }

  /** A mover always leaves its key. */
  lemma NewKeyDiffers(r: HostRow, f: SubnetFor)
    requires Mover(r, f)
    ensures NewKey(r, f) != Key(r)
  {
    HostKeyInjective(r.identifier, r.idType, f(r.ip).value, r.identifier, r.idType, r.subnet);
  }

  // ---- Which movers must stay ----

  /** Row j is a mover that wants row k's target and comes first. */
  predicate Rival(rows: seq<HostRow>, f: SubnetFor, j: nat, k: nat)
    requires j < |rows| && k < |rows|
  {
    j < k && Mover(rows[j], f) && Mover(rows[k], f) && NewKey(rows[j], f) == NewKey(rows[k], f)
  }

  /** Row j keeps its key (it never moves, or is among `demoted`) and row k wants it. */
  predicate Blocks(rows: seq<HostRow>, f: SubnetFor, demoted: set<nat>, j: nat, k: nat)
    requires j < |rows| && k < |rows|
  {
    (!Mover(rows[j], f) || j in demoted) && Mover(rows[k], f) && Key(rows[j]) == NewKey(rows[k], f)
  }

  /** A set of demoted movers that no blocked or out-ranked mover escapes. */
  ghost predicate Closed(rows: seq<HostRow>, f: SubnetFor, demoted: set<nat>) {
    && (forall j, k :: 0 <= j < |rows| && 0 <= k < |rows| && Rival(rows, f, j, k) ==> k in demoted)
    && (forall j, k :: 0 <= j < |rows| && 0 <= k < |rows| && Blocks(rows, f, demoted, j, k) ==> k in demoted)
  }

  ghost predicate Unavoidable(rows: seq<HostRow>, f: SubnetFor, k: nat) {
    forall t: set<nat> :: Closed(rows, f, t) ==> k in t
  }

  /** The least such set: the rows every closed set demotes. */
  ghost function Demoted(rows: seq<HostRow>, f: SubnetFor): set<nat> {
    set k: nat | k < |rows| && Unavoidable(rows, f, k)
  }

  /** Demoting everything is closed, so the least set holds only movers. */
  lemma DemotedAreMovers(rows: seq<HostRow>, f: SubnetFor)
    ensures forall k :: k in Demoted(rows, f) ==> k < |rows| && Mover(rows[k], f)
  {
    var all := set k: nat | k < |rows| && Mover(rows[k], f);
    assert Closed(rows, f, all);
  }

  lemma DemotedIsClosed(rows: seq<HostRow>, f: SubnetFor)
    ensures Closed(rows, f, Demoted(rows, f))
  {
    var d := Demoted(rows, f);
    forall j, k | 0 <= j < |rows| && 0 <= k < |rows| && (Rival(rows, f, j, k) || Blocks(rows, f, d, j, k))
      ensures k in d {
      forall t: set<nat> | Closed(rows, f, t) ensures k in t {
        if !Rival(rows, f, j, k) {
          assert Blocks(rows, f, t, j, k);
        }
      }
    }
  }

  // ---- The plan's three lists ----

  function Orphans(rows: seq<HostRow>, f: SubnetFor): seq<HostRow> {
    if rows == [] then []
    else Orphans(rows[..|rows| - 1], f) + (if Orphan(rows[|rows| - 1], f) then [rows[|rows| - 1]] else [])
  }

  /** The positions of the movers among the first n rows. */
  function MoverRows(rows: seq<HostRow>, f: SubnetFor, n: nat): seq<nat>
    requires n <= |rows|
  {
    if n == 0 then []
    else MoverRows(rows, f, n - 1) + (if Mover(rows[n - 1], f) then [n - 1] else [])
  }

  lemma {:induction false} MoverRowsExact(rows: seq<HostRow>, f: SubnetFor, n: nat)
    requires n <= |rows|
    ensures var idx := MoverRows(rows, f, n);
            && (forall i :: 0 <= i < |idx| ==> idx[i] < n && Mover(rows[idx[i]], f))
            && (forall i, j :: 0 <= i < j < |idx| ==> idx[i] < idx[j])
            && (forall k :: 0 <= k < n && Mover(rows[k], f) ==> k in idx)
  {
    if n > 0 { MoverRowsExact(rows, f, n - 1); }
  }

  /** The remaps of the movers among idx that are, or are not, in a set. */
  ghost function Select(rows: seq<HostRow>, f: SubnetFor, idx: seq<nat>, demoted: set<nat>, want: bool)
      : seq<SubnetRemap>
    requires forall i :: 0 <= i < |idx| ==> idx[i] < |rows| && Mover(rows[idx[i]], f)
  {
    if idx == [] then [] else
      var k := idx[|idx| - 1];
      assert Mover(rows[k], f);
      Select(rows, f, idx[..|idx| - 1], demoted, want)
      + (if (k in demoted) == want then [SubnetRemap(rows[k], f(rows[k].ip).value)] else [])
  }

  /** The movers among the first n rows that are, or are not, in a set, as remaps. */
  ghost function Reported(rows: seq<HostRow>, f: SubnetFor, demoted: set<nat>, n: nat, want: bool): seq<SubnetRemap>
    requires n <= |rows|
  {
    if n == 0 then [] else
      Reported(rows, f, demoted, n - 1, want)
      + (if Mover(rows[n - 1], f) && (n - 1 in demoted) == want then [SubnetRemap(rows[n - 1], f(rows[n - 1].ip).value)]
         else [])
  }

  lemma {:induction false} SelectIsReported(rows: seq<HostRow>, f: SubnetFor, n: nat, demoted: set<nat>, want: bool)
    requires n <= |rows|
    requires forall i :: 0 <= i < |MoverRows(rows, f, n)| ==>
             MoverRows(rows, f, n)[i] < |rows| && Mover(rows[MoverRows(rows, f, n)[i]], f)
    ensures Select(rows, f, MoverRows(rows, f, n), demoted, want) == Reported(rows, f, demoted, n, want)
  {
    if n > 0 {
      MoverRowsExact(rows, f, n - 1);
      SelectIsReported(rows, f, n - 1, demoted, want);
      var idx := MoverRows(rows, f, n);
      if Mover(rows[n - 1], f) {
        assert idx[..|idx| - 1] == MoverRows(rows, f, n - 1) && idx[|idx| - 1] == n - 1;
      } else {
        assert idx == MoverRows(rows, f, n - 1);
      }
    }
  }
}
