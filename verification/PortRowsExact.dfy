/** Where every field of a port row comes from, and which row shows a device. */
module PortRowsExact {
  import opened Casing
  import opened PortRows
  import opened StringOrder

  predicate OfKey(l: Lease, key: string) { l.port.Some? && l.port.value.key == key }

  ghost predicate Leased(leases: seq<Lease>, key: string) {
    exists i :: 0 <= i < |leases| && OfKey(leases[i], key)
  }

  /** Lease i is the first of its key. */
  ghost predicate First(leases: seq<Lease>, key: string, i: nat) {
    i < |leases| && OfKey(leases[i], key) && forall j :: 0 <= j < i ==> !OfKey(leases[j], key)
  }

  /** Lease i is the last of its key. */
  ghost predicate Last(leases: seq<Lease>, key: string, i: nat) {
    i < |leases| && OfKey(leases[i], key) && forall j :: i < j < |leases| ==> !OfKey(leases[j], key)
  }

  predicate NamedOfKey(l: Lease, key: string) { OfKey(l, key) && l.hostname != "" }

  /** Lease i is the last of its key that carries a hostname. */
  ghost predicate LastNamed(leases: seq<Lease>, key: string, i: nat) {
    i < |leases| && NamedOfKey(leases[i], key) && forall j :: i < j < |leases| ==> !NamedOfKey(leases[j], key)
  }

  // ---- One more lease ----

  lemma LeasedStep(leases: seq<Lease>, l: Lease, key: string)
    ensures Leased(leases + [l], key) <==> Leased(leases, key) || OfKey(l, key)
  {
    hide OfKey;
    var more := leases + [l];
    if i :| 0 <= i < |leases| && OfKey(leases[i], key) { assert OfKey(more[i], key); }
    if OfKey(l, key) { assert OfKey(more[|leases|], key); }
  }

  lemma FirstStep(leases: seq<Lease>, l: Lease, key: string, i: nat)
    ensures First(leases + [l], key, i)
            <==> First(leases, key, i) || (i == |leases| && !Leased(leases, key) && OfKey(l, key))
    ensures First(leases + [l], key, i) && i < |leases| ==> (leases + [l])[i] == leases[i]
  {
    hide OfKey;
    var more := leases + [l];
    assert forall j :: 0 <= j < |leases| ==> more[j] == leases[j];
    assert more[|leases|] == l;
  }

  lemma LastStep(leases: seq<Lease>, l: Lease, key: string, i: nat)
    ensures Last(leases + [l], key, i) <==> if OfKey(l, key) then i == |leases| else Last(leases, key, i)
    ensures i < |leases| ==> (leases + [l])[i] == leases[i]
  {
    hide OfKey;
    var more := leases + [l];
    assert forall j :: 0 <= j < |leases| ==> more[j] == leases[j];
    assert more[|leases|] == l;
  }

  lemma LastNamedStep(leases: seq<Lease>, l: Lease, key: string, i: nat)
    ensures LastNamed(leases + [l], key, i) <==> if NamedOfKey(l, key) then i == |leases| else LastNamed(leases, key, i)
    ensures i < |leases| ==> (leases + [l])[i] == leases[i]
  {
    hide NamedOfKey;
    var more := leases + [l];
    assert forall j :: 0 <= j < |leases| ==> more[j] == leases[j];
    assert more[|leases|] == l;
  }

  // ---- The fields ----

  /** The row and the format of an unleased key are its pin's; a leased key's device, age and
      format are its last lease's. */
  ghost predicate DeviceIs(f: Fold, pinned: map<string, Pin>, leases: seq<Lease>, key: string) {
    && (key in f.rows <==> key in pinned || Leased(leases, key))
    && (key in f.rows && !Leased(leases, key) && key in pinned ==>
        f.rows[key].hw == "-" && key !in f.cltt && key in f.delim && f.delim[key] == pinned[key].delimited)
    && (forall i: nat :: Last(leases, key, i) && leases[i].port.Some? ==>
        && key in f.rows && f.rows[key].hw == leases[i].hw
        && key in f.cltt && f.cltt[key] == leases[i].cltt
        && key in f.delim && f.delim[key] == leases[i].port.value.delimited)
  }

  /** A pinned port keeps its pin's address and subnet; any other has its first lease's. */
  ghost predicate AddressIs(f: Fold, labels: map<string, string>, pinned: map<string, Pin>, leases: seq<Lease>,
                            key: string) {
    key in f.rows ==>
      var r := f.rows[key];
      && r.identity == key && r.portLabel == (if key in labels then labels[key] else "")
      && (r.pinned <==> key in pinned) && r.lastSeen == 0 && !r.stale
      && (key in pinned ==> r.ip == pinned[key].ip && r.subnet == pinned[key].subnet)
      && (key !in pinned ==>
          forall i: nat :: First(leases, key, i) ==> r.ip == leases[i].ip && r.subnet == leases[i].subnet)
  }

  /** The hostname is that of the key's last lease with one, else the pin's, else none. */
  ghost predicate HostnameIs(f: Fold, pinned: map<string, Pin>, leases: seq<Lease>, key: string) {
    key in f.rows ==>
      && (forall i: nat :: LastNamed(leases, key, i) ==> f.rows[key].hostname == leases[i].hostname)
      && ((forall i: nat :: !LastNamed(leases, key, i)) ==>
          f.rows[key].hostname == if key in pinned then pinned[key].hostname else "")
  }

  lemma DeviceNext(f: Fold, labels: map<string, string>, pinned: map<string, Pin>, leases: seq<Lease>, key: string,
                   l: Lease)
    requires DeviceIs(f, pinned, leases, key)
    ensures DeviceIs(AddLease(f, labels, l), pinned, leases + [l], key)
  {
    hide Last, Leased, LabelOf;
    LeasedStep(leases, l, key);
    forall i: nat | Last(leases + [l], key, i)
      ensures if OfKey(l, key) then i == |leases| && (leases + [l])[i] == l
              else Last(leases, key, i) && i < |leases| && (leases + [l])[i] == leases[i]
    {
      LastStep(leases, l, key, i);
      LastBelow(leases, key, i);
    }
  }

  lemma LastBelow(leases: seq<Lease>, key: string, i: nat)
    ensures Last(leases, key, i) ==> i < |leases|
  {
  }

  lemma AddressNext(f: Fold, labels: map<string, string>, pinned: map<string, Pin>, leases: seq<Lease>, key: string,
                    l: Lease)
    requires key in f.rows <==> key in pinned || Leased(leases, key)
    requires AddressIs(f, labels, pinned, leases, key)
    ensures AddressIs(AddLease(f, labels, l), labels, pinned, leases + [l], key)
  {
    hide First, Leased;
    forall i: nat | First(leases + [l], key, i)
      ensures || (First(leases, key, i) && i < |leases| && (leases + [l])[i] == leases[i])
              || (i == |leases| && !Leased(leases, key) && OfKey(l, key) && (leases + [l])[i] == l)
    {
      FirstStep(leases, l, key, i);
      FirstBelow(leases, key, i);
    }
    if key !in f.rows { NoneFirst(leases, key); } else { FirstIsLeased(leases, key); }
  }

  lemma FirstBelow(leases: seq<Lease>, key: string, i: nat)
    ensures First(leases, key, i) ==> i < |leases|
  {
  }

  lemma NoneFirst(leases: seq<Lease>, key: string)
    requires !Leased(leases, key)
    ensures forall i: nat :: !First(leases, key, i)
  {
  }

  lemma FirstIsLeased(leases: seq<Lease>, key: string)
    ensures forall i: nat :: First(leases, key, i) ==> Leased(leases, key)
  {
  }

  lemma HostnameNext(f: Fold, labels: map<string, string>, pinned: map<string, Pin>, leases: seq<Lease>, key: string,
                     l: Lease)
    requires key in f.rows <==> key in pinned || Leased(leases, key)
    requires HostnameIs(f, pinned, leases, key)
    ensures HostnameIs(AddLease(f, labels, l), pinned, leases + [l], key)
  {
    hide LastNamed, Leased, LabelOf;
    var more := leases + [l];
    forall i: nat
      ensures LastNamed(more, key, i) <==> if NamedOfKey(l, key) then i == |leases| else LastNamed(leases, key, i)
      ensures i < |leases| ==> more[i] == leases[i]
      ensures LastNamed(leases, key, i) ==> i < |leases|
    {
      LastNamedStep(leases, l, key, i);
      NamedBelow(leases, key, i);
    }
    assert more[|leases|] == l;
    if key !in f.rows { NoneNamed(leases, key); }
    if NamedOfKey(l, key) { assert LastNamed(more, key, |leases|); }
  }

  lemma NamedBelow(leases: seq<Lease>, key: string, i: nat)
    ensures LastNamed(leases, key, i) ==> i < |leases|
  {
  }

  lemma NoneNamed(leases: seq<Lease>, key: string)
    requires !Leased(leases, key)
    ensures forall i: nat :: !LastNamed(leases, key, i)
  {
  }

  lemma NoLeases(labels: map<string, string>, pinned: map<string, Pin>, key: string)
    ensures var f := Pins(labels, pinned);
            DeviceIs(f, pinned, [], key) && AddressIs(f, labels, pinned, [], key) && HostnameIs(f, pinned, [], key)
  {
  }

  /** Every field of a folded row, for any pins and any leases in any order. */
  lemma {:induction false} FoldedExactly(labels: map<string, string>, pinned: map<string, Pin>, leases: seq<Lease>,
                                         key: string)
    ensures var f := Folded(labels, pinned, leases);
            && DeviceIs(f, pinned, leases, key) && AddressIs(f, labels, pinned, leases, key)
            && HostnameIs(f, pinned, leases, key)
  {
    hide AddLease, AddressIs, HostnameIs, Pins, Last, Leased;
    if leases == [] {
      NoLeases(labels, pinned, key);
    } else {
      var init, l := leases[..|leases| - 1], leases[|leases| - 1];
      FoldedExactly(labels, pinned, init, key);
      var f := Folded(labels, pinned, init);
      DeviceNext(f, labels, pinned, init, key, l);
      AddressNext(f, labels, pinned, init, key, l);
      HostnameNext(f, labels, pinned, init, key, l);
      assert init + [l] == leases;
    }
  }

  // ---- The device ----

  /** key's row shows the device mac: its hardware address, in normal form, unless it has none. */
  predicate ShowsDevice(f: Fold, key: string, mac: string) {
    && key in f.rows && f.rows[key].hw != "" && f.rows[key].hw != "-"
    && mac != "" && NormalizeMac(f.rows[key].hw) == mac
  }

  /** a's lease is preferred to b's: the delimited format first, then the later, then the
      lower key. */
  predicate Preferred(f: Fold, a: string, b: string) {
    var da, db := a in f.delim && f.delim[a], b in f.delim && f.delim[b];
    var ta, tb := if a in f.cltt then f.cltt[a] else 0, if b in f.cltt then f.cltt[b] else 0;
    (da && !db) || (da == db && (ta > tb || (ta == tb && Less(a, b))))
  }

  /** The row that keeps a device is the one preferred to every other row that shows it. */
  lemma WinsExactly(f: Fold, key: string, mac: string)
    ensures Wins(f, key, mac)
            <==> ShowsDevice(f, key, mac)
                 && forall other :: ShowsDevice(f, other, mac) && other != key ==> Preferred(f, key, other)
  {
    hide NormalizeMac, Less, HasNew, ShowsDevice, Preferred, Contends, Beats, Shows, Delimited;
    forall k ensures Shows(f, k, mac) <==> ShowsDevice(f, k, mac) { ShowsIs(f, k, mac); }
    if ShowsDevice(f, key, mac)
       && forall other :: ShowsDevice(f, other, mac) && other != key ==> Preferred(f, key, other)
    {
      FormatsOf(f, mac);
      if HasNew(f, mac) && !Delimited(f, key) {
        var k :| Shows(f, k, mac) && Delimited(f, k);
        PreferredIs(f, key, k);
      }
      ContendsIs(f, key, mac);
      forall other | Contends(f, other, mac) && other != key ensures Beats(f, key, other) {
        ContendsIs(f, other, mac);
        PreferredIs(f, key, other);
      }
    }
    if Wins(f, key, mac) {
      ContendsIs(f, key, mac);
      FormatsOf(f, mac);
      forall other | ShowsDevice(f, other, mac) && other != key ensures Preferred(f, key, other) {
        ContendsIs(f, other, mac);
        PreferredIs(f, key, other);
      }
    }
  }

  lemma ShowsIs(f: Fold, key: string, mac: string)
    ensures Shows(f, key, mac) <==> ShowsDevice(f, key, mac)
  {
    hide NormalizeMac;
  }

  lemma ContendsIs(f: Fold, key: string, mac: string)
    ensures Contends(f, key, mac) <==> Shows(f, key, mac) && (HasNew(f, mac) ==> Delimited(f, key))
  {
  }

  lemma PreferredIs(f: Fold, a: string, b: string)
    ensures Preferred(f, a, b)
            <==> (Delimited(f, a) && !Delimited(f, b)) || (Delimited(f, a) == Delimited(f, b) && Beats(f, a, b))
  {
    hide Less;
  }

  lemma FormatsOf(f: Fold, mac: string)
    ensures HasNew(f, mac) <==> exists k :: Shows(f, k, mac) && Delimited(f, k)
  {
  }

  /** A row is shown when it is pinned, shows no device, or wins it; one that is pinned but
      has lost its device is shown without it. The age is filled in when known, and a port
      whose row shows no device is stale after more than 14 days. */
  lemma ShownExactly(f: Fold, lastSeen: map<string, int>, now: int, key: string)
    requires key in f.rows
    ensures var r, out := f.rows[key], Merged(f, lastSeen, now);
            var mac := if r.hw == "" || r.hw == "-" then "" else NormalizeMac(r.hw);
            var lost := mac != "" && !Wins(f, key, mac);
            && (key in out <==> r.pinned || !lost)
            && (key in out ==>
                var s := out[key];
                var seen := if r.identity in lastSeen && lastSeen[r.identity] > 0 then lastSeen[r.identity] else 0;
                && s.identity == r.identity && s.ip == r.ip && s.subnet == r.subnet && s.portLabel == r.portLabel
                && s.pinned == r.pinned && s.hw == (if lost then "-" else r.hw)
                && s.hostname == (if lost then "" else r.hostname)
                && (seen > 0 ==> s.lastSeen == seen && (s.stale <==> s.hw == "-" && now - seen > 1_209_600))
                && (seen == 0 ==> s.lastSeen == r.lastSeen && s.stale == r.stale))
  {
    hide NormalizeMac, Wins;
  }
}
