/** One row per switch port and per device (mergePortRows, internal/web/pinning.go). */
module PortRows {
  import opened Casing
  import opened Common
  import opened StringOrder

  const STALE_AFTER := 14 * 24 * 60 * 60

  datatype Pin = Pin(ip: string, hostname: string, subnet: int, delimited: bool)

  /** A decoded Option-82 port identity; None for a lease that is not a port's. */
  datatype Port = Port(key: string, delimited: bool)

  datatype Lease = Lease(port: Option<Port>, hw: string, ip: string, hostname: string, subnet: int, cltt: int)

  datatype Row = Row(identity: string, ip: string, hw: string, hostname: string, subnet: int,
                     portLabel: string, pinned: bool, lastSeen: int, stale: bool)

  /** The rows being built, and what is known of each key's latest lease. */
  datatype Fold = Fold(rows: map<string, Row>, cltt: map<string, int>, delim: map<string, bool>)

  function LabelOf(labels: map<string, string>, key: string): string { if key in labels then labels[key] else "" }

  /** The MAC of a device really on the wire, or "". */
  function LiveMac(hw: string): string {
    if hw == "" || hw == "-" then "" else NormalizeMac(hw)
  }

  // ---- Folding pins and leases ----

  function PinRow(labels: map<string, string>, key: string, p: Pin): Row {
    Row(key, p.ip, "-", p.hostname, p.subnet, LabelOf(labels, key), true, 0, false)
  }

  function Pins(labels: map<string, string>, pinned: map<string, Pin>): Fold {
    Fold(map key | key in pinned :: PinRow(labels, key, pinned[key]), map[],
         map key | key in pinned :: pinned[key].delimited)
  }

  function LeaseRow(f: Fold, labels: map<string, string>, key: string, l: Lease): Row {
    if key in f.rows then
      f.rows[key].(hw := l.hw, hostname := if l.hostname != "" then l.hostname else f.rows[key].hostname)
    else Row(key, l.ip, l.hw, l.hostname, l.subnet, LabelOf(labels, key), false, 0, false)
  }

  function AddLease(f: Fold, labels: map<string, string>, l: Lease): Fold {
    if l.port.None? then f else
      var key := l.port.value.key;
      Fold(f.rows[key := LeaseRow(f, labels, key, l)], f.cltt[key := l.cltt], f.delim[key := l.port.value.delimited])
  }

  function Folded(labels: map<string, string>, pinned: map<string, Pin>, leases: seq<Lease>): Fold {
    if leases == [] then Pins(labels, pinned)
    else AddLease(Folded(labels, pinned, leases[..|leases| - 1]), labels, leases[|leases| - 1])
  }

  /** A decoded identity is never empty. */
  predicate PortKeys(leases: seq<Lease>) {
    forall i :: 0 <= i < |leases| && leases[i].port.Some? ==> leases[i].port.value.key != ""
  }

  /** Rows sit under their own identity; a live one has a non-empty key; the pinned ones
      are exactly the pins, with their address and label. */
  ghost predicate Coherent(f: Fold, labels: map<string, string>, pinned: map<string, Pin>) {
    && (forall k :: k in f.rows ==> f.rows[k].identity == k && f.rows[k].portLabel == LabelOf(labels, k))
    && (forall k :: k in f.rows && LiveMac(f.rows[k].hw) != "" ==> k != "")
    && (forall k :: k in f.rows && f.rows[k].pinned <==> k in pinned)
    && (forall k :: k in pinned ==> k in f.rows && f.rows[k].ip == pinned[k].ip && f.rows[k].subnet == pinned[k].subnet)
    && (forall k :: k in f.rows ==> k in f.delim)
  }

  lemma {:induction false} FoldedCoherent(labels: map<string, string>, pinned: map<string, Pin>, leases: seq<Lease>)
    requires PortKeys(leases)
    ensures Coherent(Folded(labels, pinned, leases), labels, pinned)
  {
    hide LiveMac, LabelOf, AddLease;
    if leases == [] {
      PinsCoherent(labels, pinned);
    } else {
      var init := leases[..|leases| - 1];
      FoldedCoherent(labels, pinned, init);
      AddCoherent(Folded(labels, pinned, init), labels, pinned, leases[|leases| - 1]);
    }
  }

  lemma PinsCoherent(labels: map<string, string>, pinned: map<string, Pin>)
    ensures Coherent(Pins(labels, pinned), labels, pinned)
  {
    hide NormalizeMac, LabelOf;
  }

  lemma AddCoherent(f: Fold, labels: map<string, string>, pinned: map<string, Pin>, l: Lease)
    requires Coherent(f, labels, pinned) && (l.port.Some? ==> l.port.value.key != "")
    ensures Coherent(AddLease(f, labels, l), labels, pinned)
  {
    hide LiveMac, LabelOf;
    if l.port.Some? {
      var key, g := l.port.value.key, AddLease(f, labels, l);
      var r := g.rows[key];
      assert r.identity == key && r.portLabel == LabelOf(labels, key);
      assert r.pinned <==> key in pinned;
      assert forall k :: k != key ==> (k in g.rows <==> k in f.rows) && (k in f.rows ==> g.rows[k] == f.rows[k]);
    }
  }

  // ---- Who wins a device ----

  function Cltt(f: Fold, key: string): int { if key in f.cltt then f.cltt[key] else 0 }

  function Delimited(f: Fold, key: string): bool { key in f.delim && f.delim[key] }

  /** key's row shows the device mac. */
  predicate Shows(f: Fold, key: string, mac: string) {
    key in f.rows && mac != "" && LiveMac(f.rows[key].hw) == mac
  }

  ghost predicate HasNew(f: Fold, mac: string) {
    exists key :: Shows(f, key, mac) && Delimited(f, key)
  }

  /** In the running: a row of the preferred format for its device. */
  ghost predicate Contends(f: Fold, key: string, mac: string) {
    Shows(f, key, mac) && (HasNew(f, mac) ==> Delimited(f, key))
  }

  /** Fresher, or as fresh with a lower key. */
  predicate Beats(f: Fold, a: string, b: string) {
    Cltt(f, a) > Cltt(f, b) || (Cltt(f, a) == Cltt(f, b) && Less(a, b))
  }

  ghost predicate Wins(f: Fold, key: string, mac: string) {
    Contends(f, key, mac) && forall other :: Contends(f, other, mac) && other != key ==> Beats(f, key, other)
  }

  lemma BeatsTransitive(f: Fold, a: string, b: string, c: string)
    requires Beats(f, a, b) && Beats(f, b, c)
    ensures Beats(f, a, c)
  {
    if Less(a, b) && Less(b, c) { LessTransitive(a, b, c); }
  }

  lemma BeatsTotal(f: Fold, a: string, b: string)
    ensures a == b || Beats(f, a, b) || Beats(f, b, a)
    ensures !(Beats(f, a, b) && Beats(f, b, a))
  {
    LessTotal(a, b);
    LessAsymmetric(a, b);
  }

  lemma WinnerUnique(f: Fold, a: string, b: string, mac: string)
    requires Wins(f, a, mac) && Wins(f, b, mac)
    ensures a == b
  {
    BeatsTotal(f, a, b);
  }

  ghost predicate BestOf(f: Fold, keys: set<string>, key: string, mac: string) {
    key in keys && Contends(f, key, mac)
    && forall other :: other in keys && Contends(f, other, mac) && other != key ==> Beats(f, key, other)
  }

  lemma {:induction false} BestExists(f: Fold, keys: set<string>, mac: string) returns (best: string)
    requires exists key :: key in keys && Contends(f, key, mac)
    ensures BestOf(f, keys, best, mac)
    decreases |keys|
  {
    hide Contends, Beats;
    var x :| x in keys && Contends(f, x, mac);
    if y :| y in keys - {x} && Contends(f, y, mac) {
      var b := BestExists(f, keys - {x}, mac);
      best := NewBest(f, keys - {x}, b, x, mac);
      assert keys - {x} + {x} == keys;
    } else {
      best := x;
    }
  }

  lemma NewBest(f: Fold, keys: set<string>, b: string, x: string, mac: string) returns (best: string)
    requires BestOf(f, keys, b, mac) && x !in keys && Contends(f, x, mac)
    ensures BestOf(f, keys + {x}, best, mac)
    ensures best == if Beats(f, x, b) then x else b
  {
    hide Contends, Beats;
    BeatsTotal(f, x, b);
    if Beats(f, x, b) {
      best := x;
      forall other | other in keys && Contends(f, other, mac) ensures Beats(f, x, other) {
        if other != b { BeatsTransitive(f, x, b, other); }
      }
    } else {
      best := b;
    }
  }

  /** Every device some row shows has a winner. */
  lemma WinnerExists(f: Fold, mac: string) returns (w: string)
    requires exists key :: Shows(f, key, mac)
    ensures Wins(f, w, mac)
  {
    var x :| Shows(f, x, mac);
    if HasNew(f, mac) {
      x :| Shows(f, x, mac) && Delimited(f, x);
    }
    assert Contends(f, x, mac) && x in f.rows.Keys;
    w := BestExists(f, f.rows.Keys, mac);
  }

  // ---- The merged rows ----

  ghost predicate Kept(f: Fold, key: string)
    requires key in f.rows
  {
    var r := f.rows[key];
    r.pinned || LiveMac(r.hw) == "" || Wins(f, key, LiveMac(r.hw))
  }

  function Blanked(r: Row): Row { r.(hw := "-", hostname := "") }

  function Seen(r: Row, lastSeen: map<string, int>, now: int): Row {
    var ts := if r.identity in lastSeen then lastSeen[r.identity] else 0;
    if ts > 0 then r.(lastSeen := ts, stale := r.hw == "-" && now - ts > STALE_AFTER) else r
  }

  ghost function Final(f: Fold, key: string, lastSeen: map<string, int>, now: int): Row
    requires key in f.rows
  {
    var r := f.rows[key];
    Seen(if LiveMac(r.hw) != "" && !Wins(f, key, LiveMac(r.hw)) then Blanked(r) else r, lastSeen, now)
  }

  ghost function Merged(f: Fold, lastSeen: map<string, int>, now: int): map<string, Row> {
    map key | key in f.rows && Kept(f, key) :: Final(f, key, lastSeen, now)
  }

  /** Exactly the devices shown before the merge are shown after it, each on exactly one
      row: its winner's. */
  lemma OneRowPerDevice(f: Fold, lastSeen: map<string, int>, now: int, mac: string)
    requires mac != ""
    ensures var out := Merged(f, lastSeen, now);
            (exists key :: Shows(f, key, mac)) <==> (exists key :: key in out && LiveMac(out[key].hw) == mac)
    ensures var out := Merged(f, lastSeen, now);
            forall key :: key in out && LiveMac(out[key].hw) == mac ==> Wins(f, key, mac)
    ensures var out := Merged(f, lastSeen, now);
            forall a, b :: a in out && b in out && LiveMac(out[a].hw) == mac && LiveMac(out[b].hw) == mac ==> a == b
  {
    hide NormalizeMac, Wins;
    var out := Merged(f, lastSeen, now);
    if exists key :: Shows(f, key, mac) {
      var w := WinnerExists(f, mac);
      WinnerShows(f, w, mac);
      assert w in out && LiveMac(out[w].hw) == mac;
    }
    forall key | key in out && LiveMac(out[key].hw) == mac ensures Wins(f, key, mac) && Shows(f, key, mac) {
      assert LiveMac("-") == "";
    }
    forall a, b | a in out && b in out && LiveMac(out[a].hw) == mac && LiveMac(out[b].hw) == mac ensures a == b {
      WinnerUnique(f, a, b, mac);
    }
  }

  lemma WinnerShows(f: Fold, w: string, mac: string)
    requires Wins(f, w, mac)
    ensures Shows(f, w, mac)
  {
  }

  /** Every pinned port is kept with its address, subnet and label, and loses only a device
      identity that some other row has won. */
  lemma PinsKept(labels: map<string, string>, pinned: map<string, Pin>, leases: seq<Lease>,
                 lastSeen: map<string, int>, now: int, key: string)
    requires PortKeys(leases) && key in pinned
    ensures var f := Folded(labels, pinned, leases);
            var out := Merged(f, lastSeen, now);
            && key in out && key in f.rows && out[key].identity == key && out[key].pinned
            && out[key].ip == pinned[key].ip && out[key].subnet == pinned[key].subnet
            && out[key].portLabel == LabelOf(labels, key)
            && (out[key].hw == f.rows[key].hw
                || (out[key].hw == "-" && exists w :: w != key && Wins(f, w, LiveMac(f.rows[key].hw))))
  {
    hide NormalizeMac, Wins, Folded;
    FoldedCoherent(labels, pinned, leases);
    var f := Folded(labels, pinned, leases);
    var mac := LiveMac(f.rows[key].hw);
    if mac != "" && !Wins(f, key, mac) {
      assert Shows(f, key, mac);
      var w := WinnerExists(f, mac);
    }
  }

  /** An unpinned row goes exactly when another row has won its device. */
  lemma UnpinnedDropped(f: Fold, lastSeen: map<string, int>, now: int, key: string)
    requires key in f.rows && !f.rows[key].pinned
    ensures key !in Merged(f, lastSeen, now)
            <==> exists w :: w != key && Wins(f, w, LiveMac(f.rows[key].hw))
  {
    hide NormalizeMac, Wins;
    var mac := LiveMac(f.rows[key].hw);
    if key !in Merged(f, lastSeen, now) {
      assert Shows(f, key, mac);
      var w := WinnerExists(f, mac);
    }
    if w :| w != key && Wins(f, w, mac) {
      WinnerShows(f, w, mac);
      if Wins(f, key, mac) { WinnerUnique(f, w, key, mac); }
    }
  }

  // ---- The code ----

  method FoldPins(labels: map<string, string>, pinned: map<string, Pin>)
      returns (portRows: map<string, Row>, delim: map<string, bool>)
    ensures Fold(portRows, map[], delim) == Pins(labels, pinned)
  {
    hide LabelOf, PinRow;
    portRows, delim := map[], map[];
    var rest := pinned.Keys;
    while rest != {}
      invariant rest <= pinned.Keys
      invariant portRows == map key | key in pinned && key !in rest :: PinRow(labels, key, pinned[key])
      invariant delim == map key | key in pinned && key !in rest :: pinned[key].delimited
      decreases |rest|
    {
      var key :| key in rest;
      delim := delim[key := pinned[key].delimited];
      portRows := portRows[key := PinRow(labels, key, pinned[key])];
      rest := rest - {key};
    }
  }

  method FoldRows(labels: map<string, string>, pinned: map<string, Pin>, leases: seq<Lease>) returns (f: Fold)
    ensures f == Folded(labels, pinned, leases)
  {
    hide LabelOf, PinRow;
    var portRows, delim := FoldPins(labels, pinned);
    var cltt: map<string, int> := map[];
    assert Fold(portRows, cltt, delim) == Pins(labels, pinned);
    for i := 0 to |leases|
      invariant Fold(portRows, cltt, delim) == Folded(labels, pinned, leases[..i])
    {
      assert leases[..i + 1][..i] == leases[..i];
      var l := leases[i];
      if l.port.None? {
        continue;
      }
      var key := l.port.value.key;
      cltt := cltt[key := l.cltt];
      delim := delim[key := l.port.value.delimited];
      if key in portRows {
        var row := portRows[key].(hw := l.hw);
        if l.hostname != "" {
          row := row.(hostname := l.hostname);
        }
        portRows := portRows[key := row];
      } else {
        portRows := portRows[key := Row(key, l.ip, l.hw, l.hostname, l.subnet, LabelOf(labels, key), false, 0, false)];
      }
    }
    assert leases[..|leases|] == leases;
    f := Fold(portRows, cltt, delim);
  }

  ghost predicate NewAmong(f: Fold, done: set<string>, mac: string) {
    exists key :: key in done && Shows(f, key, mac) && Delimited(f, key)
  }

  method NewFormatMacs(f: Fold) returns (hasNew: set<string>)
    ensures forall mac :: mac in hasNew <==> HasNew(f, mac)
  {
    hide LiveMac, Delimited;
    hasNew := {};
    var rest := f.rows.Keys;
    while rest != {}
      invariant rest <= f.rows.Keys
      invariant forall mac :: mac in hasNew <==> NewAmong(f, f.rows.Keys - rest, mac)
      decreases |rest|
    {
      var key :| key in rest;
      var mac := LiveMac(f.rows[key].hw);
      NewAmongStep(f, f.rows.Keys - rest, key);
      assert f.rows.Keys - (rest - {key}) == (f.rows.Keys - rest) + {key};
      if mac != "" && Delimited(f, key) {
        hasNew := hasNew + {mac};
      }
      rest := rest - {key};
    }
  }

  lemma NewAmongStep(f: Fold, done: set<string>, key: string)
    ensures forall mac :: NewAmong(f, done + {key}, mac)
                          <==> NewAmong(f, done, mac) || (Shows(f, key, mac) && Delimited(f, key))
  {
    hide Shows, Delimited;
    forall mac | NewAmong(f, done, mac) || (Shows(f, key, mac) && Delimited(f, key))
      ensures NewAmong(f, done + {key}, mac)
    {
      if NewAmong(f, done, mac) {
        var k :| k in done && Shows(f, k, mac) && Delimited(f, k);
        assert k in done + {key};
      } else {
        assert key in done + {key};
      }
    }
  }

  /** The best contender of each device among the keys visited so far. */
  ghost predicate BestSoFar(f: Fold, done: set<string>, freshest: map<string, int>, freshestKey: map<string, string>) {
    && freshest.Keys == freshestKey.Keys
    && (forall mac :: mac in freshestKey ==>
        BestOf(f, done, freshestKey[mac], mac) && freshest[mac] == Cltt(f, freshestKey[mac]))
    && (forall mac, key :: key in done && Contends(f, key, mac) ==> mac in freshestKey)
  }

  method PickWinners(f: Fold, hasNew: set<string>) returns (freshestKey: map<string, string>)
    requires forall mac :: mac in hasNew <==> HasNew(f, mac)
    ensures forall mac, key :: Wins(f, key, mac) <==> mac in freshestKey && freshestKey[mac] == key
  {
    hide LiveMac, Delimited, BestSoFar, Contends, Wins;
    var freshest: map<string, int> := map[];
    freshestKey := map[];
    var rest := f.rows.Keys;
    NothingYet(f);
    assert f.rows.Keys - rest == {};
    while rest != {}
      invariant rest <= f.rows.Keys
      invariant BestSoFar(f, f.rows.Keys - rest, freshest, freshestKey)
      decreases |rest|
    {
      var key :| key in rest;
      ghost var done := f.rows.Keys - rest;
      assert f.rows.Keys - (rest - {key}) == done + {key};
      rest := rest - {key};
      var mac := LiveMac(f.rows[key].hw);
      ContendsHere(f, key);
      if mac == "" || (mac in hasNew && !Delimited(f, key)) {
        PassOver(f, done, freshest, freshestKey, key);
        continue;
      }
      SoFar(f, done, freshest, freshestKey, mac);
      Challenge(f, done, freshest, freshestKey, key, mac);
      if mac !in freshestKey || Cltt(f, key) > freshest[mac]
         || (Cltt(f, key) == freshest[mac] && Less(key, freshestKey[mac])) {
        freshest := freshest[mac := Cltt(f, key)];
        freshestKey := freshestKey[mac := key];
      }
    }
    assert f.rows.Keys - rest == f.rows.Keys;
    AllVisited(f, freshest, freshestKey);
  }

  lemma NothingYet(f: Fold)
    ensures BestSoFar(f, {}, map[], map[])
  {
  }

  lemma ContendsHere(f: Fold, key: string)
    requires key in f.rows
    ensures var own := LiveMac(f.rows[key].hw);
            forall mac :: Contends(f, key, mac) <==> mac == own && own != "" && (HasNew(f, own) ==> Delimited(f, key))
  {
    hide LiveMac, Delimited, HasNew;
  }

  lemma PassOver(f: Fold, done: set<string>, freshest: map<string, int>, freshestKey: map<string, string>, key: string)
    requires BestSoFar(f, done, freshest, freshestKey) && forall mac :: !Contends(f, key, mac)
    ensures BestSoFar(f, done + {key}, freshest, freshestKey)
  {
    hide Contends, Beats, Cltt;
  }

  lemma SoFar(f: Fold, done: set<string>, freshest: map<string, int>, freshestKey: map<string, string>, mac: string)
    requires BestSoFar(f, done, freshest, freshestKey)
    ensures mac in freshestKey <==> mac in freshest
    ensures mac in freshestKey ==> freshest[mac] == Cltt(f, freshestKey[mac])
  {
  }

  lemma Challenge(f: Fold, done: set<string>, freshest: map<string, int>, freshestKey: map<string, string>, key: string,
                  mac: string)
    requires BestSoFar(f, done, freshest, freshestKey) && key !in done
    requires forall m :: Contends(f, key, m) <==> m == mac
    ensures if mac !in freshestKey || Beats(f, key, freshestKey[mac])
            then BestSoFar(f, done + {key}, freshest[mac := Cltt(f, key)], freshestKey[mac := key])
            else BestSoFar(f, done + {key}, freshest, freshestKey)
  {
    hide Contends, Beats, Cltt;
    if mac in freshestKey {
      var best := NewBest(f, done, freshestKey[mac], key, mac);
    }
  }

  lemma AllVisited(f: Fold, freshest: map<string, int>, freshestKey: map<string, string>)
    requires BestSoFar(f, f.rows.Keys, freshest, freshestKey)
    ensures forall mac, key :: Wins(f, key, mac) <==> mac in freshestKey && freshestKey[mac] == key
  {
    hide Beats, Cltt;
    forall mac, key ensures Wins(f, key, mac) <==> mac in freshestKey && freshestKey[mac] == key {
      assert forall k :: Contends(f, k, mac) ==> k in f.rows.Keys;
      if mac in freshestKey {
        assert Wins(f, freshestKey[mac], mac);
        if Wins(f, key, mac) { WinnerUnique(f, key, freshestKey[mac], mac); }
      }
    }
  }

  /** What the last loop does with one row; None drops it. */
  method Emit(f: Fold, key: string, hasNew: set<string>, freshestKey: map<string, string>,
              lastSeen: map<string, int>, now: int) returns (r: Option<Row>)
    requires key in f.rows
             && (LiveMac(f.rows[key].hw) != "" ==> forall k :: Shows(f, k, LiveMac(f.rows[key].hw)) ==> k != "")
    requires forall mac :: mac in hasNew <==> HasNew(f, mac)
    requires forall mac, k :: Wins(f, k, mac) <==> mac in freshestKey && freshestKey[mac] == k
    ensures r == if Kept(f, key) then Some(Final(f, key, lastSeen, now)) else None
  {
    hide LiveMac, Delimited, Wins;
    var row := f.rows[key];
    var mac := LiveMac(row.hw);
    if mac != "" {
      assert Shows(f, key, mac);
      ghost var w := WinnerExists(f, mac);
      WinnerShows(f, w, mac);
      WinnerContends(f, key, mac);
    }
    if !row.pinned {
      if mac != "" {
        if mac in hasNew && !Delimited(f, key) {
          return None;
        }
        if key != (if mac in freshestKey then freshestKey[mac] else "") {
          return None;
        }
      }
    } else if mac != "" && mac in freshestKey && freshestKey[mac] != "" && key != freshestKey[mac] {
      row := row.(hw := "-", hostname := "");
    }
    var ts := if row.identity in lastSeen then lastSeen[row.identity] else 0;
    if ts > 0 {
      row := row.(lastSeen := ts, stale := row.hw == "-" && now - ts > STALE_AFTER);
    }
    r := Some(row);
  }

  lemma WinnerContends(f: Fold, key: string, mac: string)
    ensures Wins(f, key, mac) ==> Contends(f, key, mac)
  {
  }

  ghost function MergedAmong(f: Fold, done: set<string>, lastSeen: map<string, int>, now: int): map<string, Row> {
    map key | key in done && key in f.rows && Kept(f, key) :: Final(f, key, lastSeen, now)
  }

  lemma MergedStep(f: Fold, done: set<string>, key: string, lastSeen: map<string, int>, now: int)
    requires key in f.rows && key !in done
    ensures key !in MergedAmong(f, done, lastSeen, now)
    ensures MergedAmong(f, done + {key}, lastSeen, now)
            == if Kept(f, key) then MergedAmong(f, done, lastSeen, now)[key := Final(f, key, lastSeen, now)]
               else MergedAmong(f, done, lastSeen, now)
  {
    hide Kept, Final;
  }

  predicate Distinct(keys: seq<string>) {
    forall i, j :: 0 <= i < j < |keys| ==> keys[i] != keys[j]
  }

  lemma DistinctSnoc(keys: seq<string>, key: string)
    requires Distinct(keys) && key !in Elems(keys)
    ensures Distinct(keys + [key]) && Elems(keys + [key]) == Elems(keys) + {key}
  {
    assert forall i :: 0 <= i < |keys| ==> keys[i] in Elems(keys);
  }

  method EmitAll(f: Fold, hasNew: set<string>, freshestKey: map<string, string>, lastSeen: map<string, int>, now: int)
      returns (keys: seq<string>, rows: map<string, Row>)
    requires forall k :: k in f.rows && LiveMac(f.rows[k].hw) != "" ==> k != ""
    requires forall mac :: mac in hasNew <==> HasNew(f, mac)
    requires forall mac, k :: Wins(f, k, mac) <==> mac in freshestKey && freshestKey[mac] == k
    ensures rows == Merged(f, lastSeen, now) && Elems(keys) == rows.Keys
    ensures Distinct(keys)
  {
    hide LiveMac, Delimited, Wins, Kept, Final, HasNew, MergedAmong, Merged, Distinct, Elems;
    keys, rows := [], map[];
    var rest := f.rows.Keys;
    NoneMerged(f, lastSeen, now);
    assert f.rows.Keys - rest == {};
    while rest != {}
      invariant rest <= f.rows.Keys
      invariant Distinct(keys)
      invariant Elems(keys) == rows.Keys
      invariant rows == MergedAmong(f, f.rows.Keys - rest, lastSeen, now)
      decreases |rest|
    {
      var key :| key in rest;
      MergedStep(f, f.rows.Keys - rest, key, lastSeen, now);
      assert f.rows.Keys - (rest - {key}) == (f.rows.Keys - rest) + {key};
      var r := Emit(f, key, hasNew, freshestKey, lastSeen, now);
      rest := rest - {key};
      if r.Some? {
        DistinctSnoc(keys, key);
        keys := keys + [key];
        rows := rows[key := r.value];
      }
    }
    assert f.rows.Keys - rest == f.rows.Keys;
    AllMerged(f, lastSeen, now);
  }

  lemma NoneMerged(f: Fold, lastSeen: map<string, int>, now: int)
    ensures MergedAmong(f, {}, lastSeen, now) == map[] && Elems([]) == {} && Distinct([])
  {
  }

  lemma AllMerged(f: Fold, lastSeen: map<string, int>, now: int)
    ensures MergedAmong(f, f.rows.Keys, lastSeen, now) == Merged(f, lastSeen, now)
  {
    hide Kept, Final;
  }

  /** The merged rows in the order of their identities, whatever order the maps are walked in. */
  method MergePortRows(labels: map<string, string>, pinned: map<string, Pin>, leases: seq<Lease>,
                       lastSeen: map<string, int>, now: int) returns (ports: seq<Row>)
    requires PortKeys(leases)
    ensures var out := Merged(Folded(labels, pinned, leases), lastSeen, now);
            && (forall i, j :: 0 <= i < j < |ports| ==> Less(ports[i].identity, ports[j].identity))
            && (forall i :: 0 <= i < |ports| ==> ports[i].identity in out && out[ports[i].identity] == ports[i])
            && (forall key :: key in out ==> out[key] in ports)
  {
    hide LiveMac, Delimited, Wins, Folded, Less, Merged, HasNew;
    var f := FoldRows(labels, pinned, leases);
    FoldedCoherent(labels, pinned, leases);
    var hasNew := NewFormatMacs(f);
    var freshestKey := PickWinners(f, hasNew);
    var keys, rows := EmitAll(f, hasNew, freshestKey, lastSeen, now);
    keys := SortStrings(keys);
    FinalIdentities(f, labels, pinned, lastSeen, now);
    assert forall i :: 0 <= i < |keys| ==> keys[i] in Elems(keys);
    ports := seq(|keys|, i requires 0 <= i < |keys| && keys[i] in rows => rows[keys[i]]);
    forall key | key in rows ensures rows[key] in ports {
      assert key in Elems(keys);
      var i :| 0 <= i < |keys| && keys[i] == key;
      assert ports[i] == rows[key];
    }
  }

  lemma FinalIdentities(f: Fold, labels: map<string, string>, pinned: map<string, Pin>, lastSeen: map<string, int>,
                        now: int)
    requires Coherent(f, labels, pinned)
    ensures forall key :: key in Merged(f, lastSeen, now) ==> Merged(f, lastSeen, now)[key].identity == key
  {
    hide LiveMac, Wins, Kept, LabelOf;
  }
}
