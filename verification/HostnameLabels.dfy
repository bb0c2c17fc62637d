/** Collision-free labels for named devices (internal/web/hostnames.go). */
module HostnameLabels {
  import opened Casing
  import opened Common
  import opened Decimal
  import opened Slugs
  import opened StringOrder

  const TAG_LEN := 4
  const MAX_INT := 0x7fff_ffff_ffff_ffff

  /** A MAC in normal form: lowercase letters and digits. Real ones have 12 hex digits; 61 is
      the longest that leaves room for a slug character. */
  predicate IsMac(mac: string) {
    1 <= |mac| <= 61 && forall i :: 0 <= i < |mac| ==> IsAlnum(mac[i])
  }

  // ---- Tags ----

  function Tail(m: string, n: nat): string {
    if n < |m| then m[|m| - n..] else m
  }

  function Cut(s: string, room: nat): string {
    if |s| > room then TrimDashes(s[..room]) else s
  }

  /** tagSlug on a normalized MAC. It slices out of range, and panics, exactly when the part
      of the MAC it keeps is longer than 62. */
  function TagSlug(s: string, mac: string, n: nat): string
    requires |Tail(mac, n)| <= 62
  {
    var m := Tail(mac, n);
    Cut(s, 63 - 1 - |m|) + "-" + m
  }

  function FullTag(s: string, mac: string): string
    requires |mac| <= 62
  {
    TagSlug(s, mac, |mac|)
  }

  lemma SuffixFits(n: int)
    requires 2 <= n <= MAX_INT
    ensures 1 <= |Itoa(n)| <= 19
  {
    Pow10Sum(5, 5);
    Pow10Sum(10, 9);
    assert Pow10(5) == 100_000 && Pow10(9) == 1_000_000_000;
    DigitsLength(n, 19);
    ItoaSign(n);
  }

  /** numberedTagSlug. */
  function Numbered(s: string, mac: string, n: int): string
    requires |mac| <= 62 && 2 <= n <= MAX_INT
  {
    SuffixFits(n);
    var suffix := "-" + Itoa(n);
    Cut(FullTag(s, mac), 63 - |suffix|) + suffix
  }

  lemma CutPrefix(s: string, room: nat)
    requires s != "" && s[0] != '-' && room > 0
    ensures var r := Cut(s, room); 1 <= |r| <= room && r <= s
  {
    if |s| > room {
      TrimmedIsPrefix(s[..room]);
    }
  }

  lemma TagIsLabel(s: string, mac: string, n: nat)
    requires IsLabel(s) && IsMac(mac) && n > 0
    ensures IsLabel(TagSlug(s, mac, n))
  {
    CutPrefix(s, 63 - 1 - |Tail(mac, n)|);
  }

  lemma NumberedIsLabel(s: string, mac: string, n: int)
    requires IsLabel(s) && IsMac(mac) && 2 <= n <= MAX_INT
    ensures IsLabel(Numbered(s, mac, n))
  {
    hide Itoa, TrimDashes, TagSlug;
    TagIsLabel(s, mac, |mac|);
    SuffixFits(n);
    CutPrefix(FullTag(s, mac), 63 - |"-" + Itoa(n)|);
    ItoaChars(n);
  }

  /** p is a start of s of at most `room` characters, all of s or one not ending in a dash. */
  predicate BaseOf(p: string, s: string, room: nat) { p <= s && |p| <= room && (p == s || !EndsInDash(p)) }

  lemma CutExactly(s: string, room: nat)
    ensures BaseOf(Cut(s, room), s, room) && forall p :: BaseOf(p, s, room) ==> |p| <= |Cut(s, room)|
  {
    if |s| > room {
      var cut, r := s[..room], Cut(s, room);
      TrimmedIsPrefix(cut);
      hide TrimDashes;
      forall p | BaseOf(p, s, room) ensures |p| <= |r| {
        if p != "" { assert p[|p| - 1] == s[|p| - 1] == cut[|p| - 1]; }
      }
    }
  }

  /** The longest base of s with at most `room` characters. */
  ghost predicate LongestBase(p: string, s: string, room: nat) {
    BaseOf(p, s, room) && forall q :: BaseOf(q, s, room) ==> |q| <= |p|
  }

  /** A tag is the longest base that leaves room, a dash, and the last n characters of the
      MAC, or all of it when it has no more. */
  lemma TagExactly(s: string, mac: string, n: nat) returns (base: string, m: string)
    requires |mac| <= 62 || n <= 62
    ensures |Tail(mac, n)| <= 62 && |m| <= 62
    ensures TagSlug(s, mac, n) == base + "-" + m
    ensures if n < |mac| then |m| == n && mac[|mac| - n..] == m else m == mac
    ensures LongestBase(base, s, 62 - |m|)
  {
    hide TrimDashes, BaseOf;
    m := Tail(mac, n);
    base := Cut(s, 62 - |m|);
    CutExactly(s, 62 - |m|);
  }

  /** A numbered tag is the longest base of the full tag that leaves room, a dash, and the
      number in decimal. */
  lemma NumberedExactly(s: string, mac: string, n: int) returns (base: string)
    requires |mac| <= 62 && 2 <= n <= MAX_INT
    ensures |Itoa(n)| <= 62
    ensures Numbered(s, mac, n) == base + "-" + Itoa(n)
    ensures LongestBase(base, TagSlug(s, mac, |mac|), 62 - |Itoa(n)|)
  {
    hide Cut, BaseOf, Itoa, TagSlug, LongestBase;
    SuffixFits(n);
    base := Cut(FullTag(s, mac), 62 - |Itoa(n)|);
    CutLongest(FullTag(s, mac), 62 - |Itoa(n)|);
    assert base + ("-" + Itoa(n)) == base + "-" + Itoa(n);
  }

  lemma CutLongest(s: string, room: nat)
    ensures LongestBase(Cut(s, room), s, room)
  {
    hide Cut, BaseOf;
    CutExactly(s, room);
  }

  /** Different numbers give different labels, however the base is cut. */
  lemma NumberedInjective(s: string, mac: string, m: int, n: int)
    requires |mac| <= 62 && 2 <= m <= MAX_INT && 2 <= n <= MAX_INT
    ensures Numbered(s, mac, m) == Numbered(s, mac, n) ==> m == n
  {
    hide Cut, TagSlug, Itoa;
    SuffixFits(m);
    SuffixFits(n);
    var a, c := Cut(FullTag(s, mac), 63 - |"-" + Itoa(m)|), Cut(FullTag(s, mac), 63 - |"-" + Itoa(n)|);
    NoDash(m);
    NoDash(n);
    if Numbered(s, mac, m) == Numbered(s, mac, n) {
      assert a + "-" + Itoa(m) == a + ("-" + Itoa(m));
      assert c + "-" + Itoa(n) == c + ("-" + Itoa(n));
      SplitAtLast(a, Itoa(m), c, Itoa(n), '-');
      ItoaInjective(m, n);
    }
  }

  lemma NoDash(n: nat)
    ensures '-' !in Itoa(n)
  {
    ItoaChars(n);
  }

  // ---- The numbering loop ----

  ghost predicate TakenUpTo(used: set<string>, s: string, mac: string, n: int)
    requires |mac| <= 62 && 2 <= n <= MAX_INT
  {
    forall i :: 2 <= i < n ==> Numbered(s, mac, i) in used
  }

  /** n - 2 different labels cannot all be taken by fewer than n - 2 devices. */
  lemma {:induction false} TakenBound(used: set<string>, s: string, mac: string, n: int)
    requires |mac| <= 62 && 2 <= n <= MAX_INT && TakenUpTo(used, s, mac, n)
    ensures n - 2 <= |used|
  {
    if n > 2 {
      var last := Numbered(s, mac, n - 1);
      forall i | 2 <= i < n - 1 ensures Numbered(s, mac, i) in used - {last} {
        NumberedInjective(s, mac, i, n - 1);
      }
      TakenBound(used - {last}, s, mac, n - 1);
    }
  }

  /** The first free number from n on; the search ends because the numbered labels are
      pairwise distinct and only finitely many are taken. */
  ghost function FirstFree(used: set<string>, s: string, mac: string, n: int): (r: int)
    requires |mac| <= 62 && |used| + 2 < MAX_INT && 2 <= n <= MAX_INT && TakenUpTo(used, s, mac, n)
    ensures n <= r <= |used| + 2 && Numbered(s, mac, r) !in used && TakenUpTo(used, s, mac, r)
    decreases |used| + 2 - n
  {
    TakenBound(used, s, mac, n);
    if Numbered(s, mac, n) in used then
      FirstFreeStep(used, s, mac, n);
      FirstFree(used, s, mac, n + 1)
    else n
  }

  lemma FirstFreeStep(used: set<string>, s: string, mac: string, n: int)
    requires |mac| <= 62 && |used| + 2 < MAX_INT && 2 <= n <= MAX_INT && TakenUpTo(used, s, mac, n)
    requires Numbered(s, mac, n) in used
    ensures n < |used| + 2 && TakenUpTo(used, s, mac, n + 1)
  {
    hide Numbered;
    TakenBound(used, s, mac, n);
    assert TakenUpTo(used, s, mac, n + 1);
    TakenBound(used, s, mac, n + 1);
  }

  // ---- Who collides ----

  function Owning(names: map<string, string>, s: string): set<string> {
    set mac | mac in names && Slug(names[mac]) == s
  }

  predicate Bare(names: map<string, string>, mac: string)
    requires mac in names
  {
    Slug(names[mac]) != "" && |Owning(names, Slug(names[mac]))| == 1
  }

  predicate Tagged(names: map<string, string>, mac: string)
    requires mac in names
  {
    Slug(names[mac]) != "" && |Owning(names, Slug(names[mac]))| > 1
  }

  predicate ShortTagIs(names: map<string, string>, mac: string, tag: string)
    requires mac in names
  {
    && Tagged(names, mac)
    && TagSlug(Slug(names[mac]), NormalizeMac(mac), TAG_LEN) == tag
  }

  function ShortTagged(names: map<string, string>, tag: string): set<string> {
    set mac | mac in names && ShortTagIs(names, mac, tag)
  }

  predicate Named(names: map<string, string>, mac: string) {
    mac in names && Slug(names[mac]) != ""
  }

  /** Every named device is either bare or tagged. */
  lemma NamedSplit(names: map<string, string>, mac: string)
    requires mac in names
    ensures Slug(names[mac]) != "" ==> (Tagged(names, mac) <==> !Bare(names, mac))
  {
    assert mac in Owning(names, Slug(names[mac]));
  }

  lemma OnlyOne(o: set<string>, a: string, b: string)
    requires a in o && b in o
    ensures |o| == 1 ==> a == b
  {
    SubsetSize({a, b}, o);
  }

  /** Two bare devices have different slugs. */
  lemma BareDistinct(names: map<string, string>, a: string, b: string)
    requires a in names && b in names && Bare(names, a) && Slug(names[a]) == Slug(names[b])
    ensures a == b
  {
    OnlyOne(Owning(names, Slug(names[a])), a, b);
  }

  // ---- The specification ----

  /** The devices can be counted in a Go int. */
  ghost predicate Countable(names: map<string, string>) { |names| + 2 < MAX_INT }

  function Reserved(names: map<string, string>): map<string, string> {
    map mac | mac in names && Bare(names, mac) :: Slug(names[mac])
  }

  function ShortTag(names: map<string, string>, mac: string): string
    requires mac in names
  {
    TagSlug(Slug(names[mac]), NormalizeMac(mac), TAG_LEN)
  }

  /** The short tag is shared, or is a label already. */
  predicate NeedsFullTag(names: map<string, string>, used: set<string>, mac: string)
    requires mac in names
  {
    |ShortTagged(names, ShortTag(names, mac))| > 1 || ShortTag(names, mac) in used
  }

  /** The code panics on a device that needs its full tag when its MAC leaves no room for it. */
  predicate Panics(names: map<string, string>, used: set<string>, mac: string)
    requires mac in names
  {
    NeedsFullTag(names, used, mac) && |NormalizeMac(mac)| > 62
  }

  /** The label of a colliding device: its short tag, else its full-MAC tag, else the first
      free number. */
  ghost function Pick(names: map<string, string>, used: set<string>, mac: string): string
    requires mac in names && !Panics(names, used, mac) && |used| + 2 < MAX_INT
  {
    if !NeedsFullTag(names, used, mac) then ShortTag(names, mac) else
      var s, m := Slug(names[mac]), NormalizeMac(mac);
      if FullTag(s, m) in used then Numbered(s, m, FirstFree(used, s, m, 2)) else FullTag(s, m)
  }

  lemma {:induction false} ValuesBound(m: map<string, string>)
    ensures |m.Values| <= |m|
  {
    if m.Keys != {} {
      var k :| k in m.Keys;
      var r := m - {k};
      ValuesBound(r);
      assert m.Values == r.Values + {m[k]} by {
        forall v ensures v in m.Values <==> v in r.Values + {m[k]} {
          if v in m.Values {
            var x :| x in m && m[x] == v;
            if x != k { assert x in r && r[x] == v; }
          }
        }
      }
      assert m.Keys == r.Keys + {k};
      assert |m| == |m.Keys| && |r| == |r.Keys|;
    } else {
      assert m.Values == {};
    }
  }

  lemma UsedFits(names: map<string, string>, m: map<string, string>)
    requires Countable(names) && m.Keys <= names.Keys
    ensures |m.Values| + 2 < MAX_INT
  {
    ValuesBound(m);
    SubsetSize(m.Keys, names.Keys);
    assert |m| == |m.Keys| && |names| == |names.Keys|;
  }

  /** The labels after assigning the devices of macs in order, None if the code panics. */
  ghost function Labels(names: map<string, string>, macs: seq<string>): (out: Option<map<string, string>>)
    requires Countable(names) && Elems(macs) <= names.Keys
    ensures out.Some? ==> out.value.Keys <= names.Keys
  {
    if macs == [] then Some(Reserved(names)) else
      var init, mac := macs[..|macs| - 1], macs[|macs| - 1];
      assert macs == init + [mac];
      assert Elems(init) <= Elems(macs) && mac in Elems(macs);
      var out := Labels(names, init);
      if out.None? then None else
        UsedFits(names, out.value);
        Relabelled(names, out.value, mac)
  }

  /** The labels out after the turn of one more device. */
  ghost function Relabelled(names: map<string, string>, out: map<string, string>, mac: string)
      : Option<map<string, string>>
    requires mac in names && |out.Values| + 2 < MAX_INT
  {
    if !Tagged(names, mac) then Some(out)
    else if Panics(names, out.Values, mac) then None
    else Some(out[mac := Pick(names, out.Values, mac)])
  }

  // ---- What the labels are ----

  predicate Distinct(out: map<string, string>) {
    forall a, b :: a in out && b in out && a != b ==> out[a] != out[b]
  }

  /** Every device with a well-formed MAC has a DNS-safe label. */
  predicate AllLabels(out: map<string, string>) {
    forall a :: a in out && IsMac(NormalizeMac(a)) ==> IsLabel(out[a])
  }

  lemma PickIsFresh(names: map<string, string>, used: set<string>, mac: string)
    requires mac in names && !Panics(names, used, mac) && |used| + 2 < MAX_INT
    ensures Pick(names, used, mac) !in used
  {
    hide Numbered, TagSlug, Slug, ShortTagged, NormalizeMac;
  }

  lemma PickIsLabel(names: map<string, string>, used: set<string>, mac: string)
    requires mac in names && IsMac(NormalizeMac(mac)) && |used| + 2 < MAX_INT && Slug(names[mac]) != ""
    ensures !Panics(names, used, mac) && IsLabel(Pick(names, used, mac))
  {
    hide Numbered, TagSlug, Slug, ShortTagged, IsLabel, NormalizeMac;
    var s, m := Slug(names[mac]), NormalizeMac(mac);
    NamedIsLabel(names[mac]);
    TagIsLabel(s, m, TAG_LEN);
    TagIsLabel(s, m, |m|);
    NumberedIsLabel(s, m, FirstFree(used, s, m, 2));
  }

  lemma NamedIsLabel(name: string)
    ensures Slug(name) != "" ==> IsLabel(Slug(name))
  {
    SlugIsSlug(name);
  }

  lemma ReservedIsGood(names: map<string, string>)
    ensures Distinct(Reserved(names)) && AllLabels(Reserved(names))
  {
    hide Slug, IsLabel;
    var r := Reserved(names);
    forall a, b | a in r && b in r && a != b ensures r[a] != r[b] {
      if r[a] == r[b] { BareDistinct(names, a, b); }
    }
    forall a | a in r ensures IsLabel(r[a]) {
      NamedIsLabel(names[a]);
    }
  }

  lemma AddFresh(out: map<string, string>, mac: string, tag: string)
    requires Distinct(out) && AllLabels(out) && tag !in out.Values && (IsMac(NormalizeMac(mac)) ==> IsLabel(tag))
    ensures Distinct(out[mac := tag]) && AllLabels(out[mac := tag])
  {
    hide IsLabel, IsMac, NormalizeMac;
    assert forall a :: a in out ==> out[a] in out.Values;
  }

  lemma {:induction false} LabelsGood(names: map<string, string>, macs: seq<string>)
    requires Countable(names) && Elems(macs) <= names.Keys
    ensures var out := Labels(names, macs); out.Some? ==> Distinct(out.value) && AllLabels(out.value)
  {
    hide Pick, Panics, IsLabel, Distinct, AllLabels, IsMac, NormalizeMac;
    if macs == [] {
      ReservedIsGood(names);
    } else {
      var init, mac := macs[..|macs| - 1], macs[|macs| - 1];
      assert macs == init + [mac];
      assert Elems(init) <= Elems(macs) && mac in Elems(macs);
      LabelsGood(names, init);
      if Labels(names, init).Some? {
        var out := Labels(names, init).value;
        UsedFits(names, out);
        if Tagged(names, mac) && !Panics(names, out.Values, mac) {
          PickIsFresh(names, out.Values, mac);
          if IsMac(NormalizeMac(mac)) { PickIsLabel(names, out.Values, mac); }
          AddFresh(out, mac, Pick(names, out.Values, mac));
        }
      }
    }
  }

  /** Bare devices keep their slug; the labelled devices are the bare ones and the tagged
      ones among macs. */
  lemma {:induction false} LabelsCover(names: map<string, string>, macs: seq<string>)
    requires Countable(names) && Elems(macs) <= names.Keys
    ensures Labels(names, macs).Some? ==>
              var out := Labels(names, macs).value;
              && (forall mac :: mac in names && Bare(names, mac) ==> mac in out && out[mac] == Slug(names[mac]))
              && (forall mac :: mac in out <==>
                  mac in names && (Bare(names, mac) || (Tagged(names, mac) && mac in macs)))
  {
    hide Pick, Panics, Slug;
    if macs != [] {
      var init, mac := macs[..|macs| - 1], macs[|macs| - 1];
      assert macs == init + [mac];
      assert Elems(init) <= Elems(macs) && mac in Elems(macs);
      LabelsCover(names, init);
      if Labels(names, init).Some? { UsedFits(names, Labels(names, init).value); }
    }
  }

  /** No panic when every colliding device's MAC leaves room for its full tag. */
  lemma {:induction false} ShortMacsNeverPanic(names: map<string, string>, macs: seq<string>)
    requires Countable(names) && Elems(macs) <= names.Keys
    requires forall mac :: mac in names && Tagged(names, mac) ==> |NormalizeMac(mac)| <= 62
    ensures Labels(names, macs).Some?
  {
    hide Slug, NormalizeMac, Tagged, NeedsFullTag;
    if macs != [] {
      var init, mac := macs[..|macs| - 1], macs[|macs| - 1];
      assert macs == init + [mac];
      assert Elems(init) <= Elems(macs) && mac in Elems(macs);
      ShortMacsNeverPanic(names, init);
      UsedFits(names, Labels(names, init).value);
    }
  }

  // ---- The code ----

  method TagSlugOf(s: string, mac: string, n: nat) returns (r: string)
    requires |Tail(NormalizeMac(mac), n)| <= 62
    ensures r == TagSlug(s, NormalizeMac(mac), n)
  {
    hide NormalizeMac, TrimDashes;
    var m := NormalizeMac(mac);
    if n < |m| {
      m := m[|m| - n..];
    }
    var room := 63 - 1 - |m|;
    var base := s;
    if |s| > room {
      base := TrimRightDashes(s[..room]);
    }
    r := base + "-" + m;
  }

  method NumberedTagSlug(s: string, mac: string, n: int) returns (r: string)
    requires |NormalizeMac(mac)| <= 62 && 2 <= n <= MAX_INT
    ensures r == Numbered(s, NormalizeMac(mac), n)
  {
    var suffix := "-" + Itoa(n);
    SuffixFits(n);
    var base := TagSlugOf(s, mac, |NormalizeMac(mac)|);
    var room := 63 - |suffix|;
    if |base| > room {
      base := TrimRightDashes(base[..room]);
    }
    r := base + suffix;
  }

  ghost predicate SortedKeys(names: map<string, string>, macs: seq<string>) {
    Ascending(macs) && Elems(macs) == names.Keys
  }

  lemma ElemsSnoc(s: seq<string>, x: string)
    ensures Elems(s + [x]) == Elems(s) + {x}
  {
  }

  /** The keys in some map iteration order, then sorted. */
  method CollectMacs(names: map<string, string>) returns (macs: seq<string>)
    ensures SortedKeys(names, macs)
  {
    macs := [];
    var rest := names.Keys;
    while rest != {}
      invariant Elems(macs) == names.Keys - rest && rest <= names.Keys
      invariant forall i, j :: 0 <= i < j < |macs| ==> macs[i] != macs[j]
      decreases |rest|
    {
      var mac :| mac in rest;
      assert forall i :: 0 <= i < |macs| ==> macs[i] in Elems(macs);
      ElemsSnoc(macs, mac);
      macs := macs + [mac];
      rest := rest - {mac};
    }
    macs := SortStrings(macs);
  }

  function Count(m: map<string, nat>, k: string): nat { if k in m then m[k] else 0 }

  /** The i-th device adds itself to its own slug's owners and to nobody else's. */
  lemma OwningStep(names: map<string, string>, macs: seq<string>, i: nat, s: string)
    requires SortedKeys(names, macs) && i < |macs| && macs[i] in names
    ensures |OwningAmong(names, macs[..i + 1], s)|
            == |OwningAmong(names, macs[..i], s)| + (if s == Slug(names[macs[i]]) then 1 else 0)
  {
    hide Slug, Elems;
    var mac := macs[i];
    NotBefore(macs, i);
    assert macs[..i + 1] == macs[..i] + [mac];
    assert OwningAmong(names, macs[..i + 1], s)
        == OwningAmong(names, macs[..i], s) + (if s == Slug(names[mac]) then {mac} else {});
  }

  lemma OwningAll(names: map<string, string>, macs: seq<string>, s: string)
    requires Elems(macs) == names.Keys
    ensures OwningAmong(names, macs, s) == Owning(names, s) && OwningAmong(names, [], s) == {}
  {
    hide Slug;
    assert forall mac :: mac in names.Keys <==> mac in Elems(macs);
  }

  lemma KeyAt(names: map<string, string>, macs: seq<string>, i: nat)
    requires SortedKeys(names, macs) && i < |macs|
    ensures macs[i] in names && Elems(macs[..i + 1]) == Elems(macs[..i]) + {macs[i]}
    ensures macs[i] !in Elems(macs[..i])
  {
    assert macs[i] in Elems(macs);
    assert macs[..i + 1] == macs[..i] + [macs[i]];
    NotBefore(macs, i);
  }

  /** The counter after the first i devices. */
  ghost predicate OwnersUpTo(names: map<string, string>, macs: seq<string>, i: nat, owners: map<string, nat>)
    requires i <= |macs|
  {
    forall s :: s != "" ==> Count(owners, s) == |OwningAmong(names, macs[..i], s)|
  }

  function Counting(owners: map<string, nat>, s: string): map<string, nat> {
    if s != "" then owners[s := Count(owners, s) + 1] else owners
  }

  lemma OwnersNext(names: map<string, string>, macs: seq<string>, i: nat, owners: map<string, nat>)
    requires SortedKeys(names, macs) && i < |macs| && macs[i] in names && OwnersUpTo(names, macs, i, owners)
    ensures OwnersUpTo(names, macs, i + 1, Counting(owners, Slug(names[macs[i]])))
  {
    hide Slug, SortedKeys, OwningAmong;
    var s := Slug(names[macs[i]]);
    forall x | x != "" ensures Count(Counting(owners, s), x) == |OwningAmong(names, macs[..i + 1], x)| {
      OwningStep(names, macs, i, x);
      assert Count(owners, x) == |OwningAmong(names, macs[..i], x)|;
    }
  }

  lemma OwnersNone(names: map<string, string>, macs: seq<string>)
    requires SortedKeys(names, macs)
    ensures OwnersUpTo(names, macs, 0, map[]) && Elems(macs[..0]) == {}
  {
    NoElems(macs[..0]);
    forall s ensures |OwningAmong(names, macs[..0], s)| == 0 { OwningAll(names, macs, s); }
  }

  lemma OwnersAll(names: map<string, string>, macs: seq<string>, owners: map<string, nat>)
    requires SortedKeys(names, macs) && OwnersUpTo(names, macs, |macs|, owners)
    ensures forall s :: s != "" ==> Count(owners, s) == |Owning(names, s)|
  {
    hide Slug, OwningAmong, Owning;
    assert macs[..|macs|] == macs;
    forall s | s != "" ensures Count(owners, s) == |Owning(names, s)| {
      OwningAll(names, macs, s);
      assert Count(owners, s) == |OwningAmong(names, macs[..|macs|], s)|;
    }
  }

  method CountOwners(names: map<string, string>, macs: seq<string>)
      returns (slug: map<string, string>, owners: map<string, nat>)
    requires SortedKeys(names, macs)
    ensures Counted(names, slug, owners)
  {
    hide Slug, SortedKeys, Elems, OwnersUpTo, Owning, Count;
    slug, owners := map[], map[];
    OwnersNone(names, macs);
    for i := 0 to |macs|
      invariant slug.Keys == Elems(macs[..i])
      invariant forall mac :: mac in slug ==> mac in names && slug[mac] == Slug(names[mac])
      invariant OwnersUpTo(names, macs, i, owners)
    {
      var mac := macs[i];
      KeyAt(names, macs, i);
      OwnersNext(names, macs, i, owners);
      var s := SlugifyHostname(names[mac]);
      slug := slug[mac := s];
      if s != "" {
        owners := owners[s := Count(owners, s) + 1];
      }
      assert slug.Keys == Elems(macs[..i]) + {mac};
    }
    assert macs[..|macs|] == macs;
    SortedElems(names, macs);
    OwnersAll(names, macs, owners);
  }

  lemma SortedElems(names: map<string, string>, macs: seq<string>)
    requires SortedKeys(names, macs)
    ensures Elems(macs) == names.Keys && Ascending(macs) && macs[..0] == []
  {
  }

  lemma NotBefore(macs: seq<string>, i: nat)
    requires Ascending(macs) && i < |macs|
    ensures macs[i] !in macs[..i]
  {
    forall j | 0 <= j < i ensures macs[j] != macs[i] {
      LessAsymmetric(macs[j], macs[i]);
    }
  }

  function OwningAmong(names: map<string, string>, macs: seq<string>, s: string): set<string> {
    set mac | mac in macs && mac in names && Slug(names[mac]) == s
  }

  function ShortAmong(names: map<string, string>, macs: seq<string>, tag: string): set<string> {
    set mac | mac in macs && mac in names && ShortTagIs(names, mac, tag)
  }

  ghost predicate Counted(names: map<string, string>, slug: map<string, string>, owners: map<string, nat>) {
    && slug.Keys == names.Keys && (forall mac :: mac in names ==> slug[mac] == Slug(names[mac]))
    && (forall s :: s != "" ==> Count(owners, s) == |Owning(names, s)|)
  }

  lemma ShortStep(names: map<string, string>, macs: seq<string>, i: nat, t: string)
    requires SortedKeys(names, macs) && i < |macs| && macs[i] in names
    ensures |ShortAmong(names, macs[..i + 1], t)|
            == |ShortAmong(names, macs[..i], t)| + (if ShortTagIs(names, macs[i], t) then 1 else 0)
  {
    hide Slug, Elems, ShortTagIs;
    var mac := macs[i];
    NotBefore(macs, i);
    assert macs[..i + 1] == macs[..i] + [mac];
    assert ShortAmong(names, macs[..i + 1], t)
        == ShortAmong(names, macs[..i], t) + (if ShortTagIs(names, mac, t) then {mac} else {});
  }

  lemma ShortAll(names: map<string, string>, macs: seq<string>, t: string)
    requires Elems(macs) == names.Keys
    ensures ShortAmong(names, macs, t) == ShortTagged(names, t) && ShortAmong(names, [], t) == {}
  {
    hide ShortTagIs;
    assert forall mac :: mac in names.Keys <==> mac in Elems(macs);
  }

  lemma CountedAt(names: map<string, string>, slug: map<string, string>, owners: map<string, nat>, mac: string)
    requires Counted(names, slug, owners) && mac in names
    ensures mac in slug && slug[mac] == Slug(names[mac])
    ensures slug[mac] != "" && Count(owners, slug[mac]) > 1 <==> Tagged(names, mac)
    ensures slug[mac] != "" && Count(owners, slug[mac]) == 1 <==> Bare(names, mac)
  {
    hide Slug, Owning, Count;
  }

  method CountShortTags(names: map<string, string>, macs: seq<string>, slug: map<string, string>,
                        owners: map<string, nat>)
      returns (tag4: map<string, nat>)
    requires SortedKeys(names, macs) && Counted(names, slug, owners)
    ensures forall t :: Count(tag4, t) == |ShortTagged(names, t)|
  {
    hide Slug, TagSlug, SortedKeys, Counted, Tagged, ShortAmong, ShortTagged;
    tag4 := map[];
    SortedElems(names, macs);
    forall t ensures |ShortAmong(names, macs[..0], t)| == 0 { ShortAll(names, macs, t); }
    for i := 0 to |macs|
      invariant forall t :: Count(tag4, t) == |ShortAmong(names, macs[..i], t)|
    {
      var mac := macs[i];
      KeyAt(names, macs, i);
      CountedAt(names, slug, owners, mac);
      var s := slug[mac];
      ghost var before := tag4;
      if s != "" && Count(owners, s) > 1 {
        var tag := TagSlugOf(s, mac, TAG_LEN);
        tag4 := tag4[tag := Count(tag4, tag) + 1];
      }
      forall t ensures Count(tag4, t) == |ShortAmong(names, macs[..i + 1], t)| {
        assert Count(before, t) == |ShortAmong(names, macs[..i], t)|;
        ShortStep(names, macs, i, t);
      }
    }
    assert macs[..|macs|] == macs;
    forall t ensures ShortAmong(names, macs, t) == ShortTagged(names, t) {
      ShortAll(names, macs, t);
    }
  }

  function BareAmong(names: map<string, string>, macs: seq<string>): map<string, string> {
    map mac | mac in macs && mac in names && Bare(names, mac) :: Slug(names[mac])
  }

  lemma BareStep(names: map<string, string>, macs: seq<string>, i: nat)
    requires SortedKeys(names, macs) && i < |macs| && macs[i] in names
    ensures macs[i] !in BareAmong(names, macs[..i])
    ensures BareAmong(names, macs[..i + 1])
            == if Bare(names, macs[i]) then BareAmong(names, macs[..i])[macs[i] := Slug(names[macs[i]])]
               else BareAmong(names, macs[..i])
  {
    hide Slug, Bare, Elems;
    NotBefore(macs, i);
    assert macs[..i + 1] == macs[..i] + [macs[i]];
  }

  lemma BareAll(names: map<string, string>, macs: seq<string>)
    requires Elems(macs) == names.Keys
    ensures BareAmong(names, macs) == Reserved(names)
  {
    hide Slug, Bare;
    assert forall mac :: mac in names.Keys <==> mac in Elems(macs);
  }

  method ReserveBare(names: map<string, string>, macs: seq<string>, slug: map<string, string>, owners: map<string, nat>)
      returns (out: map<string, string>, used: set<string>)
    requires SortedKeys(names, macs) && Counted(names, slug, owners)
    ensures out == Reserved(names) && used == out.Values
  {
    hide Slug, SortedKeys, Counted, Bare, Reserved;
    out, used := map[], {};
    for i := 0 to |macs|
      invariant out == BareAmong(names, macs[..i])
      invariant used == out.Values
    {
      var mac := macs[i];
      KeyAt(names, macs, i);
      CountedAt(names, slug, owners, mac);
      BareStep(names, macs, i);
      var s := slug[mac];
      if s != "" && Count(owners, s) == 1 {
        AddValue(out, mac, s);
        out := out[mac := s];
        used := used + {s};
      }
    }
    assert macs[..|macs|] == macs;
    SortedElems(names, macs);
    BareAll(names, macs);
  }

  lemma AddValue(m: map<string, string>, k: string, v: string)
    requires k !in m
    ensures m[k := v].Values == m.Values + {v}
  {
    var r := m[k := v];
    forall x ensures x in r.Values <==> x in m.Values + {v} {
      if x in m.Values {
        var y :| y in m && m[y] == x;
        assert y in r && r[y] == x;
      }
      assert k in r && r[k] == v;
    }
  }

  lemma FirstFreeIs(used: set<string>, s: string, mac: string, n: int)
    requires |mac| <= 62 && |used| + 2 < MAX_INT && 2 <= n <= MAX_INT
    requires TakenUpTo(used, s, mac, n) && Numbered(s, mac, n) !in used
    ensures FirstFree(used, s, mac, 2) == n
  {
    hide Numbered;
    var f := FirstFree(used, s, mac, 2);
  }

  /** The label search of one colliding device; None where the code panics. */
  method Escalate(names: map<string, string>, s: string, mac: string, tag4: map<string, nat>, used: set<string>)
      returns (r: Option<string>)
    requires mac in names && s == Slug(names[mac]) && |used| + 2 < MAX_INT
    requires forall t :: Count(tag4, t) == |ShortTagged(names, t)|
    ensures r.None? <==> Panics(names, used, mac)
    ensures r.Some? ==> r.value == Pick(names, used, mac)
  {
    hide Slug, TagSlug, Numbered, ShortTagged;
    ghost var m := NormalizeMac(mac);
    var tag := TagSlugOf(s, mac, TAG_LEN);
    if Count(tag4, tag) > 1 || tag in used {
      if |NormalizeMac(mac)| > 62 {
        return None;
      }
      tag := TagSlugOf(s, mac, |NormalizeMac(mac)|);
    }
    ghost var first := tag;
    var n := 2;
    while tag in used
      invariant 2 <= n <= MAX_INT
      invariant n == 2 ==> tag == first
      invariant n > 2 ==> first in used && TakenUpTo(used, s, m, n - 1) && tag == Numbered(s, m, n - 1)
      decreases MAX_INT - n
    {
      assert TakenUpTo(used, s, m, n);
      TakenBound(used, s, m, n);
      tag := NumberedTagSlug(s, mac, n);
      n := n + 1;
    }
    if n > 2 {
      FirstFreeIs(used, s, m, n - 1);
    }
    r := Some(tag);
  }

  lemma LabelsStep(names: map<string, string>, macs: seq<string>, i: nat)
    requires Countable(names) && SortedKeys(names, macs) && i < |macs|
    ensures macs[i] in names && Elems(macs[..i]) <= names.Keys && Elems(macs[..i + 1]) <= names.Keys
    ensures Labels(names, macs[..i]).None? ==> Labels(names, macs[..i + 1]).None?
    ensures Labels(names, macs[..i]).Some? ==>
              var out := Labels(names, macs[..i]).value;
              && |out.Values| + 2 < MAX_INT && (Tagged(names, macs[i]) ==> macs[i] !in out)
              && Labels(names, macs[..i + 1]) == Relabelled(names, out, macs[i])
  {
    hide Slug, Pick, Panics, Reserved, Labels, Tagged, Bare, Elems, SortedKeys, Countable, Relabelled;
    KeyAt(names, macs, i);
    SortedElems(names, macs);
    PrefixKeys(names, macs, i);
    PrefixKeys(names, macs, i + 1);
    LabelsSnoc(names, macs[..i], macs[i]);
    assert macs[..i + 1] == macs[..i] + [macs[i]];
    NotBefore(macs, i);
    TaggedLater(names, macs[..i], macs[i]);
  }

  /** A panic on the way is a panic at the end. */
  lemma {:induction false} PanicStays(names: map<string, string>, macs: seq<string>, i: nat)
    requires Countable(names) && SortedKeys(names, macs) && i <= |macs| && Elems(macs[..i]) <= names.Keys
    requires Labels(names, macs[..i]).None?
    ensures Elems(macs) <= names.Keys && Labels(names, macs).None?
    decreases |macs| - i
  {
    hide Labels, Relabelled;
    if i < |macs| {
      LabelsStep(names, macs, i);
      PanicStays(names, macs, i + 1);
    } else {
      assert macs[..i] == macs;
    }
  }

  lemma PrefixKeys(names: map<string, string>, macs: seq<string>, i: nat)
    requires Elems(macs) == names.Keys && i <= |macs|
    ensures Elems(macs[..i]) <= names.Keys
  {
    assert forall x :: x in macs[..i] ==> x in Elems(macs);
  }

  lemma LabelsSnoc(names: map<string, string>, init: seq<string>, mac: string)
    requires Countable(names) && Elems(init) <= names.Keys && mac in names
    ensures Elems(init + [mac]) <= names.Keys
    ensures Labels(names, init).None? ==> Labels(names, init + [mac]).None?
    ensures Labels(names, init).Some? ==>
              var out := Labels(names, init).value;
              |out.Values| + 2 < MAX_INT && Labels(names, init + [mac]) == Relabelled(names, out, mac)
  {
    hide Slug, Pick, Panics, Reserved, Tagged, Relabelled;
    var macs := init + [mac];
    ElemsSnoc(init, mac);
    assert macs[..|macs| - 1] == init;
    if Labels(names, init).Some? { UsedFits(names, Labels(names, init).value); }
  }

  /** A colliding device that has not had its turn has no label yet. */
  lemma TaggedLater(names: map<string, string>, init: seq<string>, mac: string)
    requires Countable(names) && Elems(init) <= names.Keys && mac in names && mac !in init
    ensures Tagged(names, mac) && Labels(names, init).Some? ==> mac !in Labels(names, init).value
  {
    hide Slug, Labels, Elems;
    LabelsCover(names, init);
  }

  lemma LabelsNamed(names: map<string, string>, macs: seq<string>)
    requires Countable(names) && SortedKeys(names, macs) && Labels(names, macs).Some?
    ensures forall mac :: mac in Labels(names, macs).value <==> Named(names, mac)
  {
    hide Slug, Panics;
    LabelsCover(names, macs);
    forall mac ensures mac in Labels(names, macs).value <==> Named(names, mac) {
      if mac in names {
        NamedSplit(names, mac);
        assert mac in Elems(macs);
      }
    }
  }

  /** The labels of every named device, or None where the code panics. Each label is the
      device's own and DNS-safe; an unshared slug stays as it is; and the result depends on
      the input map alone, not on the order it is walked in. */
  method HostnameSlugs(names: map<string, string>) returns (r: Option<map<string, string>>)
    requires Countable(names)
    ensures r.Some? ==> Distinct(r.value) && AllLabels(r.value) && forall mac :: mac in r.value <==> Named(names, mac)
    ensures r.Some? ==> forall mac :: mac in names && Bare(names, mac) ==>
            mac in r.value && r.value[mac] == Slug(names[mac])
    ensures (forall mac :: mac in names && Tagged(names, mac) ==> |NormalizeMac(mac)| <= 62) ==> r.Some?
    ensures forall macs :: SortedKeys(names, macs) ==> r == Labels(names, macs)
  {
    hide Slug, Pick, Panics, Reserved, SortedKeys, Counted, Tagged, Bare, Labels, Distinct, AllLabels, Named,
         NormalizeMac;
    var macs := CollectMacs(names);
    SortedElems(names, macs);
    var slug, owners := CountOwners(names, macs);
    var tag4 := CountShortTags(names, macs, slug, owners);
    var out, used := ReserveBare(names, macs, slug, owners);
    NoneLabelled(names, macs);
    if forall mac :: mac in names && Tagged(names, mac) ==> |NormalizeMac(mac)| <= 62 {
      ShortMacsNeverPanic(names, macs);
    }
    forall other | SortedKeys(names, other) ensures other == macs {
      SortedElems(names, other);
      AscendingUnique(other, macs);
    }
    for i := 0 to |macs|
      invariant Elems(macs[..i]) <= names.Keys
      invariant Labels(names, macs[..i]) == Some(out)
      invariant used == out.Values
    {
      var mac := macs[i];
      LabelsStep(names, macs, i);
      CountedAt(names, slug, owners, mac);
      NamedSplit(names, mac);
      var s := slug[mac];
      if s == "" || Count(owners, s) == 1 {
        continue;
      }
      var tag := Escalate(names, s, mac, tag4, used);
      if tag.None? {
        PanicStays(names, macs, i + 1);
        return None;
      }
      AddValue(out, mac, tag.value);
      out := out[mac := tag.value];
      used := used + {tag.value};
    }
    assert macs[..|macs|] == macs;
    LabelsGood(names, macs);
    LabelsCover(names, macs);
    LabelsNamed(names, macs);
    r := Some(out);
  }

  lemma NoneLabelled(names: map<string, string>, macs: seq<string>)
    requires Countable(names)
    ensures Elems(macs[..0]) == {} && Labels(names, macs[..0]) == Some(Reserved(names))
  {
    NoElems(macs[..0]);
  }
}
