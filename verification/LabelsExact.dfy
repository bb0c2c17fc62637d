/** Which label every device gets, in terms of the names and of the other devices' labels. */
module LabelsExact {
  import opened Casing
  import opened Common
  import opened HostnameLabels
  import opened Slugs
  import opened StringOrder

  /** No other device's name gives the same slug. */
  predicate Alone(names: map<string, string>, mac: string)
    requires mac in names
  {
    forall other :: other in names && other != mac ==> Slug(names[other]) != Slug(names[mac])
  }

  /** A named device keeps its slug exactly when no other device has it. */
  lemma SharedExactly(names: map<string, string>, mac: string)
    requires mac in names
    ensures Bare(names, mac) <==> Slug(names[mac]) != "" && Alone(names, mac)
    ensures Tagged(names, mac) <==> Slug(names[mac]) != "" && !Alone(names, mac)
  {
    hide Slug;
    var s := Slug(names[mac]);
    var own := Owning(names, s);
    assert mac in own;
    if Alone(names, mac) {
      assert own == {mac};
    } else {
      var other :| other in names && other != mac && Slug(names[other]) == s;
      assert other in own;
      SubsetSize({mac, other}, own);
    }
  }

  /** Another device shares a slug too and has the same tag of four characters. */
  ghost predicate TagShared(names: map<string, string>, mac: string, tag: string) {
    exists other :: other in names && other != mac && ShortTagIs(names, other, tag)
  }

  lemma SharedTag(names: map<string, string>, mac: string)
    requires mac in names && Tagged(names, mac)
    ensures var tag := ShortTag(names, mac); |ShortTagged(names, tag)| > 1 <==> TagShared(names, mac, tag)
  {
    hide Tagged, TagSlug, Slug, NormalizeMac;
    var tag := ShortTag(names, mac);
    var all := ShortTagged(names, tag);
    assert mac in all;
    if TagShared(names, mac, tag) {
      var other :| other in names && other != mac && ShortTagIs(names, other, tag);
      SubsetSize({mac, other}, all);
    } else {
      assert all == {mac};
    }
  }

  /** n is the first number from 2 on whose label is free. */
  ghost predicate FirstNumber(used: set<string>, s: string, m: string, n: int) {
    && |m| <= 62 && 2 <= n <= MAX_INT && Numbered(s, m, n) !in used
    && forall i :: 2 <= i < n ==> Numbered(s, m, i) in used
  }

  /** The label of a device with a shared slug: the tag of four characters when no other such
      device has the same one and it is not in use; else the full tag when that is free; else
      the first numbered one that is. */
  lemma PickExactly(names: map<string, string>, used: set<string>, mac: string)
    requires mac in names && Tagged(names, mac) && !Panics(names, used, mac) && |used| + 2 < MAX_INT
    ensures var s, m, r := Slug(names[mac]), NormalizeMac(mac), Pick(names, used, mac);
            var tag := TagSlug(s, m, 4);
            && (tag !in used && !TagShared(names, mac, tag) ==> r == tag)
            && (tag in used || TagShared(names, mac, tag) ==>
                && |m| <= 62
                && (TagSlug(s, m, |m|) !in used ==> r == TagSlug(s, m, |m|))
                && (TagSlug(s, m, |m|) in used ==> exists n :: FirstNumber(used, s, m, n) && r == Numbered(s, m, n)))
  {
    SharedTag(names, mac);
    hide Tagged, TagSlug, Slug, NormalizeMac, Numbered, ShortTagged, TagShared, TakenUpTo;
    var s, m := Slug(names[mac]), NormalizeMac(mac);
    if NeedsFullTag(names, used, mac) && FullTag(s, m) in used { FirstNumberIs(used, s, m); }
  }

  lemma FirstNumberIs(used: set<string>, s: string, m: string)
    requires |m| <= 62 && |used| + 2 < MAX_INT
    ensures TakenUpTo(used, s, m, 2) && FirstNumber(used, s, m, FirstFree(used, s, m, 2))
  {
    hide Numbered;
  }

  /** The code panics exactly on a device that cannot keep its short tag and whose MAC leaves
      no room for the full one. */
  lemma PanicsExactly(names: map<string, string>, used: set<string>, mac: string)
    requires mac in names && Tagged(names, mac)
    ensures var m := NormalizeMac(mac);
            var tag := TagSlug(Slug(names[mac]), m, 4);
            Panics(names, used, mac) <==> (tag in used || TagShared(names, mac, tag)) && |m| > 62
  {
    SharedTag(names, mac);
    hide Tagged, TagSlug, Slug, NormalizeMac, ShortTagged, TagShared;
  }

  // ---- Whose turn it is ----

  /** The labels of the bare devices and of those with a lower MAC. */
  ghost function Earlier(names: map<string, string>, out: map<string, string>, mac: string): map<string, string> {
    map x | x in out && x in names && (Bare(names, x) || Less(x, mac)) :: out[x]
  }

  /** Labels once given do not change. */
  lemma {:induction false} Grows(names: map<string, string>, macs: seq<string>, i: nat, j: nat)
    requires Countable(names) && SortedKeys(names, macs) && i <= j <= |macs| && Elems(macs[..j]) <= names.Keys
    requires Labels(names, macs[..j]).Some?
    ensures Elems(macs[..i]) <= names.Keys && Labels(names, macs[..i]).Some?
    ensures var a, c := Labels(names, macs[..i]).value, Labels(names, macs[..j]).value;
            forall x :: x in a ==> x in c && c[x] == a[x]
    decreases j - i
  {
    hide Labels, Countable, SortedKeys, Tagged, Pick, Panics, Elems;
    if i < j {
      LabelsStep(names, macs, j - 1);
      Grows(names, macs, i, j - 1);
    }
  }

  lemma BeforeIsLess(macs: seq<string>, i: nat, x: string)
    requires Ascending(macs) && i < |macs| && x in macs
    ensures x in macs[..i] <==> Less(x, macs[i])
  {
    var k :| 0 <= k < |macs| && macs[k] == x;
    if k < i { assert macs[..i][k] == x; }
    if x in macs[..i] {
      var j :| 0 <= j < i && macs[..i][j] == x;
      assert macs[j] == x;
    }
    LessAsymmetric(x, macs[i]);
  }

  lemma TurnIs(names: map<string, string>, macs: seq<string>, i: nat)
    requires Countable(names) && SortedKeys(names, macs) && i < |macs| && Elems(macs) <= names.Keys
    requires Labels(names, macs).Some?
    ensures Elems(macs[..i]) <= names.Keys
    ensures Labels(names, macs[..i]) == Some(Earlier(names, Labels(names, macs).value, macs[i]))
  {
    hide Labels, Tagged, Bare, Slug;
    assert macs[..|macs|] == macs;
    Grows(names, macs, i, |macs|);
    var a, c := Labels(names, macs[..i]).value, Labels(names, macs).value;
    LabelsCover(names, macs[..i]);
    LabelsCover(names, macs);
    forall x ensures x in a <==> x in Earlier(names, c, macs[i]) {
      if x in names {
        assert x in Elems(macs);
        BeforeIsLess(macs, i, x);
        NamedSplit(names, x);
        TaggedNamed(names, x);
      }
    }
    assert a == Earlier(names, c, macs[i]);
  }

  lemma TaggedNamed(names: map<string, string>, mac: string)
    requires mac in names
    ensures Tagged(names, mac) || Bare(names, mac) ==> Slug(names[mac]) != ""
  {
    hide Slug;
  }

  /** Devices with a shared slug are labelled in the order of their MACs, each against the
      labels of the bare devices and of the devices before it. */
  lemma LabelsExactly(names: map<string, string>, macs: seq<string>, mac: string)
    requires Countable(names) && SortedKeys(names, macs) && Elems(macs) <= names.Keys
    requires Labels(names, macs).Some? && mac in names && Tagged(names, mac)
    ensures var out := Labels(names, macs).value;
            var used := Earlier(names, out, mac).Values;
            && mac in out && |used| + 2 < MAX_INT && !Panics(names, used, mac)
            && out[mac] == Pick(names, used, mac)
  {
    hide Labels, Tagged, Bare, Slug, Pick, Panics, Countable;
    assert mac in Elems(macs);
    var i :| 0 <= i < |macs| && macs[i] == mac;
    TurnIs(names, macs, i);
    LabelsStep(names, macs, i);
    assert macs[..|macs|] == macs;
    Grows(names, macs, i + 1, |macs|);
  }
}
