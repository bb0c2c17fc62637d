/** Which class every MAC text has, prefix by prefix, without the table or its matcher. */
module ClassExact {
  import opened Casing
  import opened ClassPartition
  import opened Common
  import opened DeviceClasses

  // ---- Normal form ----

  /** Colons go, capitals become the small letters as far into the alphabet, and so do the
      two characters outside ASCII whose small letter is inside; everything else stays. */
  lemma NormalChar(c: char)
    ensures c == ':' ==> NormalizeMac([c]) == ""
    ensures c != ':' ==> |NormalizeMac([c])| == 1
    ensures 'A' <= c <= 'Z' ==>
              var d := NormalizeMac([c])[0]; 'a' <= d <= 'z' && d as int - 'a' as int == c as int - 'A' as int
    ensures c == '\U{0130}' ==> NormalizeMac([c]) == "i"
    ensures c == '\U{212A}' ==> NormalizeMac([c]) == "k"
    ensures c != ':' && !('A' <= c <= 'Z') && c != '\U{0130}' && c != '\U{212A}' ==> NormalizeMac([c]) == [c]
  {
    assert [c][..0] == "";
    assert NormalizeMac("") == "";
  }

  /** Each character is treated on its own. */
  lemma {:induction false} NormalAppend(a: string, b: string)
    ensures NormalizeMac(a + b) == NormalizeMac(a) + NormalizeMac(b)
  {
    hide Lower;
    if b == "" {
      assert a + b == a;
    } else {
      var init := b[..|b| - 1];
      NormalAppend(a, init);
      assert (a + b)[..|a + b| - 1] == a + init;
    }
  }

  // ---- Classes ----

  /** The normalized MAC m starts with the Green-GO OUI and then p. */
  predicate OfModel(m: string, p: string) { "001f80" + p <= m }

  lemma OfModelIs(m: string, p: string)
    ensures OfModel(m, p) <==> HasPrefix(m, "001f80") && HasPrefix(m[6..], p)
  {
    var oui := "001f80";
    if HasPrefix(m, oui) && HasPrefix(m[6..], p) {
      assert m == m[..6] + m[6..] && m[6..] == m[6..][..|p|] + m[6..][|p|..];
      assert m == oui + p + m[6..][|p|..];
    }
    if OfModel(m, p) {
      assert m[..6] == oui && m[6..][..|p|] == p;
    }
  }

  lemma ShortMatch(low: string, k: nat)
    requires |low| == 2 && k < |TABLE|
    ensures Matches(TABLE[k], low) <==> k == 0 && HasPrefix(low, "20")
  {
    hide HasPrefix;
    if k == 0 {
      Matches1(TABLE[0], low, "20");
    } else {
      forall i | 0 <= i < |TABLE[k].prefixes| ensures !HasPrefix(low, TABLE[k].prefixes[i]) {
        LongPrefixes(k, i);
        TooLong(low, TABLE[k].prefixes[i]);
      }
    }
  }

  lemma LongPrefixes(k: nat, i: nat)
    requires 0 < k < |TABLE| && i < |TABLE[k].prefixes|
    ensures |TABLE[k].prefixes[i]| == 3
  {
  }

  lemma TooLong(low: string, p: string)
    requires |low| < |p|
    ensures !HasPrefix(low, p)
  {
  }

  lemma {:induction false} ShortFirst(low: string, k: nat)
    requires |low| == 2 && k <= |TABLE|
    ensures FirstMatch(low, k) == if k == 0 && HasPrefix(low, "20") then Some(0) else None
    decreases |TABLE| - k
  {
    hide HasPrefix, Matches;
    if k < |TABLE| {
      ShortMatch(low, k);
      ShortFirst(low, k + 1);
    }
  }

  /** At most one row of the table matches, so its order does not show. */
  lemma OnlyMatch(low: string, k: nat)
    requires |low| >= 2 && k < |TABLE|
    ensures FirstMatch(low, 0) == Some(k) <==> Matches(TABLE[k], low)
    ensures FirstMatch(low, 0).Some? ==> FirstMatch(low, 0).value < |TABLE|
  {
    hide HasPrefix, Matches, FirstMatch, BandOf;
    if |low| == 2 {
      ShortFirst(low, 0);
      ShortMatch(low, k);
    } else {
      FirstMatchIsBand(low, 0);
      BandExact(low, k);
      BandBelow(low[0], low[1], low[2]);
    }
  }

  lemma BandBelow(a: char, b: char, c: char)
    ensures BandOf(a, b, c).Some? ==> BandOf(a, b, c).value < |TABLE|
  {
  }

  lemma RowExactly(mac: string, k: nat)
    requires k < |TABLE|
    ensures var m := NormalizeMac(mac);
            ClassOf(mac) == TABLE[k].name <==> HasPrefix(m, "001f80") && |m| >= 8 && Matches(TABLE[k], m[6..])
  {
    hide HasPrefix, Matches, FirstMatch, NormalizeMac;
    var m := NormalizeMac(mac);
    TableShape(TABLE[k]);
    if HasPrefix(m, "001f80") && |m| >= 8 {
      OnlyMatch(m[6..], k);
      if FirstMatch(m[6..], 0).Some? && TABLE[FirstMatch(m[6..], 0).value].name == TABLE[k].name {
        TableNamesDistinct(FirstMatch(m[6..], 0).value, k);
      }
    }
  }

  /** Row k matches exactly the given prefixes. */
  lemma RowOf1(mac: string, k: nat, p: string)
    requires k < |TABLE| && TABLE[k].prefixes == [p] && |p| >= 2
    ensures ClassOf(mac) == TABLE[k].name <==> OfModel(NormalizeMac(mac), p)
  {
    hide HasPrefix, Matches, NormalizeMac, ClassOf, OfModel;
    var m := NormalizeMac(mac);
    RowExactly(mac, k);
    if |m| >= 6 { Matches1(TABLE[k], m[6..], p); }
    RowPrefix(m, p);
  }

  lemma RowOf2(mac: string, k: nat, p: string, q: string)
    requires k < |TABLE| && TABLE[k].prefixes == [p, q] && |p| >= 2 && |q| >= 2
    ensures ClassOf(mac) == TABLE[k].name <==> OfModel(NormalizeMac(mac), p) || OfModel(NormalizeMac(mac), q)
  {
    hide HasPrefix, Matches, NormalizeMac, ClassOf, OfModel;
    var m := NormalizeMac(mac);
    RowExactly(mac, k);
    if |m| >= 6 { Matches2(TABLE[k], m[6..], p, q); }
    RowPrefix(m, p);
    RowPrefix(m, q);
  }

  lemma RowOf3(mac: string, k: nat, p: string, q: string, r: string)
    requires k < |TABLE| && TABLE[k].prefixes == [p, q, r] && |p| >= 2 && |q| >= 2 && |r| >= 2
    ensures ClassOf(mac) == TABLE[k].name
            <==> OfModel(NormalizeMac(mac), p) || OfModel(NormalizeMac(mac), q) || OfModel(NormalizeMac(mac), r)
  {
    hide HasPrefix, Matches, NormalizeMac, ClassOf, OfModel;
    var m := NormalizeMac(mac);
    RowExactly(mac, k);
    if |m| >= 6 { Matches3(TABLE[k], m[6..], p, q, r); }
    RowPrefix(m, p);
    RowPrefix(m, q);
    RowPrefix(m, r);
  }

  lemma RowPrefix(m: string, p: string)
    requires |p| >= 2
    ensures OfModel(m, p) <==> HasPrefix(m, "001f80") && |m| >= 8 && HasPrefix(m[6..], p)
  {
    if |m| >= 6 { OfModelIs(m, p); }
  }

  /** The class of every MAC text. */
  lemma ClassExactly(mac: string)
    ensures var m, c := NormalizeMac(mac), ClassOf(mac);
            && (c == "OTHERS" <==> !("001f80" <= m) || |m| < 8)
            && (c == "GGO-BPX" <==> OfModel(m, "20"))
            && (c == "GGO-MCX-D" <==> OfModel(m, "220") || OfModel(m, "225"))
            && (c == "GGO-MCD-MCR" <==> OfModel(m, "210"))
            && (c == "GGO-WP-X" <==> OfModel(m, "213"))
            && (c == "GGO-STRIDE" <==> OfModel(m, "230"))
    ensures var m, c := NormalizeMac(mac), ClassOf(mac);
            && (c == "GGO-WAA" <==> OfModel(m, "216") || OfModel(m, "223"))
            && (c == "GGO-RDX-SI-BEACON" <==> OfModel(m, "217") || OfModel(m, "224") || OfModel(m, "226"))
            && (c == "GGO-INTERFACE-Q4WR" <==> OfModel(m, "211"))
            && (c == "GGO-BRIDGE-DANTEX" <==> OfModel(m, "214"))
            && (c == "GGO-SWITCH" <==> OfModel(m, "212") || OfModel(m, "221") || OfModel(m, "240"))
    ensures ClassOf(mac) in {"OTHERS", "GGO-OTHERS", "GGO-BPX", "GGO-MCX-D", "GGO-MCD-MCR", "GGO-WP-X", "GGO-STRIDE",
                             "GGO-WAA", "GGO-RDX-SI-BEACON", "GGO-INTERFACE-Q4WR", "GGO-BRIDGE-DANTEX", "GGO-SWITCH"}
  {
    hide HasPrefix, NormalizeMac, ClassOf, OfModel;
    RowOf1(mac, 0, "20");
    RowOf2(mac, 1, "220", "225");
    RowOf1(mac, 2, "210");
    RowOf1(mac, 3, "213");
    RowOf1(mac, 4, "230");
    RowOf2(mac, 5, "216", "223");
    RowOf3(mac, 6, "217", "224", "226");
    RowOf1(mac, 7, "211");
    RowOf1(mac, 8, "214");
    RowOf3(mac, 9, "212", "221", "240");
    NoRow(mac);
  }

  lemma NoRow(mac: string)
    ensures var m := NormalizeMac(mac); ClassOf(mac) == "OTHERS" <==> !("001f80" <= m) || |m| < 8
    ensures ClassOf(mac) in {"OTHERS", "GGO-OTHERS"} || exists k :: 0 <= k < |TABLE| && ClassOf(mac) == TABLE[k].name
  {
    hide Matches, FirstMatch, NormalizeMac;
    var m := NormalizeMac(mac);
    if HasPrefix(m, "001f80") && |m| >= 8 && FirstMatch(m[6..], 0).Some? {
      OnlyMatch(m[6..], 0);
      TableShape(TABLE[FirstMatch(m[6..], 0).value]);
    }
  }
}
