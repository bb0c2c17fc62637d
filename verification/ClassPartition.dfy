/** For every MAC the pooled class tests, the scope's GGO-OTHERS test and the OTHERS
    test are exclusive and exhaustive, and agree with ClassifyMAC. */
module ClassPartition {
  import opened ClassNames
  import opened Casing
  import opened Common
  import opened DeviceClasses

  predicate IsHex(c: char) { '0' <= c <= '9' || 'a' <= c <= 'f' }

  /** The twelve lower-case hex digits Kea's hexstring yields for a MAC. */
  predicate HexMac(m: string) { |m| == 12 && forall i :: 0 <= i < 12 ==> IsHex(m[i]) }

  lemma Prefix2(low: string, a: char, b: char)
    requires |low| >= 2
    ensures HasPrefix(low, [a, b]) <==> low[0] == a && low[1] == b
  {
    assert low[..2] == [low[0], low[1]];
  }

  lemma Prefix3(low: string, a: char, b: char, c: char)
    requires |low| >= 3
    ensures HasPrefix(low, [a, b, c]) <==> low[0] == a && low[1] == b && low[2] == c
  {
    assert low[..3] == [low[0], low[1], low[2]];
  }

  /** Which table row owns the three digits after the OUI. */
  function BandOf(a: char, b: char, c: char): Option<nat> {
    if a != '2' then None
    else if b == '0' then Some(0)
    else if b == '1' then
      (if c == '0' then Some(2) else if c == '1' then Some(7) else if c == '2' then Some(9)
       else if c == '3' then Some(3) else if c == '4' then Some(8) else if c == '6' then Some(5)
       else if c == '7' then Some(6) else None)
    else if b == '2' then
      (if c == '0' || c == '5' then Some(1) else if c == '1' then Some(9)
       else if c == '3' then Some(5) else if c == '4' || c == '6' then Some(6) else None)
    else if b == '3' then (if c == '0' then Some(4) else None)
    else if b == '4' then (if c == '0' then Some(9) else None)
    else None
  }

  lemma Matches1(dc: DeviceClass, low: string, p: string)
    requires dc.prefixes == [p]
    ensures Matches(dc, low) <==> HasPrefix(low, p)
  {
    hide HasPrefix;
    assert dc.prefixes[0] == p;
  }

  lemma Matches2(dc: DeviceClass, low: string, p: string, q: string)
    requires dc.prefixes == [p, q]
    ensures Matches(dc, low) <==> HasPrefix(low, p) || HasPrefix(low, q)
  {
    hide HasPrefix;
    assert dc.prefixes[0] == p && dc.prefixes[1] == q;
  }

  lemma Matches3(dc: DeviceClass, low: string, p: string, q: string, r: string)
    requires dc.prefixes == [p, q, r]
    ensures Matches(dc, low) <==> HasPrefix(low, p) || HasPrefix(low, q) || HasPrefix(low, r)
  {
    hide HasPrefix;
    assert dc.prefixes[0] == p && dc.prefixes[1] == q && dc.prefixes[2] == r;
  }

  /** The table's prefixes are pairwise exclusive: each row matches exactly its band. */
  lemma BandExact(low: string, k: nat)
    requires |low| >= 3 && k < |TABLE|
    ensures Matches(TABLE[k], low) <==> BandOf(low[0], low[1], low[2]) == Some(k)
  {
    hide HasPrefix, Matches;
    if k < 3 { BandExactA(low, k); } else if k < 6 { BandExactB(low, k); } else { BandExactC(low, k); }
  }

  lemma BandExactA(low: string, k: nat)
    requires |low| >= 3 && k < 3
    ensures Matches(TABLE[k], low) <==> BandOf(low[0], low[1], low[2]) == Some(k)
  {
    hide HasPrefix, Matches;
    Prefix2(low, '2', '0');
    Prefix3(low, '2', '2', '0');
    Prefix3(low, '2', '2', '5');
    Prefix3(low, '2', '1', '0');
    Matches1(TABLE[0], low, "20");
    Matches2(TABLE[1], low, "220", "225");
    Matches1(TABLE[2], low, "210");
  }

  lemma BandExactB(low: string, k: nat)
    requires |low| >= 3 && 3 <= k < 6
    ensures Matches(TABLE[k], low) <==> BandOf(low[0], low[1], low[2]) == Some(k)
  {
    hide HasPrefix, Matches;
    Prefix3(low, '2', '1', '3');
    Prefix3(low, '2', '3', '0');
    Prefix3(low, '2', '1', '6');
    Prefix3(low, '2', '2', '3');
    Matches1(TABLE[3], low, "213");
    Matches1(TABLE[4], low, "230");
    Matches2(TABLE[5], low, "216", "223");
  }

  lemma BandExactC(low: string, k: nat)
    requires |low| >= 3 && 6 <= k < |TABLE|
    ensures Matches(TABLE[k], low) <==> BandOf(low[0], low[1], low[2]) == Some(k)
  {
    hide HasPrefix, Matches;
    Prefix3(low, '2', '1', '7');
    Prefix3(low, '2', '2', '4');
    Prefix3(low, '2', '2', '6');
    Prefix3(low, '2', '1', '1');
    Prefix3(low, '2', '1', '4');
    Prefix3(low, '2', '1', '2');
    Prefix3(low, '2', '2', '1');
    Prefix3(low, '2', '4', '0');
    Matches3(TABLE[6], low, "217", "224", "226");
    Matches1(TABLE[7], low, "211");
    Matches1(TABLE[8], low, "214");
    Matches3(TABLE[9], low, "212", "221", "240");
  }

  lemma {:induction false} FirstMatchIsBand(low: string, k: nat)
    requires |low| >= 3 && k <= |TABLE|
    ensures FirstMatch(low, k) ==
            if BandOf(low[0], low[1], low[2]).Some? && BandOf(low[0], low[1], low[2]).value >= k
            then BandOf(low[0], low[1], low[2]) else None
    decreases |TABLE| - k
  {
    hide Matches;
    if k < |TABLE| {
      BandExact(low, k);
      FirstMatchIsBand(low, k + 1);
    }
  }

  // ---- Tests against the classifier ----

  lemma {:induction false} NormalizedIsHexMac(m: string)
    requires forall i :: 0 <= i < |m| ==> IsHex(m[i])
    ensures NormalizeMac(m) == m
  {
    if m != "" {
      NormalizedIsHexMac(m[..|m| - 1]);
    }
  }

  predicate InTable(dc: DeviceClass) { dc in TABLE }

  predicate AllInTable(pooled: seq<DeviceClass>) {
    forall i :: 0 <= i < |pooled| ==> InTable(pooled[i])
  }

  lemma TableShape(dc: DeviceClass)
    requires InTable(dc)
    ensures WellFormed(dc) && dc.name != OTHERS && dc.name != GGO_OTHERS
    ensures forall i :: 0 <= i < |dc.prefixes| ==> 2 <= |dc.prefixes[i]| <= 3
  {
  }

  lemma TableNamesDistinct(j: nat, k: nat)
    requires j < |TABLE| && k < |TABLE| && TABLE[j].name == TABLE[k].name
    ensures j == k
  {
  }

  lemma PrefixTermEval(p: string, mac: string)
    requires |mac| == 12 && 2 <= |p| <= 3
    ensures Eval(SubstringIs(6, |p|, p), mac) <==> HasPrefix(mac[6..], p)
  {
    assert mac[6..6 + |p|] == mac[6..][..|p|];
  }

  lemma PrefixExprEval(dc: DeviceClass, mac: string)
    requires InTable(dc) && |mac| == 12
    ensures WellFormed(dc) && (Eval(PrefixExpr(dc), mac) <==> Matches(dc, mac[6..]))
  {
    TableShape(dc);
    OrAllEval(PrefixTerms(dc.prefixes), mac);
    hide Eval, HasPrefix;
    forall i | 0 <= i < |dc.prefixes|
      ensures Eval(PrefixTerms(dc.prefixes)[i], mac) <==> HasPrefix(mac[6..], dc.prefixes[i]) {
      PrefixTermEval(dc.prefixes[i], mac);
    }
  }

  lemma OuiEval(mac: string)
    requires |mac| == 12
    ensures Eval(OUI_MATCH, mac) <==> HasPrefix(mac, GREENGO_OUI)
  {
    assert mac[0..6] == mac[..6];
  }

  /** A class test holds exactly of the MACs ClassifyMAC gives that class. */
  lemma ClassTestAgrees(k: nat, mac: string)
    requires k < |TABLE| && HexMac(mac)
    ensures WellFormed(TABLE[k]) && (Eval(ClassTest(TABLE[k]), mac) <==> ClassOf(mac) == TABLE[k].name)
  {
    PrefixExprEval(TABLE[k], mac);
    OuiEval(mac);
    NormalizedIsHexMac(mac);
    BandExact(mac[6..], k);
    FirstMatchIsBand(mac[6..], 0);
    TableShape(TABLE[k]);
    hide HasPrefix, Matches, NormalizeMac, PrefixExpr;
    if j: nat :| j < |TABLE| && FirstMatch(mac[6..], 0) == Some(j) && TABLE[j].name == TABLE[k].name {
      TableNamesDistinct(j, k);
    }
  }

  /** OTHERS is exactly the non-Green-GO MACs. */
  lemma OthersTestAgrees(mac: string)
    requires HexMac(mac)
    ensures Eval(OTHERS_TEST, mac) <==> ClassOf(mac) == OTHERS
    ensures Eval(OTHERS_TEST, mac) <==> !HasPrefix(mac, GREENGO_OUI)
  {
    OuiEval(mac);
    NormalizedIsHexMac(mac);
    FirstMatchIsBand(mac[6..], 0);
    hide HasPrefix, Matches, NormalizeMac;
    if k: nat :| k < |TABLE| && FirstMatch(mac[6..], 0) == Some(k) { TableShape(TABLE[k]); }
  }

  ghost predicate PooledName(pooled: seq<DeviceClass>, name: string) {
    exists i :: 0 <= i < |pooled| && pooled[i].name == name
  }

  /** The scope's GGO-OTHERS is exactly the Green-GO MACs whose class is not pooled. */
  lemma GGOOthersAgrees(pooled: seq<DeviceClass>, mac: string)
    requires AllInTable(pooled) && HexMac(mac)
    ensures forall i :: 0 <= i < |pooled| ==> WellFormed(pooled[i])
    ensures Eval(OthersOf(pooled), mac) <==> ClassOf(mac) != OTHERS && !PooledName(pooled, ClassOf(mac))
  {
    forall i | 0 <= i < |pooled| ensures WellFormed(pooled[i]) { TableShape(pooled[i]); }
    OthersTestAgrees(mac);
    hide HexMac, ClassOf, PrefixExpr;
    if pooled != [] {
      OrAllEval(PooledTerms(pooled), mac);
      forall i | 0 <= i < |pooled| && Eval(OUI_MATCH, mac)
        ensures Eval(PooledTerms(pooled)[i], mac) <==> ClassOf(mac) == pooled[i].name
      {
        var k :| 0 <= k < |TABLE| && TABLE[k] == pooled[i];
        ClassTestAgrees(k, mac);
      }
    }
  }

  /** Exactly one of the tests is true, for any set of pooled classes. */
  lemma ExactlyOneTest(pooled: seq<DeviceClass>, mac: string)
    requires AllInTable(pooled) && HexMac(mac)
    ensures forall i :: 0 <= i < |pooled| ==> WellFormed(pooled[i])
    ensures Eval(OTHERS_TEST, mac) ==>
              !Eval(OthersOf(pooled), mac) && forall i :: 0 <= i < |pooled| ==> !Eval(ClassTest(pooled[i]), mac)
    ensures !Eval(OTHERS_TEST, mac) ==>
              (Eval(OthersOf(pooled), mac) <==> forall i :: 0 <= i < |pooled| ==> !Eval(ClassTest(pooled[i]), mac))
    ensures forall i, j ::
              && 0 <= i < |pooled| && 0 <= j < |pooled|
              && Eval(ClassTest(pooled[i]), mac) && Eval(ClassTest(pooled[j]), mac)
              ==> pooled[i] == pooled[j]
  {
    GGOOthersAgrees(pooled, mac);
    OthersTestAgrees(mac);
    hide HexMac, ClassOf, Eval, OthersOf, ClassTest;
    forall i | 0 <= i < |pooled|
      ensures Eval(ClassTest(pooled[i]), mac) <==> ClassOf(mac) == pooled[i].name
      ensures pooled[i].name != OTHERS
    {
      var k :| 0 <= k < |TABLE| && TABLE[k] == pooled[i];
      ClassTestAgrees(k, mac);
      TableShape(pooled[i]);
    }
    forall i, j | 0 <= i < |pooled| && 0 <= j < |pooled| && pooled[i].name == pooled[j].name
      ensures pooled[i] == pooled[j] {
      var a :| 0 <= a < |TABLE| && TABLE[a] == pooled[i];
      var b :| 0 <= b < |TABLE| && TABLE[b] == pooled[j];
      TableNamesDistinct(a, b);
    }
  }
}
