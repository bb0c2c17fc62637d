/** The Green-GO device classes and the Kea client-class tests generated from them
    (classes.go). Kea test expressions are a small AST with an evaluator. */
module DeviceClasses {
  import opened Casing
  import opened ClassNames
  import opened Common

  datatype DeviceClass = DeviceClass(name: string, countKey: string, prefixes: seq<string>)

  const TABLE: seq<DeviceClass> := [
    DeviceClass("GGO-BPX", "count_bpx", ["20"]),
    DeviceClass("GGO-MCX-D", "count_mcx", ["220", "225"]),
    DeviceClass("GGO-MCD-MCR", "count_mcd", ["210"]),
    DeviceClass("GGO-WP-X", "count_wpx", ["213"]),
    DeviceClass("GGO-STRIDE", "count_stride", ["230"]),
    DeviceClass("GGO-WAA", "count_waa", ["216", "223"]),
    DeviceClass("GGO-RDX-SI-BEACON", "count_beacon", ["217", "224", "226"]),
    DeviceClass("GGO-INTERFACE-Q4WR", "count_interface", ["211"]),
    DeviceClass("GGO-BRIDGE-DANTEX", "count_bridge", ["214"]),
    DeviceClass("GGO-SWITCH", "count_switch", ["212", "221", "240"])
  ]

  const GREENGO_OUI := "001f80"

  // ---- Kea expressions ----

  datatype Expr =
    | SubstringIs(off: nat, len: nat, lit: string)
    | And(l: Expr, r: Expr)
    | Or(l: Expr, r: Expr)
    | Not(e: Expr)

  /** Kea's substring: clamped at the end of the text. */
  function Substring(s: string, off: nat, len: nat): string {
    if off >= |s| then ""
    else if off + len <= |s| then s[off..off + len]
    else s[off..]
  }

  /** Evaluates a test against hexstring(pkt4.mac, ''). */
  predicate Eval(e: Expr, mac: string) {
    match e
    case SubstringIs(off, len, lit) => Substring(mac, off, len) == lit
    case And(l, r) => Eval(l, mac) && Eval(r, mac)
    case Or(l, r) => Eval(l, mac) || Eval(r, mac)
    case Not(e1) => !Eval(e1, mac)
  }

  /** Terms joined by "or". */
  function OrAll(terms: seq<Expr>): Expr
    requires terms != []
  {
    if |terms| == 1 then terms[0] else Or(OrAll(terms[..|terms| - 1]), terms[|terms| - 1])
  }

  lemma {:induction false} OrAllEval(terms: seq<Expr>, mac: string)
    requires terms != []
    ensures Eval(OrAll(terms), mac) <==> exists i :: 0 <= i < |terms| && Eval(terms[i], mac)
  {
    if |terms| > 1 {
      var init := terms[..|terms| - 1];
      OrAllEval(init, mac);
      if i :| 0 <= i < |terms| && Eval(terms[i], mac) {
        if i < |terms| - 1 { assert Eval(init[i], mac); }
      }
      if i :| 0 <= i < |init| && Eval(init[i], mac) { assert Eval(terms[i], mac); }
    }
  }

  const OUI_MATCH: Expr := SubstringIs(0, 6, GREENGO_OUI)

  function PrefixTerms(prefixes: seq<string>): seq<Expr> {
    seq(|prefixes|, i requires 0 <= i < |prefixes| => SubstringIs(6, |prefixes[i]|, prefixes[i]))
  }

  predicate WellFormed(dc: DeviceClass) { dc.prefixes != [] }

  function PrefixExpr(dc: DeviceClass): Expr
    requires WellFormed(dc)
  {
    OrAll(PrefixTerms(dc.prefixes))
  }

  /** classPrefixExpr, building its terms in a loop. */
  method ClassPrefixExpr(dc: DeviceClass) returns (e: Expr)
    requires WellFormed(dc)
    ensures e == PrefixExpr(dc)
  {
    var terms: seq<Expr> := [];
    var i := 0;
    while i < |dc.prefixes|
      invariant 0 <= i <= |dc.prefixes| && terms == PrefixTerms(dc.prefixes)[..i]
    {
      var p := dc.prefixes[i];
      terms := terms + [SubstringIs(6, |p|, p)];
      i := i + 1;
    }
    assert terms == PrefixTerms(dc.prefixes);
    e := OrAll(terms);
  }

  function ClassTest(dc: DeviceClass): Expr
    requires WellFormed(dc)
  {
    And(OUI_MATCH, PrefixExpr(dc))
  }

  const OTHERS_TEST: Expr := Not(OUI_MATCH)

  function PooledTerms(pooled: seq<DeviceClass>): seq<Expr>
    requires forall i :: 0 <= i < |pooled| ==> WellFormed(pooled[i])
  {
    seq(|pooled|, i requires 0 <= i < |pooled| => PrefixExpr(pooled[i]))
  }

  /** The scope-relative catch-all: Green-GO, but no class pooled in this scope. */
  function OthersOf(pooled: seq<DeviceClass>): Expr
    requires forall i :: 0 <= i < |pooled| ==> WellFormed(pooled[i])
  {
    if pooled == [] then OUI_MATCH else And(OUI_MATCH, Not(OrAll(PooledTerms(pooled))))
  }

  method GGOOthersTest(pooled: seq<DeviceClass>) returns (e: Expr)
    requires forall i :: 0 <= i < |pooled| ==> WellFormed(pooled[i])
    ensures e == OthersOf(pooled)
  {
    if |pooled| == 0 {
      return OUI_MATCH;
    }
    var terms: seq<Expr> := [];
    var i := 0;
    while i < |pooled|
      invariant 0 <= i <= |pooled| && terms == PooledTerms(pooled)[..i]
    {
      var t := ClassPrefixExpr(pooled[i]);
      terms := terms + [t];
      i := i + 1;
    }
    assert terms == PooledTerms(pooled);
    e := And(OUI_MATCH, Not(OrAll(terms)));
  }

  // ---- ClassifyMAC ----

  predicate HasPrefix(s: string, p: string) { |p| <= |s| && s[..|p|] == p }

  predicate Matches(dc: DeviceClass, low: string) {
    exists i :: 0 <= i < |dc.prefixes| && HasPrefix(low, dc.prefixes[i])
  }

  /** The first of the table's classes from k on that matches. */
  function FirstMatch(low: string, k: nat): Option<nat>
    requires k <= |TABLE|
    decreases |TABLE| - k
  {
    if k == |TABLE| then None
    else if Matches(TABLE[k], low) then Some(k)
    else FirstMatch(low, k + 1)
  }

  function ClassOf(mac: string): string {
    var m := NormalizeMac(mac);
    if !HasPrefix(m, GREENGO_OUI) || |m| < 8 then OTHERS
    else
      match FirstMatch(m[6..], 0)
      case Some(k) => if k < |TABLE| then TABLE[k].name else GGO_OTHERS
      case None => GGO_OTHERS
  }

  method ClassifyMAC(mac: string) returns (class_: string)
    ensures class_ == ClassOf(mac)
  {
    var m := NormalizeMac(mac);
    if !HasPrefix(m, GREENGO_OUI) || |m| < 8 {
      return OTHERS;
    }
    var low := m[6..];
    var k := 0;
    while k < |TABLE|
      invariant 0 <= k <= |TABLE| && FirstMatch(low, 0) == FirstMatch(low, k)
    {
      var dc := TABLE[k];
      var i := 0;
      while i < |dc.prefixes|
        invariant 0 <= i <= |dc.prefixes|
        invariant forall j :: 0 <= j < i ==> !HasPrefix(low, dc.prefixes[j])
      {
        if HasPrefix(low, dc.prefixes[i]) {
          return dc.name;
        }
        i := i + 1;
      }
      k := k + 1;
    }
    class_ := GGO_OTHERS;
  }
}
