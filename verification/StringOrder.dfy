/** Go's string order, and sorting a set of distinct strings by it. */
module StringOrder {

  predicate Less(a: string, b: string) {
    b != "" && (a == "" || a[0] < b[0] || (a[0] == b[0] && Less(a[1..], b[1..])))
  }

  lemma {:induction false} LessTotal(a: string, b: string)
    ensures a == b || Less(a, b) || Less(b, a)
  {
    if a != "" && b != "" && a[0] == b[0] {
      LessTotal(a[1..], b[1..]);
      if a[1..] == b[1..] {
        assert a == [a[0]] + a[1..] == b;
      }
    }
  }

  /** a and b agree up to position k, where a ends or has the lower character. */
  ghost predicate Splits(a: string, b: string, k: nat) {
    && k <= |a| && k < |b| && (forall i :: 0 <= i < k ==> a[i] == b[i])
    && (k == |a| || a[k] < b[k])
  }

  /** The order is that of dictionaries. */
  lemma {:induction false} LessExactly(a: string, b: string)
    ensures Less(a, b) <==> exists k: nat :: Splits(a, b, k)
  {
    if b == "" {
    } else if a == "" || a[0] < b[0] {
      assert Splits(a, b, 0);
    } else if a[0] == b[0] {
      LessExactly(a[1..], b[1..]);
      if k: nat :| Splits(a[1..], b[1..], k) { SplitsUnder(a, b, k); }
      if k: nat :| Splits(a, b, k) { SplitsUnder(a, b, k - 1); }
    }
  }

  lemma SplitsUnder(a: string, b: string, k: nat)
    requires a != "" && b != "" && a[0] == b[0]
    ensures Splits(a, b, k + 1) <==> Splits(a[1..], b[1..], k)
  {
    var c, d := a[1..], b[1..];
    assert forall i :: 0 <= i < |c| ==> c[i] == a[i + 1];
    assert forall i :: 0 <= i < |d| ==> d[i] == b[i + 1];
    if Splits(c, d, k) {
      forall i | 0 <= i < k + 1 ensures a[i] == b[i] {
        if i > 0 { assert c[i - 1] == d[i - 1]; }
      }
    }
  }

  lemma {:induction false} LessAsymmetric(a: string, b: string)
    ensures !(Less(a, b) && Less(b, a))
  {
    if a != "" && b != "" { LessAsymmetric(a[1..], b[1..]); }
  }

  lemma {:induction false} LessTransitive(a: string, b: string, c: string)
    requires Less(a, b) && Less(b, c)
    ensures Less(a, c)
  {
    if a != "" && a[0] == b[0] == c[0] { LessTransitive(a[1..], b[1..], c[1..]); }
  }

  ghost predicate Ascending(s: seq<string>) {
    forall i, j :: 0 <= i < j < |s| ==> Less(s[i], s[j])
  }

  ghost function Elems(s: seq<string>): set<string> { set x | x in s }

  function Insert(s: seq<string>, x: string): seq<string> {
    if s == [] then [x]
    else if Less(x, s[0]) then [x] + s
    else [s[0]] + Insert(s[1..], x)
  }

  lemma {:induction false} InsertElems(s: seq<string>, x: string)
    ensures Elems(Insert(s, x)) == Elems(s) + {x}
  {
    hide Less;
    if s != [] {
      InsertElems(s[1..], x);
      HeadTail(s);
      ElemsCons(x, s);
      ElemsCons(s[0], Insert(s[1..], x));
      hide Elems;
    }
  }

  lemma ElemsCons(x: string, s: seq<string>)
    ensures Elems([x] + s) == {x} + Elems(s)
  {
    assert forall y :: y in [x] + s <==> y == x || y in s;
  }

  lemma PrependAscends(x: string, s: seq<string>)
    requires Ascending(s) && forall y :: y in Elems(s) ==> Less(x, y)
    ensures Ascending([x] + s)
  {
    hide Less;
    forall j | 0 <= j < |s| ensures Less(x, s[j]) {
      assert s[j] in Elems(s);
    }
  }

  lemma AboveHead(s: seq<string>, x: string)
    requires Ascending(s) && s != [] && (x == s[0] || Less(x, s[0]))
    ensures forall y :: y in Elems(s[1..]) ==> Less(x, y)
  {
    forall y | y in s[1..] ensures Less(x, y) {
      var i :| 0 <= i < |s[1..]| && s[1..][i] == y;
      assert Less(s[0], s[i + 1]);
      if x != s[0] { LessTransitive(x, s[0], y); }
    }
  }

  lemma {:induction false} InsertAscends(s: seq<string>, x: string)
    requires Ascending(s) && x !in s
    ensures Ascending(Insert(s, x))
  {
    if s != [] {
      hide Less, Elems;
      AboveHead(s, s[0]);
      if Less(x, s[0]) {
        AboveHead(s, x);
        HeadTail(s);
        PrependAscends(x, s);
      } else {
        LessTotal(x, s[0]);
        InsertAscends(s[1..], x);
        InsertElems(s[1..], x);
        PrependAscends(s[0], Insert(s[1..], x));
      }
    }
  }

  lemma HeadTail(s: seq<string>)
    requires s != []
    ensures Elems(s) == Elems(s[1..]) + {s[0]}
  {
    assert s == [s[0]] + s[1..];
    ElemsCons(s[0], s[1..]);
  }

  /** sort.Strings on distinct strings. */
  method SortStrings(s: seq<string>) returns (r: seq<string>)
    requires forall i, j :: 0 <= i < j < |s| ==> s[i] != s[j]
    ensures Ascending(r) && Elems(r) == Elems(s)
  {
    r := [];
    for i := 0 to |s|
      invariant Ascending(r) && Elems(r) == Elems(s[..i])
    {
      assert s[i] !in s[..i];
      assert s[i] !in Elems(r);
      InsertAscends(r, s[i]);
      InsertElems(r, s[i]);
      r := Insert(r, s[i]);
      assert s[..i + 1] == s[..i] + [s[i]];
    }
    assert s[..|s|] == s;
  }

  lemma NoElems(s: seq<string>)
    ensures Elems(s) == {} <==> s == []
  {
    if s != [] { assert s[0] in Elems(s); }
  }

  /** A set of strings has one ascending listing. */
  lemma {:induction false} AscendingUnique(s: seq<string>, t: seq<string>)
    requires Ascending(s) && Ascending(t) && Elems(s) == Elems(t)
    ensures s == t
  {
    if s == [] || t == [] {
      NoElems(s);
      NoElems(t);
    } else {
      assert s[0] in Elems(t) && t[0] in Elems(s);
      LessAsymmetric(s[0], t[0]);
      assert s[0] == t[0];
      forall x ensures x in Elems(s[1..]) <==> x in Elems(t[1..]) {
        TailElems(s, x);
        TailElems(t, x);
        assert x in s <==> x in Elems(s);
        assert x in t <==> x in Elems(t);
      }
      AscendingUnique(s[1..], t[1..]);
      assert s == [s[0]] + s[1..] && t == [t[0]] + t[1..];
    }
  }

  lemma TailElems(s: seq<string>, x: string)
    requires s != [] && Ascending(s)
    ensures x in s[1..] <==> x in s && x != s[0]
  {
    LessAsymmetric(s[0], s[0]);
    if x in s[1..] {
      var i :| 0 <= i < |s[1..]| && s[1..][i] == x;
      assert s[i + 1] == x;
    }
    if x in s && x != s[0] {
      var i :| 0 <= i < |s| && s[i] == x;
      assert s[1..][i - 1] == x;
    }
  }
}
