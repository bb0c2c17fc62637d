/** Decimal formatting, and splitting text at its last separator. */
module Decimal {

  function Digit(d: nat): char
    requires d < 10
  {
    '0' + d as char
  }

  predicate IsDigit(c: char) { '0' <= c <= '9' }

  function Digits(n: nat): string {
    if n < 10 then [Digit(n)] else Digits(n / 10) + [Digit(n % 10)]
  }

  /** strconv.Itoa. */
  function Itoa(n: int): string {
    if n < 0 then "-" + Digits(-n) else Digits(n)
  }

  function Value(s: string): int {
    if s == "" then 0 else Value(s[..|s| - 1]) * 10 + (s[|s| - 1] as int - '0' as int)
  }

  lemma {:induction false} DigitsValue(n: nat)
    ensures Value(Digits(n)) == n && Digits(n) != ""
    ensures forall i :: 0 <= i < |Digits(n)| ==> IsDigit(Digits(n)[i])
  {
    if n >= 10 {
      DigitsValue(n / 10);
      var s := Digits(n);
      assert s[..|s| - 1] == Digits(n / 10);
    } else {
      assert Digits(n)[..0] == "";
    }
  }

  /** A minus sign exactly below zero, then digits with n's value and no leading zero. */
  lemma ItoaExactly(n: int) returns (digits: string)
    ensures Itoa(n) == (if n < 0 then "-" else "") + digits
    ensures digits != "" && forall i :: 0 <= i < |digits| ==> IsDigit(digits[i])
    ensures Value(digits) == (if n < 0 then -n else n) && (|digits| == 1 || digits[0] != '0')
  {
    var m := if n < 0 then -n else n;
    digits := Digits(m);
    DigitsValue(m);
    FirstDigit(m);
  }

  lemma {:induction false} FirstDigit(n: nat)
    ensures Digits(n) != "" && (|Digits(n)| == 1 || Digits(n)[0] != '0')
  {
    if n >= 10 {
      FirstDigit(n / 10);
      if n < 100 { assert Digits(n / 10) == [Digit(n / 10)] && Digit(n / 10) != '0'; }
    }
  }

  lemma ItoaSign(n: int)
    ensures Itoa(n) != "" && (Itoa(n)[0] == '-' <==> n < 0)
  {
    DigitsValue(if n < 0 then -n else n);
  }

  /** Different numbers print differently. */
  lemma ItoaInjective(m: int, n: int)
    ensures Itoa(m) == Itoa(n) ==> m == n
  {
    ItoaSign(m);
    ItoaSign(n);
    DigitsValue(if m < 0 then -m else m);
    DigitsValue(if n < 0 then -n else n);
    if Itoa(m) == Itoa(n) && m < 0 {
      assert Itoa(m)[1..] == Digits(-m) && Itoa(n)[1..] == Digits(-n);
    }
  }

  lemma ItoaChars(n: int)
    ensures Itoa(n) != ""
    ensures forall i :: 0 <= i < |Itoa(n)| ==> IsDigit(Itoa(n)[i]) || (n < 0 && Itoa(n)[i] == '-')
  {
    DigitsValue(if n < 0 then -n else n);
  }

  function Pow10(k: nat): nat { if k == 0 then 1 else 10 * Pow10(k - 1) }

  lemma {:induction false} Pow10Sum(a: nat, b: nat)
    ensures Pow10(a + b) == Pow10(a) * Pow10(b)
  {
    if a > 0 { Pow10Sum(a - 1, b); }
  }

  /** A number below 10^k has at most k digits. */
  lemma {:induction false} DigitsLength(n: nat, k: nat)
    requires n < Pow10(k) && k > 0
    ensures |Digits(n)| <= k
  {
    if n >= 10 {
      DigitsLength(n / 10, k - 1);
    }
  }

  lemma LaterSeparator(a: string, b: string, c: string, d: string, sep: char)
    requires a + [sep] + b == c + [sep] + d && |a| < |c|
    ensures sep in b
  {
    var s := a + [sep] + b;
    assert s[|c|] == (c + [sep] + d)[|c|] == sep;
    assert s[|c|] == b[|c| - |a| - 1];
  }

  /** Text after the last separator is determined by the whole. */
  lemma SplitAtLast(a: string, b: string, c: string, d: string, sep: char)
    requires a + [sep] + b == c + [sep] + d
    requires sep !in b && sep !in d
    ensures a == c && b == d
  {
    if |a| < |c| { LaterSeparator(a, b, c, d, sep); }
    if |c| < |a| { LaterSeparator(c, d, a, b, sep); }
    var s := a + [sep] + b;
    assert a == s[..|a|] && c == s[..|c|];
    assert b == s[|a| + 1..] && d == s[|c| + 1..];
  }
}
