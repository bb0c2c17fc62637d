/** Turning a device name into a DNS label (slugifyHostname, internal/web/ggohealth.go). */
module Slugs {
  import opened Casing

  const LABEL_MAX := 63

  predicate IsAlnum(c: char) { 'a' <= c <= 'z' || '0' <= c <= '9' }

  predicate IsSeparator(c: char) { c == ' ' || c == '-' || c == '_' }

  predicate EndsInDash(s: string) { s != "" && s[|s| - 1] == '-' }

  /** What the loop has written after the whole name. */
  function Written(name: string): string {
    if name == "" then "" else
      var out, c := Written(name[..|name| - 1]), Lower(name[|name| - 1]);
      if IsAlnum(c) then out + [c]
      else if IsSeparator(c) && out != "" && !EndsInDash(out) then out + "-"
      else out
  }

  /** strings.TrimRight(s, "-"). */
  function TrimDashes(s: string): string {
    if EndsInDash(s) then TrimDashes(s[..|s| - 1]) else s
  }

  function Slug(name: string): string {
    var out := Written(name);
    TrimDashes(if |out| > LABEL_MAX then out[..LABEL_MAX] else out)
  }

  method SlugifyHostname(name: string) returns (r: string)
    ensures r == Slug(name)
  {
    var b, dash := "", false;
    for i := 0 to |name|
      invariant b == Written(name[..i])
      invariant dash == EndsInDash(b)
    {
      assert name[..i + 1][..i] == name[..i];
      var c := Lower(name[i]);
      if IsAlnum(c) {
        b := b + [c];
        dash := false;
      } else if c == ' ' || c == '-' || c == '_' {
        if |b| > 0 && !dash {
          b := b + "-";
          dash := true;
        }
      }
    }
    assert name[..|name|] == name;
    if |b| > LABEL_MAX {
      b := b[..LABEL_MAX];
    }
    r := TrimRightDashes(b);
  }

  method TrimRightDashes(s: string) returns (r: string)
    ensures r == TrimDashes(s)
  {
    r := s;
    while |r| > 0 && r[|r| - 1] == '-'
      invariant TrimDashes(r) == TrimDashes(s)
    {
      r := r[..|r| - 1];
    }
  }

  // ---- What a slug is ----

  predicate LabelChar(c: char) { IsAlnum(c) || c == '-' }

  /** A DNS-safe label: 1 to 63 lowercase letters, digits and inner dashes. */
  predicate IsLabel(s: string) {
    && 1 <= |s| <= 63
    && (forall i :: 0 <= i < |s| ==> LabelChar(s[i]))
    && s[0] != '-' && s[|s| - 1] != '-'
  }

  /** Only label characters, starting with none and with no two dashes in a row. */
  predicate Clean(s: string) {
    && (forall i :: 0 <= i < |s| ==> LabelChar(s[i]))
    && (s != "" ==> s[0] != '-')
    && (forall i :: 0 < i < |s| && s[i - 1] == '-' ==> s[i] != '-')
  }

  predicate IsSlug(s: string) { s == "" || (Clean(s) && IsLabel(s)) }

  lemma {:induction false} WrittenClean(name: string)
    ensures Clean(Written(name))
  {
    if name != "" { WrittenClean(name[..|name| - 1]); }
  }

  lemma {:induction false} TrimmedIsPrefix(s: string)
    ensures var r := TrimDashes(s);
            && |r| <= |s| && r == s[..|r|] && !EndsInDash(r)
            && (forall i :: |r| <= i < |s| ==> s[i] == '-')
  {
    if EndsInDash(s) { TrimmedIsPrefix(s[..|s| - 1]); }
  }

  lemma SlugIsSlug(name: string)
    ensures IsSlug(Slug(name))
  {
    WrittenClean(name);
    var out := Written(name);
    TrimmedIsPrefix(if |out| > LABEL_MAX then out[..LABEL_MAX] else out);
  }

  lemma LowerLabelChar(c: char)
    ensures LabelChar(c) ==> Lower(c) == c
  {
  }

  lemma {:induction false} CleanIsWritten(s: string)
    requires Clean(s)
    ensures Written(s) == s
  {
    if s != "" {
      var n := |s| - 1;
      CleanIsWritten(s[..n]);
      LowerLabelChar(s[n]);
      hide Lower;
      assert s == s[..n] + [s[n]];
    }
  }

  /** The slugs are exactly the names that slugify to themselves. */
  lemma FixedExactlyOnSlugs(s: string)
    ensures Slug(s) == s <==> IsSlug(s)
  {
    SlugIsSlug(s);
    if IsSlug(s) { CleanIsWritten(s); }
  }

  lemma SlugIdempotent(name: string)
    ensures Slug(Slug(name)) == Slug(name)
  {
    SlugIsSlug(name);
    FixedExactlyOnSlugs(Slug(name));
  }

  /** The lower-cased letters and digits of a text, in order. */
  function Alnums(s: string): string {
    if s == "" then "" else
      Alnums(s[..|s| - 1]) + (if IsAlnum(Lower(s[|s| - 1])) then [Lower(s[|s| - 1])] else "")
  }

  /** Nothing but separators and unusable characters is dropped, and nothing reordered. */
  lemma {:induction false} WrittenKeepsAlnums(name: string)
    ensures Alnums(Written(name)) == Alnums(name)
  {
    if name != "" {
      var init := name[..|name| - 1];
      WrittenKeepsAlnums(init);
      var out, w := Written(init), Written(name);
      if w != out { assert w[..|w| - 1] == out; }
    }
  }

  lemma {:induction false} AlnumsEmpty(s: string)
    ensures Alnums(s) == "" <==> forall i :: 0 <= i < |s| ==> !IsAlnum(Lower(s[i]))
  {
    hide Lower;
    if s != "" {
      AlnumsEmpty(s[..|s| - 1]);
      assert forall i :: 0 <= i < |s| - 1 ==> s[..|s| - 1][i] == s[i];
    }
  }

  /** A name has no label exactly when it holds no letter or digit. */
  lemma EmptySlugExactly(name: string)
    ensures Slug(name) == "" <==> forall i :: 0 <= i < |name| ==> !IsAlnum(Lower(name[i]))
  {
    hide Lower, Alnums, Written;
    var out := Written(name);
    WrittenKeepsAlnums(name);
    AlnumsEmpty(name);
    AlnumsEmpty(out);
    WrittenClean(name);
    var cut := if |out| > LABEL_MAX then out[..LABEL_MAX] else out;
    TrimmedIsPrefix(cut);
    if out != "" {
      assert LabelChar(out[0]) && cut[0] == out[0];
      LowerLabelChar(out[0]);
    }
  }

  /** A name short enough keeps all its letters and digits. */
  lemma ShortSlugKeepsAlnums(name: string)
    requires |Written(name)| <= LABEL_MAX
    ensures Alnums(Slug(name)) == Alnums(name)
  {
    WrittenKeepsAlnums(name);
    TrimKeepsAlnums(Written(name));
  }

  lemma {:induction false} TrimKeepsAlnums(s: string)
    ensures Alnums(TrimDashes(s)) == Alnums(s)
  {
    if EndsInDash(s) { TrimKeepsAlnums(s[..|s| - 1]); }
  }

  // ---- The slug, character by character ----

  predicate Separates(c: char) { c == ' ' || c == '-' || c == '_' }

  /** Character c of a name is kept, as r: ASCII letters and digits, and the two characters
      outside ASCII whose lower case is an ASCII letter. */
  predicate KeptAs(c: char, r: char) {
    || (('a' <= c <= 'z' || '0' <= c <= '9') && r == c)
    || ('A' <= c <= 'Z' && r as int == c as int + 32)
    || (c == '\U{0130}' && r == 'i') || (c == '\U{212A}' && r == 'k')
  }

  predicate IsKept(c: char) {
    'a' <= c <= 'z' || 'A' <= c <= 'Z' || '0' <= c <= '9' || c == '\U{0130}' || c == '\U{212A}'
  }

  lemma LowerKeeps(c: char)
    ensures IsKept(c) <==> IsAlnum(Lower(c))
    ensures IsKept(c) ==> KeptAs(c, Lower(c))
    ensures forall r :: KeptAs(c, r) ==> IsKept(c) && r == Lower(c)
    ensures IsSeparator(Lower(c)) <==> Separates(c)
  {
  }

  /** The positions of the kept characters of a name, in order. */
  ghost predicate KeptAt(name: string, at: seq<nat>) {
    && (forall i, j :: 0 <= i < j < |at| ==> at[i] < at[j])
    && (forall k: nat :: k in at <==> k < |name| && IsKept(name[k]))
  }

  ghost predicate SeparatorIn(name: string, a: nat, b: nat) {
    exists i :: a < i < b && i < |name| && Separates(name[i])
  }

  /** text is the kept characters, with one dash between two of them exactly where the name
      has a separator between them. */
  ghost predicate Spells(text: string, name: string, at: seq<nat>)
    requires forall i :: 0 <= i < |at| ==> at[i] < |name|
    decreases |at|
  {
    if at == [] then text == ""
    else
      var n := |at| - 1;
      && text != "" && KeptAs(name[at[n]], text[|text| - 1])
      && var rest := text[..|text| - 1];
         if n > 0 && SeparatorIn(name, at[n - 1], at[n])
         then EndsInDash(rest) && Spells(rest[..|rest| - 1], name, at[..n])
         else Spells(rest, name, at[..n])
  }

  lemma {:induction false} SpellsLonger(text: string, name: string, c: char, at: seq<nat>)
    requires forall i :: 0 <= i < |at| ==> at[i] < |name|
    requires Spells(text, name, at)
    ensures Spells(text, name + [c], at)
    decreases |at|
  {
    if at != [] {
      var n := |at| - 1;
      var rest := text[..|text| - 1];
      assert (name + [c])[at[n]] == name[at[n]];
      if n > 0 && SeparatorIn(name, at[n - 1], at[n]) {
        var i :| at[n - 1] < i < at[n] && i < |name| && Separates(name[i]);
        assert (name + [c])[i] == name[i];
        SpellsLonger(rest[..|rest| - 1], name, c, at[..n]);
      } else {
        assert forall i :: 0 <= i < at[n] ==> (name + [c])[i] == name[i];
        SpellsLonger(rest, name, c, at[..n]);
      }
    }
  }

  /** The loop has spelled the name so far, and a dash for a separator after its last kept
      character. */
  ghost predicate WrittenSoFar(out: string, name: string, at: seq<nat>, text: string) {
    && KeptAt(name, at) && (forall i :: 0 <= i < |at| ==> at[i] < |name|)
    && Spells(text, name, at) && !EndsInDash(text)
    && out == if at != [] && SeparatorIn(name, at[|at| - 1], |name|) then text + "-" else text
  }

  lemma SeparatorLonger(name: string, c: char, a: nat, b: nat)
    ensures b <= |name| ==> (SeparatorIn(name + [c], a, b) <==> SeparatorIn(name, a, b))
    ensures a < |name| ==> (SeparatorIn(name + [c], a, |name| + 1) <==> SeparatorIn(name, a, |name|) || Separates(c))
  {
    var longer := name + [c];
    assert forall i :: 0 <= i < |name| ==> longer[i] == name[i];
    assert longer[|name|] == c;
    if i :| a < i < b && i < |name| && Separates(name[i]) { assert Separates(longer[i]); }
    if i :| a < i < |name| && Separates(name[i]) { assert Separates(longer[i]); }
  }

  lemma KeptAtLonger(name: string, c: char, at: seq<nat>)
    requires KeptAt(name, at)
    ensures KeptAt(name + [c], if IsKept(c) then at + [|name|] else at)
  {
    var longer := name + [c];
    assert forall i :: 0 <= i < |name| ==> longer[i] == name[i];
    assert forall i :: 0 <= i < |at| ==> at[i] in at;
  }

  /** One more kept character, at position n, spelled right after out. */
  lemma SpellsOne(name: string, at: seq<nat>, out: string, n: nat, r: char)
    requires (forall i :: 0 <= i < |at| ==> at[i] < |name|) && n < |name| && KeptAs(name[n], r)
    requires if at != [] && SeparatorIn(name, at[|at| - 1], n)
             then EndsInDash(out) && Spells(out[..|out| - 1], name, at)
             else Spells(out, name, at)
    ensures Spells(out + [r], name, at + [n])
  {
    hide SeparatorIn, KeptAs, EndsInDash;
    var at', text := at + [n], out + [r];
    assert at'[..|at|] == at && text[..|out|] == out && text[|text| - 1] == r && at'[|at|] == n;
    if at != [] { assert at'[|at| - 1] == at[|at| - 1]; }
  }

  lemma SpellsKept(out: string, name: string, at: seq<nat>, text: string, c: char, r: char)
    requires (forall i :: 0 <= i < |at| ==> at[i] < |name|) && Spells(text, name, at)
    requires !EndsInDash(text) && KeptAs(c, r)
    requires out == if at != [] && SeparatorIn(name, at[|at| - 1], |name|) then text + "-" else text
    ensures Spells(out + [r], name + [c], at + [|name|])
  {
    hide SeparatorIn, KeptAs, Spells;
    SpellsLonger(text, name, c, at);
    if at != [] { SeparatorLonger(name, c, at[|at| - 1], |name|); }
    assert out == text + "-" ==> EndsInDash(out) && out[..|out| - 1] == text;
    SpellsOne(name + [c], at, out, |name|, r);
  }

  lemma KeptNext(out: string, name: string, at: seq<nat>, text: string, c: char)
    requires WrittenSoFar(out, name, at, text) && IsKept(c)
    ensures WrittenSoFar(out + [Lower(c)], name + [c], at + [|name|], out + [Lower(c)])
  {
    LowerKeeps(c);
    KeptIsNoDash(c);
    hide Lower, KeptAt, KeptAs, Spells, IsKept, SeparatorIn, EndsInDash;
    KeptAtLonger(name, c, at);
    SpellsKept(out, name, at, text, c, Lower(c));
    NothingPast(name, c);
    EndsOtherwise(out, Lower(c));
  }

  lemma NothingPast(name: string, c: char)
    ensures !SeparatorIn(name + [c], |name|, |name| + 1)
  {
  }

  lemma EndsOtherwise(out: string, r: char)
    requires !IsDash(r)
    ensures !EndsInDash(out + [r])
  {
  }

  predicate IsDash(c: char) { c == '-' }

  lemma KeptIsNoDash(c: char)
    requires IsKept(c)
    ensures !IsDash(Lower(c))
  {
  }

  lemma OtherNext(out: string, name: string, at: seq<nat>, text: string, c: char)
    requires WrittenSoFar(out, name, at, text) && !IsKept(c)
    ensures WrittenSoFar(if Separates(c) && out != "" && !EndsInDash(out) then out + "-" else out, name + [c], at, text)
  {
    KeptAtLonger(name, c, at);
    SpellsLonger(text, name, c, at);
    if at != [] { SeparatorLonger(name, c, at[|at| - 1], |name| + 1); }
    hide KeptAt;
  }

  lemma {:induction false} WrittenSpells(name: string) returns (at: seq<nat>, text: string)
    ensures WrittenSoFar(Written(name), name, at, text)
  {
    hide Lower, WrittenSoFar, IsKept, KeptAs, Separates, IsSeparator, IsAlnum, EndsInDash, Written;
    if name == "" {
      at, text := [], "";
      NothingWritten();
    } else {
      var init, c := name[..|name| - 1], name[|name| - 1];
      at, text := WrittenSpells(init);
      assert name == init + [c];
      LowerKeeps(c);
      WrittenNext(name);
      var out := Written(init);
      if IsKept(c) {
        KeptNext(out, init, at, text, c);
        at, text := at + [|init|], out + [Lower(c)];
      } else {
        OtherNext(out, init, at, text, c);
      }
    }
  }

  lemma NothingWritten()
    ensures WrittenSoFar(Written(""), "", [], "")
  {
  }

  lemma WrittenNext(name: string)
    requires name != ""
    ensures var out, c := Written(name[..|name| - 1]), Lower(name[|name| - 1]);
            Written(name) == if IsAlnum(c) then out + [c]
                             else if IsSeparator(c) && out != "" && !EndsInDash(out) then out + "-" else out
  {
    hide Lower, IsAlnum, IsSeparator, EndsInDash;
  }

  /** p is a start of text of at most 63 characters that does not end in a dash. */
  predicate LabelPrefix(p: string, text: string) { p <= text && |p| <= 63 && !EndsInDash(p) }

  /** The slug of every name: spell it, and take the longest start of that which has at most 63
      characters and does not end in a dash. */
  lemma SlugExactly(name: string) returns (at: seq<nat>, text: string)
    ensures KeptAt(name, at) && (forall i :: 0 <= i < |at| ==> at[i] < |name|) && Spells(text, name, at)
    ensures LabelPrefix(Slug(name), text) && forall p :: LabelPrefix(p, text) ==> |p| <= |Slug(name)|
  {
    at, text := WrittenSpells(name);
    var out, slug := Written(name), Slug(name);
    var cut := if |out| > 63 then out[..63] else out;
    TrimmedIsPrefix(cut);
    hide Written, KeptAt, Spells, TrimDashes;
    assert slug <= out && |slug| <= 63 && !EndsInDash(slug);
    assert slug <= text;
    forall p | LabelPrefix(p, text) ensures |p| <= |slug| {
      if p != "" { assert p[|p| - 1] == text[|p| - 1] == out[|p| - 1] == cut[|p| - 1]; }
    }
  }
}
