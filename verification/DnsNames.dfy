/** Domain names on the wire (internal/dns/message.go; sections 3.1, 4.1.4 of RFC 1035). */
module DnsNames {
  import opened Common

  /** An octet. The code's mask tests are written as ranges: c & 0xc0 == 0xc0 is 192 <= c,
      and c & 0xc0 == 0 is c < 64. */
  type Byte = b: int | 0 <= b < 256
  type Text = seq<Byte>

  const DOT: Byte := 46
  const NAME_MAX := 255
  const JUMP_MAX := 16

  function LowerByte(b: Byte): Byte { if 65 <= b <= 90 then b + 32 else b }

  function LowerText(t: Text): (r: Text)
    ensures |r| == |t| && forall i :: 0 <= i < |t| ==> r[i] == LowerByte(t[i])
  {
    seq(|t|, i requires 0 <= i < |t| => LowerByte(t[i]))
  }

  function Dotted(text: Text, l: Text): Text {
    (if |text| > 0 then text + [DOT] else text) + LowerText(l)
  }

  /** (c & 0x3f) << 8 | d, for a pointer's first octet c. */
  function Pointer(c: int, d: int): nat
    requires c >= 192 && d >= 0
  {
    (c - 192) * 256 + d
  }

  datatype Name = Name(text: Text, next: nat)

  /** The rest of decodeName's loop from one state; end is the resume offset once a pointer
      has been followed. */
  function Decode(msg: Text, off: nat, end: Option<nat>, jumps: nat, total: nat, text: Text): Option<Name>
    decreases JUMP_MAX + 1 - jumps, NAME_MAX + 1 - total
  {
    if off >= |msg| then None
    else
      var c: int := msg[off];
      if c == 0 then Some(Name(text, end.GetOr(off + 1)))
      else if c >= 192 then
        if off + 1 >= |msg| || jumps + 1 > JUMP_MAX then None
        else Decode(msg, Pointer(c, msg[off + 1]), Some(end.GetOr(off + 2)), jumps + 1, total, text)
      else if c >= 64 then None
      else if off + 1 + c > |msg| || total + c + 1 > NAME_MAX then None
      else Decode(msg, off + 1 + c, end, jumps, total + c + 1, Dotted(text, msg[off + 1..off + 1 + c]))
  }

  method DecodeName(msg: Text, start: nat) returns (r: Option<Name>)
    ensures r == Decode(msg, start, None, 0, 0, [])
  {
    hide Decode;
    var b: Text := [];
    var end: Option<nat> := None;
    var off: nat, jumps: nat, total: nat := start, 0, 0;
    while true
      invariant Decode(msg, off, end, jumps, total, b) == Decode(msg, start, None, 0, 0, [])
      decreases JUMP_MAX + 1 - jumps, NAME_MAX + 1 - total
    {
      DecodeUnfolds(msg, off, end, jumps, total, b);
      if off >= |msg| {
        return None;
      }
      var c: int := msg[off];
      if c == 0 {
        if end.None? {
          end := Some(off + 1);
        }
        return Some(Name(b, end.value));
      } else if c >= 192 {
        if off + 1 >= |msg| {
          return None;
        }
        jumps := jumps + 1;
        if jumps > JUMP_MAX {
          return None;
        }
        if end.None? {
          end := Some(off + 2);
        }
        off := Pointer(c, msg[off + 1]);
      } else if c >= 64 {
        return None;
      } else {
        if off + 1 + c > |msg| {
          return None;
        }
        total := total + c + 1;
        if total > NAME_MAX {
          return None;
        }
        if |b| > 0 {
          b := b + [DOT];
        }
        b := b + LowerText(msg[off + 1..off + 1 + c]);
        off := off + 1 + c;
      }
    }
  }

  /** Where a decoded name ends: inside the message, at most 257 octets after it starts, and
      its text has at most 255 octets. */
  lemma {:induction false} DecodeBounds(msg: Text, off: nat, end: Option<nat>, jumps: nat, total: nat, text: Text)
    requires total <= NAME_MAX && |text| <= total
    ensures var r := Decode(msg, off, end, jumps, total, text);
            r.Some? ==>
              && |r.value.text| <= NAME_MAX
              && (end.Some? ==> r.value.next == end.value)
              && (end.None? ==> off < r.value.next <= |msg| && r.value.next <= off + (NAME_MAX - total) + 2)
    decreases JUMP_MAX + 1 - jumps, NAME_MAX + 1 - total
  {
    hide Dotted, Decode;
    DecodeUnfolds(msg, off, end, jumps, total, text);
    if off < |msg| {
      var c: int := msg[off];
      if c >= 192 {
        if off + 1 < |msg| && jumps < JUMP_MAX {
          DecodeBounds(msg, Pointer(c, msg[off + 1]), Some(end.GetOr(off + 2)), jumps + 1, total, text);
        }
      } else if 0 < c < 64 && off + 1 + c <= |msg| && total + c + 1 <= NAME_MAX {
        var l := msg[off + 1..off + 1 + c];
        DottedLength(text, l);
        DecodeBounds(msg, off + 1 + c, end, jumps, total + c + 1, Dotted(text, l));
      }
    }
  }

  lemma DottedLength(text: Text, l: Text)
    ensures |Dotted(text, l)| <= |text| + 1 + |l|
  {
  }

  lemma DecodeUnfolds(msg: Text, off: nat, end: Option<nat>, jumps: nat, total: nat, text: Text)
    ensures off >= |msg| ==> Decode(msg, off, end, jumps, total, text) == None
    ensures off < |msg| && msg[off] == 0 ==>
            Decode(msg, off, end, jumps, total, text) == Some(Name(text, end.GetOr(off + 1)))
    ensures off < |msg| && msg[off] >= 192 ==>
              Decode(msg, off, end, jumps, total, text)
              == if off + 1 >= |msg| || jumps >= JUMP_MAX then None
                 else Decode(msg, Pointer(msg[off], msg[off + 1]), Some(end.GetOr(off + 2)), jumps + 1, total, text)
    ensures off < |msg| && 64 <= msg[off] < 192 ==> Decode(msg, off, end, jumps, total, text) == None
    ensures off < |msg| && 0 < msg[off] < 64 ==>
              Decode(msg, off, end, jumps, total, text)
              == if off + 1 + msg[off] > |msg| || total + msg[off] + 1 > NAME_MAX then None
                 else Decode(msg, off + 1 + msg[off], end, jumps, total + msg[off] + 1,
                             Dotted(text, msg[off + 1..off + 1 + msg[off]]))
  {
    hide Dotted;
  }

  // ---- Where a decode reads ----

  /** The decode from here succeeds, and every octet it reads lies in msg[lo..hi]. */
  predicate Confined(msg: Text, off: nat, lo: nat, hi: nat, jumps: nat, total: nat)
    decreases JUMP_MAX + 1 - jumps, NAME_MAX + 1 - total
  {
    && lo <= off < hi <= |msg|
    && var c: int := msg[off];
       || c == 0
       || (&& c >= 192 && off + 1 < hi && jumps < JUMP_MAX
           && Confined(msg, Pointer(c, msg[off + 1]), lo, hi, jumps + 1, total))
       || (&& 0 < c < 64 && off + 1 + c <= hi && total + c + 1 <= NAME_MAX
           && Confined(msg, off + 1 + c, lo, hi, jumps, total + c + 1))
  }

  ghost predicate Agree(a: Text, b: Text, lo: nat, hi: nat) {
    hi <= |a| && hi <= |b| && forall i :: lo <= i < hi ==> a[i] == b[i]
  }

  /** Messages that agree where a decode reads decode alike, also when fewer jumps have been
      spent or the resume offset is already fixed. */
  lemma {:induction false} ConfinedDecodes(a: Text, b: Text, off: nat, lo: nat, hi: nat, end: Option<nat>, jumps: nat,
                                           end': Option<nat>, jumps': nat, total: nat, text: Text)
    requires Confined(a, off, lo, hi, jumps, total) && Agree(a, b, lo, hi) && jumps' <= jumps
    ensures var r, r' := Decode(a, off, end, jumps, total, text), Decode(b, off, end', jumps', total, text);
            && r.Some? && r'.Some? && r.value.text == r'.value.text
            && (end == end' ==> r == r') && (end.Some? ==> r.value.next == end.value)
            && (end'.Some? ==> r'.value.next == end'.value)
    decreases JUMP_MAX + 1 - jumps, NAME_MAX + 1 - total
  {
    hide Decode, Dotted;
    DecodeUnfolds(a, off, end, jumps, total, text);
    DecodeUnfolds(b, off, end', jumps', total, text);
    var c: int := a[off];
    assert b[off] == c;
    if c >= 192 {
      assert b[off + 1] == a[off + 1];
      ConfinedDecodes(a, b, Pointer(c, a[off + 1]), lo, hi, Some(end.GetOr(off + 2)), jumps + 1,
                      Some(end'.GetOr(off + 2)), jumps' + 1, total, text);
    } else if c > 0 {
      assert a[off + 1..off + 1 + c] == b[off + 1..off + 1 + c];
      ConfinedDecodes(a, b, off + 1 + c, lo, hi, end, jumps, end', jumps', total + c + 1,
                      Dotted(text, a[off + 1..off + 1 + c]));
    }
  }

  /** A decode that leaves lo..hi depends on what it finds there: in some message that agrees
      with msg on lo..hi it fails. */
  lemma {:induction false} UnconfinedCanFail(msg: Text, off: nat, lo: nat, hi: nat, end: Option<nat>, jumps: nat,
                                             total: nat, text: Text)
    returns (x: Text, p: nat)
    requires hi <= |msg| && !Confined(msg, off, lo, hi, jumps, total)
    requires Decode(msg, off, end, jumps, total, text).Some?
    ensures Agree(msg, x, lo, hi) && Decode(x, off, end, jumps, total, text) == None
    ensures x == msg[..hi] || (p < lo && p < |msg| && x == msg[p := 64])
    decreases JUMP_MAX + 1 - jumps, NAME_MAX + 1 - total
  {
    hide Decode, Dotted;
    DecodeUnfolds(msg, off, end, jumps, total, text);
    var c: int := msg[off];
    if off < lo {
      x, p := msg[off := 64], off;
    } else if off >= hi || (c >= 192 && off + 1 >= hi) || (0 < c < 64 && off + 1 + c > hi) {
      x, p := msg[..hi], hi;
    } else if c >= 192 {
      var next := Pointer(c, msg[off + 1]);
      x, p := UnconfinedCanFail(msg, next, lo, hi, Some(end.GetOr(off + 2)), jumps + 1, total, text);
      assert x[off] == c && x[off + 1] == msg[off + 1];
    } else {
      var l := msg[off + 1..off + 1 + c];
      x, p := UnconfinedCanFail(msg, off + 1 + c, lo, hi, end, jumps, total + c + 1, Dotted(text, l));
      assert x[off] == c && x[off + 1..off + 1 + c] == l;
    }
    DecodeUnfolds(x, off, end, jumps, total, text);
  }

  // ---- Whether a decode reads one octet ----

  /** The decode from here reads msg[k]. */
  predicate Reads(msg: Text, off: nat, jumps: nat, total: nat, k: nat)
    decreases JUMP_MAX + 1 - jumps, NAME_MAX + 1 - total
  {
    && off < |msg|
    && var c: int := msg[off];
       || off == k
       || (&& c >= 192 && off + 1 < |msg|
           && (off + 1 == k || (jumps < JUMP_MAX && Reads(msg, Pointer(c, msg[off + 1]), jumps + 1, total, k))))
       || (&& 0 < c < 64 && off + 1 + c <= |msg| && total + c + 1 <= NAME_MAX
           && (off < k <= off + c || Reads(msg, off + 1 + c, jumps, total + c + 1, k)))
  }

  /** b continues a, but for octet k. */
  ghost predicate AgreeBut(a: Text, b: Text, k: nat) {
    |a| <= |b| && forall i :: 0 <= i < |a| && i != k ==> a[i] == b[i]
  }

  lemma {:induction false} UnreadIsFree(a: Text, b: Text, off: nat, end: Option<nat>, jumps: nat, total: nat,
                                        text: Text, k: nat)
    requires AgreeBut(a, b, k) && !Reads(a, off, jumps, total, k) && Decode(a, off, end, jumps, total, text).Some?
    ensures Decode(b, off, end, jumps, total, text) == Decode(a, off, end, jumps, total, text)
    decreases JUMP_MAX + 1 - jumps, NAME_MAX + 1 - total
  {
    hide Decode, Dotted;
    DecodeUnfolds(a, off, end, jumps, total, text);
    DecodeUnfolds(b, off, end, jumps, total, text);
    var c: int := a[off];
    assert b[off] == c;
    if c >= 192 {
      assert b[off + 1] == a[off + 1];
      UnreadIsFree(a, b, Pointer(c, a[off + 1]), Some(end.GetOr(off + 2)), jumps + 1, total, text, k);
    } else if c > 0 {
      var l := a[off + 1..off + 1 + c];
      assert b[off + 1..off + 1 + c] == l;
      UnreadIsFree(a, b, off + 1 + c, end, jumps, total + c + 1, Dotted(text, l), k);
    }
  }

  /** Text once decoded stays. */
  lemma {:induction false} TextGrows(msg: Text, off: nat, end: Option<nat>, jumps: nat, total: nat, text: Text)
    ensures var r := Decode(msg, off, end, jumps, total, text); r.Some? ==> text <= r.value.text
    decreases JUMP_MAX + 1 - jumps, NAME_MAX + 1 - total
  {
    hide Decode;
    DecodeUnfolds(msg, off, end, jumps, total, text);
    if off < |msg| {
      var c: int := msg[off];
      if c >= 192 && off + 1 < |msg| && jumps < JUMP_MAX {
        TextGrows(msg, Pointer(c, msg[off + 1]), Some(end.GetOr(off + 2)), jumps + 1, total, text);
      } else if 0 < c < 64 && off + 1 + c <= |msg| && total + c + 1 <= NAME_MAX {
        var l := msg[off + 1..off + 1 + c];
        TextGrows(msg, off + 1 + c, end, jumps, total + c + 1, Dotted(text, l));
        hide Decode, Pointer;
        assert text <= Dotted(text, l);
      }
    }
  }

  /** An octet that is read matters: a zero that no pointer ends in, replaced by 64, gives
      another name or none. */
  lemma {:induction false} ReadMatters(a: Text, off: nat, end: Option<nat>, jumps: nat, total: nat, text: Text, k: nat)
    requires 0 < k < |a| && a[k] == 0 && a[k - 1] < 192 && Reads(a, off, jumps, total, k)
    requires Decode(a, off, end, jumps, total, text).Some?
    ensures var r := Decode(a[k := 64], off, end, jumps, total, text);
            r.Some? ==> r.value.text != Decode(a, off, end, jumps, total, text).value.text
    decreases JUMP_MAX + 1 - jumps, NAME_MAX + 1 - total
  {
    hide Decode, Dotted;
    var b := a[k := 64];
    DecodeUnfolds(a, off, end, jumps, total, text);
    DecodeUnfolds(b, off, end, jumps, total, text);
    var c: int := a[off];
    if off == k {
      // A length octet of 64 is no length.
    } else if c >= 192 {
      ReadMatters(a, Pointer(c, a[off + 1]), Some(end.GetOr(off + 2)), jumps + 1, total, text, k);
    } else if c > 0 {
      var l, l' := a[off + 1..off + 1 + c], b[off + 1..off + 1 + c];
      if off < k <= off + c {
        TextGrows(a, off + 1 + c, end, jumps, total + c + 1, Dotted(text, l));
        TextGrows(b, off + 1 + c, end, jumps, total + c + 1, Dotted(text, l'));
        assert l'[k - off - 1] == 64 && l[k - off - 1] == 0;
        DottedDiffers(text, l, l', k - off - 1);
      } else {
        assert l == l';
        ReadMatters(a, off + 1 + c, end, jumps, total + c + 1, Dotted(text, l), k);
      }
    }
  }

  lemma DottedDiffers(text: Text, l: Text, l': Text, i: nat)
    requires i < |l| == |l'| && LowerByte(l[i]) != LowerByte(l'[i])
    ensures |Dotted(text, l)| == |Dotted(text, l')| && Dotted(text, l) != Dotted(text, l')
  {
    var n := |Dotted(text, l)| - |l|;
    assert Dotted(text, l)[n + i] == LowerByte(l[i]) && Dotted(text, l')[n + i] == LowerByte(l'[i]);
  }

  /** Labels all the way to a zero octet: a name without compression. */
  predicate Plain(msg: Text, off: nat)
    decreases |msg| - off
  {
    off < |msg| && (msg[off] == 0 || (msg[off] < 64 && off + 1 + msg[off] <= |msg| && Plain(msg, off + 1 + msg[off])))
  }

  /** An uncompressed name reads nothing but itself, and needs no jump. */
  lemma {:induction false} PlainIsConfined(msg: Text, off: nat, lo: nat, hi: nat, jumps: nat, total: nat, text: Text)
    requires Plain(msg, off) && lo <= off && hi <= |msg|
    requires Decode(msg, off, None, 0, total, text).Some? && Decode(msg, off, None, 0, total, text).value.next <= hi
    ensures Confined(msg, off, lo, hi, jumps, total)
    decreases |msg| - off
  {
    hide Decode, Dotted;
    DecodeUnfolds(msg, off, None, 0, total, text);
    var c: int := msg[off];
    if c > 0 {
      var l := msg[off + 1..off + 1 + c];
      PlainEndsLater(msg, off + 1 + c, total + c + 1, Dotted(text, l));
      PlainIsConfined(msg, off + 1 + c, lo, hi, jumps, total + c + 1, Dotted(text, l));
    }
  }

  lemma {:induction false} PlainEndsLater(msg: Text, off: nat, total: nat, text: Text)
    requires Plain(msg, off)
    ensures var r := Decode(msg, off, None, 0, total, text); r.Some? ==> off < r.value.next
    decreases |msg| - off
  {
    hide Decode, Dotted;
    DecodeUnfolds(msg, off, None, 0, total, text);
    var c: int := msg[off];
    if c > 0 && total + c + 1 <= NAME_MAX {
      PlainEndsLater(msg, off + 1 + c, total + c + 1, Dotted(text, msg[off + 1..off + 1 + c]));
    }
  }

  // ---- Encoding ----

  /** strings.Split(name, "."): at least one part. */
  function Split(name: Text): (r: seq<Text>)
    ensures |r| >= 1
    ensures forall i :: 0 <= i < |r| ==> DOT !in r[i]
  {
    if name == [] then [[]]
    else
      var rest := Split(name[1..]);
      if name[0] == DOT then [[]] + rest else [[name[0]] + rest[0]] + rest[1..]
  }

  function Join(parts: seq<Text>): Text {
    if parts == [] then [] else if |parts| == 1 then parts[0] else parts[0] + [DOT] + Join(parts[1..])
  }

  function Clip(l: Text): Text { if |l| > 63 then l[..63] else l }

  function EncodeLabels(parts: seq<Text>): Text {
    if parts == [] then []
    else (if parts[0] == [] then [] else [|Clip(parts[0])|] + Clip(parts[0])) + EncodeLabels(parts[1..])
  }

  function Encode(name: Text): Text { EncodeLabels(Split(name)) + [0] }

  lemma EncodeStep(parts: seq<Text>, i: nat)
    requires i < |parts|
    ensures EncodeLabels(parts[i..])
            == (if parts[i] == [] then [] else [|Clip(parts[i])|] + Clip(parts[i])) + EncodeLabels(parts[i + 1..])
  {
    assert parts[i..][0] == parts[i] && parts[i..][1..] == parts[i + 1..];
  }

  lemma NothingEncoded()
    ensures EncodeLabels([]) == []
  {
  }

  method EncodeName(name: Text) returns (out: Text)
    ensures out == Encode(name)
  {
    hide EncodeLabels;
    out := [];
    var parts := Split(name);
    for i := 0 to |parts|
      invariant out + EncodeLabels(parts[i..]) == EncodeLabels(parts)
    {
      EncodeStep(parts, i);
      if parts[i] == [] {
        continue;
      }
      var l := parts[i];
      if |l| > 63 {
        l := l[..63];
      }
      ghost var rest := EncodeLabels(parts[i + 1..]);
      assert out + (([|l|] + l) + rest) == (out + [|l|] + l) + rest;
      out := out + [|l|] + l;
    }
    NothingEncoded();
    assert parts[|parts|..] == [];
    assert out == out + [];
    out := out + [0];
  }

  // ---- Decoding what was encoded ----

  ghost predicate WireLabels(ls: seq<Text>) {
    forall i :: 0 <= i < |ls| ==> 1 <= |ls[i]| <= 63
  }

  /** text with the lower-cased labels appended. */
  function Extend(text: Text, ls: seq<Text>): Text
    decreases |ls|
  {
    if ls == [] then text else Extend(Dotted(text, ls[0]), ls[1..])
  }

  ghost predicate At(msg: Text, off: nat, bytes: Text) {
    off + |bytes| <= |msg| && msg[off..off + |bytes|] == bytes
  }

  lemma AtParts(msg: Text, off: nat, a: Text, b: Text)
    ensures At(msg, off, a + b) <==> At(msg, off, a) && At(msg, off + |a|, b)
  {
    var n := |a| + |b|;
    if off + n <= |msg| {
      assert msg[off..off + n] == msg[off..off + |a|] + msg[off + |a|..off + n];
      assert (a + b)[..|a|] == a && (a + b)[|a|..] == b;
      assert msg[off..off + n][..|a|] == msg[off..off + |a|];
      assert msg[off..off + n][|a|..] == msg[off + |a|..off + n];
    }
  }

  lemma EncodeLabelsUnfolds(ls: seq<Text>)
    requires WireLabels(ls) && ls != []
    ensures EncodeLabels(ls) == [|ls[0]|] + ls[0] + EncodeLabels(ls[1..])
  {
  }

  /** An uncompressed name decodes to its labels, unless it exceeds the length limit. */
  lemma {:induction false} DecodePlain(msg: Text, off: nat, ls: seq<Text>, end: Option<nat>, jumps: nat, total: nat,
                                       text: Text)
    requires WireLabels(ls) && At(msg, off, EncodeLabels(ls) + [0]) && total <= NAME_MAX
    ensures Decode(msg, off, end, jumps, total, text)
            == if total + |EncodeLabels(ls)| <= NAME_MAX
               then Some(Name(Extend(text, ls), end.GetOr(off + |EncodeLabels(ls)| + 1)))
               else None
    decreases |ls|
  {
    hide Decode, Dotted, EncodeLabels;
    DecodeUnfolds(msg, off, end, jumps, total, text);
    if ls == [] {
      NothingEncoded();
      assert msg[off] == msg[off..off + 1][0];
    } else {
      var l, rest := ls[0], ls[1..];
      EncodeLabelsUnfolds(ls);
      assert EncodeLabels(ls) + [0] == [|l|] + (l + (EncodeLabels(rest) + [0]));
      AtParts(msg, off, [|l|], l + (EncodeLabels(rest) + [0]));
      AtParts(msg, off + 1, l, EncodeLabels(rest) + [0]);
      assert msg[off] == msg[off..off + 1][0];
      if total + |l| + 1 <= NAME_MAX {
        DecodePlain(msg, off + 1 + |l|, rest, end, jumps, total + |l| + 1, Dotted(text, l));
      }
    }
  }

  // ---- Any name, encoded and decoded ----

  /** The labels that survive encoding: empty ones dropped, long ones clipped. */
  function Kept(parts: seq<Text>): seq<Text> {
    if parts == [] then []
    else (if parts[0] == [] then [] else [Clip(parts[0])]) + Kept(parts[1..])
  }

  lemma {:induction false} KeptEncodesSame(parts: seq<Text>)
    ensures WireLabels(Kept(parts)) && EncodeLabels(Kept(parts)) == EncodeLabels(parts)
  {
    if parts != [] {
      KeptEncodesSame(parts[1..]);
      var rest := Kept(parts[1..]);
      if parts[0] != [] {
        assert ([Clip(parts[0])] + rest)[1..] == rest;
      } else {
        assert Kept(parts) == rest;
      }
    }
  }

  /** For every name whatever, wherever its encoding stands in a message: decoding it gives
      the surviving labels in lower case, or fails when they are too long together. */
  lemma DecodeEncode(msg: Text, off: nat, name: Text)
    requires At(msg, off, Encode(name))
    ensures Decode(msg, off, None, 0, 0, [])
            == if |Encode(name)| <= 256
               then Some(Name(Extend([], Kept(Split(name))), off + |Encode(name)|))
               else None
  {
    hide Decode, EncodeLabels;
    KeptEncodesSame(Split(name));
    DecodePlain(msg, off, Kept(Split(name)), None, 0, 0, []);
  }

  predicate LowerCase(t: Text) { forall i :: 0 <= i < |t| ==> !(65 <= t[i] <= 90) }

  /** Lower-case, labels of 1 to 63 octets, within the length limit (or the root). */
  predicate WellFormed(name: Text) {
    && LowerCase(name) && |Encode(name)| <= 256
    && (name == [] || forall i :: 0 <= i < |Split(name)| ==> 1 <= |Split(name)[i]| <= 63)
  }

  lemma {:induction false} JoinSplit(name: Text)
    ensures Join(Split(name)) == name
  {
    if name != [] {
      var rest := Split(name[1..]);
      JoinSplit(name[1..]);
      assert Split(name) == if name[0] == DOT then [[]] + rest else [[name[0]] + rest[0]] + rest[1..];
      hide Split;
      if name[0] == DOT {
        assert ([[]] + rest)[1..] == rest;
        assert name == [DOT] + name[1..];
      } else {
        var s := [[name[0]] + rest[0]] + rest[1..];
        assert s[1..] == rest[1..];
        assert name == [name[0]] + name[1..];
        if |rest| > 1 { assert Join(s) == [name[0]] + Join(rest); }
      }
    }
  }

  /** Appending labels onto a text one by one is joining them. */
  lemma {:induction false} ExtendJoins(text: Text, ls: seq<Text>)
    requires WireLabels(ls) && ls != []
    ensures Extend(text, ls) == (if text == [] then [] else text + [DOT]) + LowerText(Join(ls))
    decreases |ls|
  {
    var t := Dotted(text, ls[0]);
    if |ls| == 1 {
      assert Extend(t, ls[1..]) == t;
    } else {
      ExtendJoins(t, ls[1..]);
      assert LowerText(Join(ls)) == LowerText(ls[0]) + [DOT] + LowerText(Join(ls[1..]));
    }
  }

  lemma {:induction false} KeptAll(parts: seq<Text>)
    requires WireLabels(parts)
    ensures Kept(parts) == parts
    decreases |parts|
  {
    if parts != [] { KeptAll(parts[1..]); }
  }

  lemma LowerFixed(t: Text)
    ensures LowerText(t) == t <==> LowerCase(t)
  {
    if LowerText(t) == t {
      forall i | 0 <= i < |t| ensures !(65 <= t[i] <= 90) { assert LowerText(t)[i] == LowerByte(t[i]); }
    }
  }

  /** Joined length of the parts: dropping or clipping one always makes it shorter. */
  lemma {:induction false} KeptShrinks(parts: seq<Text>)
    requires parts != []
    ensures |Join(Kept(parts))| <= |Join(parts)|
    ensures |Join(Kept(parts))| == |Join(parts)| ==> WireLabels(parts) || parts == [[]]
    decreases |parts|
  {
    var rest := parts[1..];
    var k := Kept(rest);
    if rest == [] {
      assert Kept(parts) == if parts[0] == [] then [] else [Clip(parts[0])];
    } else {
      KeptShrinks(rest);
      if parts[0] == [] {
        assert Kept(parts) == k;
      } else {
        assert Kept(parts) == [Clip(parts[0])] + k;
        assert Kept(parts)[1..] == k;
        if k == [] {
          assert |Join(Kept(parts))| == |Clip(parts[0])|;
        } else if |Join(Kept(parts))| == |Join(parts)| {
          assert rest == [[]] ==> Kept(rest) == [];
          assert parts == [parts[0]] + rest;
        }
      }
    }
  }

  /** The names that survive a round trip are exactly the well-formed ones. */
  lemma RoundTripExactly(msg: Text, off: nat, name: Text)
    requires At(msg, off, Encode(name))
    ensures Decode(msg, off, None, 0, 0, []) == Some(Name(name, off + |Encode(name)|)) <==> WellFormed(name)
  {
    hide Decode, Encode, Split, EncodeLabels;
    DecodeEncode(msg, off, name);
    SurvivesExactly(name);
  }

  lemma SurvivesExactly(name: Text)
    ensures Extend([], Kept(Split(name))) == name
            <==> LowerCase(name) && (name == [] || WireLabels(Split(name)))
  {
    var parts := Split(name);
    var k := Kept(parts);
    JoinSplit(name);
    KeptEncodesSame(parts);
    if k != [] { ExtendJoins([], k); }
    LowerFixed(name);
    KeptShrinks(parts);
    if name == [] {
      assert parts == [[]];
      assert Kept(parts[1..]) == [];
    } else if WireLabels(parts) {
      KeptAll(parts);
    } else if k != [] {
      assert |Join(k)| < |name|;
    }
  }

  // ---- Compression ----

  /** Two octets pointing at offset o, anywhere in the first 16384, are read as the name that
      stands there; reading resumes right after them. */
  lemma PointerDecodes(msg: Text, at: nat, o: nat, name: Text)
    requires o < 16384 && At(msg, at, [192 + o / 256, o % 256]) && At(msg, o, Encode(name)) && WellFormed(name)
    ensures Decode(msg, at, None, 0, 0, []) == Some(Name(name, at + 2))
  {
    hide Decode, Encode, Split;
    assert msg[at] == msg[at..at + 2][0] && msg[at + 1] == msg[at..at + 2][1];
    DecodeUnfolds(msg, at, None, 0, 0, []);
    RoundTripExactly(msg, o, name);
    PlainEncoding(msg, o, name);
  }

  /** The name at o, read after one jump. */
  lemma PlainEncoding(msg: Text, o: nat, name: Text)
    requires At(msg, o, Encode(name)) && WellFormed(name)
    ensures forall end: nat :: Decode(msg, o, Some(end), 1, 0, []) == Some(Name(name, end))
  {
    hide Decode, EncodeLabels, Split;
    forall end: nat ensures Decode(msg, o, Some(end), 1, 0, []) == Some(Name(name, end)) {
      KeptEncodesSame(Split(name));
      DecodePlain(msg, o, Kept(Split(name)), Some(end), 1, 0, []);
      DecodePlain(msg, o, Kept(Split(name)), None, 0, 0, []);
      RoundTripExactly(msg, o, name);
    }
  }

  /** From off on, n pointers lead one to the next and the last to a root name. */
  predicate PointerChain(msg: Text, off: nat, n: nat)
    decreases n
  {
    if n == 0 then off < |msg| && msg[off] == 0
    else off + 1 < |msg| && msg[off] >= 192 && PointerChain(msg, PointsTo(msg, off), n - 1)
  }

  /** The low 14 bits of the word at off. */
  function PointsTo(msg: Text, off: nat): nat
    requires off + 1 < |msg| && msg[off] >= 192
  {
    BigEndian(msg[off..off + 2]) % 16384
  }

  /** The number the octets spell, the most significant first. */
  function BigEndian(octets: Text): nat {
    if octets == [] then 0 else 256 * BigEndian(octets[..|octets| - 1]) + (octets[|octets| - 1] as int)
  }

  lemma BigEndianOfTwo(a: Byte, b: Byte)
    ensures BigEndian([a, b]) == 256 * (a as int) + (b as int)
  {
    var one, two: Text := [a], [a, b];
    assert one[..0] == [] && two[..1] == one;
    assert BigEndian(one) == 256 * BigEndian(one[..0]) + (a as int);
    assert BigEndian(two) == 256 * BigEndian(two[..1]) + (b as int);
  }

  lemma PointerIs(msg: Text, off: nat)
    requires off + 1 < |msg| && msg[off] >= 192
    ensures PointsTo(msg, off) == Pointer(msg[off], msg[off + 1])
  {
    hide BigEndian, Pointer;
    var c, d := msg[off], msg[off + 1];
    BigEndianOfTwo(c, d);
    assert msg[off..off + 2] == [c, d];
    LowBits(c, d);
    PointerValue(c, d);
  }

  lemma PointerValue(c: Byte, d: Byte)
    requires c >= 192
    ensures Pointer(c, d) == (c as int - 192) * 256 + (d as int)
  {
  }

  lemma LowBits(c: int, d: int)
    requires 192 <= c < 256 && 0 <= d < 256
    ensures (256 * c + d) % 16384 == (c - 192) * 256 + d
  {
    var x := (c - 192) * 256 + d;
    assert 256 * c + d == 3 * 16384 + x && 0 <= x < 16384;
  }

  /** At most 16 pointers are followed. */
  lemma {:induction false} JumpLimit(msg: Text, off: nat, n: nat, end: Option<nat>, jumps: nat)
    requires PointerChain(msg, off, n) && jumps <= 16
    ensures Decode(msg, off, end, jumps, 0, []).Some? <==> jumps + n <= 16
    decreases n
  {
    hide Decode;
    DecodeUnfolds(msg, off, end, jumps, 0, []);
    if n > 0 {
      PointerIs(msg, off);
      if jumps < 16 { JumpLimit(msg, PointsTo(msg, off), n - 1, Some(end.GetOr(off + 2)), jumps + 1); }
    }
  }
}
